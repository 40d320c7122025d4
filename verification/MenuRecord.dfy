/** What menu_finalize has done so far: the conditions it combined and the entries it gave new parents. */
module MenuRecords {
  import opened Options
  import opened Tristates
  import opened Exprs
  import opened MenuLinks
  import opened MenuDeps
  import opened MenuAdoption
  import opened MenuInheritance

  /** An entry got a new parent: one that took it over, or the parent of one without a prompt text. */
  datatype Move = Adoption(child: Id, to: Id) | Raise(child: Id, over: Id, to: Id)

  /**
   * `inh` holds what every entry was combined with, `deps` and `props` are the conditions now, `rev` what
   * selects each symbol now, `parents` the parent pointers now, and `log` the moves in the order in which they
   * were made.  `stops` has for each entry that took siblings over the first one that it left, and `done` the
   * entries that are finalised.
   */
  datatype Facts = Facts(
    before: Before, sym: map<Id, Symbol>, prompts: Prompts, texts: set<Id>, optional: set<Symbol>,
    inh: map<Id, Option<Expr>>, deps: Deps, props: PropTable, rev: RevDeps,
    parents: map<Id, Id>, log: seq<Move>, stops: map<Id, Option<Id>>, done: set<Id>)
  {
    function Cond(i: Id): Option<Expr> { Condition(prompts, deps, props, i) }

    function PromptCond(i: Id): Option<Expr> { PromptCondition(prompts, props, i) }

    /** The entry's condition is final: it was combined with its parent's, or it is the root. */
    predicate Known(i: Id) { i in inh || i == before.root }

    /** The conditions, as they are now, under which `m` becomes a child of `p`. */
    predicate Takes(p: Id, m: Id) { p in sym && BelongsTo(Cond(m), sym[p], PromptCond(p)) }

    /**
     * Entries are only taken over by one that was declared without children and that they belong to, and only
     * raised over one without a prompt text.
     */
    predicate Allowed(m: Move) {
      match m
      case Adoption(c, to) => Known(c) && Known(to) && TakesOver(to) && Takes(to, c)
      case Raise(_, over, _) => over !in texts
    }

    function Parent(c: Id): Option<Id> { if c in parents then Some(parents[c]) else None }

    /** An entry with a symbol that was declared without children takes siblings over. */
    predicate TakesOver(p: Id) { p in sym && before.links.List(p).None? }

    /** What the prompt of an entry adds to what selects `t`. */
    function PromptSelects(i: Id, t: Symbol, env: Env): Tristate {
      if i in sym && sym[i] == t && t !in optional && Prompted(prompts, props, i)
      then Min(CalcOpt(PromptCond(i), env), MOD) else NO
    }

    /** What the selects of an entry add to it. */
    function EntrySelectsBy(i: Id, t: Symbol, env: Env): Tristate { SelectedByEntry(sym, i, props, t, env) }
  }

  /** The parent pointer that the moves leave an entry with. */
  function Replay(l0: Links, log: seq<Move>, c: Id): Option<Id> {
    if log == [] then l0.Parent(c)
    else
      var m := log[|log| - 1];
      if m.child == c then Some(m.to) else Replay(l0, log[..|log| - 1], c)
  }

  /**
   * The move starts from the pointers that the moves before it have left: siblings become parent and
   * child, or an entry goes from its parent to that one's parent.
   */
  predicate Fits(l0: Links, log: seq<Move>, m: Move) {
    match m
    case Adoption(c, to) => c != to && Replay(l0, log, c) == Replay(l0, log, to)
    case Raise(c, over, to) => Replay(l0, log, c) == Some(over) && Replay(l0, log, over) == Some(to)
  }

  ghost predicate Replayed(r: Facts) { forall c: Id :: r.Parent(c) == Replay(r.before.links, r.log, c) }

  ghost predicate AllAllowed(r: Facts) { forall i | 0 <= i < |r.log| :: r.Allowed(r.log[i]) }

  ghost predicate AllFit(r: Facts) { forall i | 0 <= i < |r.log| :: Fits(r.before.links, r.log[..i], r.log[i]) }

  // ----- the siblings that an entry took over ---------------------------------------------

  ghost predicate Adopted(log: seq<Move>, c: Id, p: Id) { Adoption(c, p) in log }

  ghost predicate AdoptedBySome(log: seq<Move>, c: Id, ps: seq<Id>) { exists p :: p in ps && Adopted(log, c, p) }

  /**
   * In the order of declaration `ss` are the siblings after `p`, each taken over by `p` or by one before it,
   * and `end` is the next sibling.
   */
  ghost predicate Took(l0: Links, log: seq<Move>, p: Id, ss: seq<Id>, end: Option<Id>) {
    && (forall i | 0 <= i <= |ss| :: l0.Next(([p] + ss)[i]) == if i < |ss| then Some(ss[i]) else end)
    && (forall i | 0 <= i < |ss| :: AdoptedBySome(log, ss[i], [p] + ss[..i]))
  }

  ghost predicate TookUpTo(l0: Links, log: seq<Move>, p: Id, end: Option<Id>) {
    exists ss: seq<Id> :: Took(l0, log, p, ss, end)
  }

  /** `p` took over siblings up to `end`, which does not belong to it. */
  ghost predicate StopsAt(r: Facts, p: Id, end: Option<Id>) {
    && r.Known(p) && TookUpTo(r.before.links, r.log, p, end)
    && (end.Some? ==> r.Known(end.value) && !r.Takes(p, end.value))
  }

  ghost predicate AllStop(r: Facts) {
    && (forall p | p in r.stops :: StopsAt(r, p, r.stops[p]))
    && (forall p | p in r.done && r.TakesOver(p) :: p in r.stops)
  }

  lemma {:induction false} TookNothing(l0: Links, log: seq<Move>, p: Id)
    ensures TookUpTo(l0, log, p, l0.Next(p))
  {
    assert Took(l0, log, p, [], l0.Next(p));
  }

  lemma {:induction false} TookMore(l0: Links, log: seq<Move>, log': seq<Move>, p: Id, end: Option<Id>)
    requires TookUpTo(l0, log, p, end) && log <= log'
    ensures TookUpTo(l0, log', p, end)
  {
    var ss :| Took(l0, log, p, ss, end);
    forall i | 0 <= i < |ss| ensures AdoptedBySome(log', ss[i], [p] + ss[..i]) {
      assert AdoptedBySome(log, ss[i], [p] + ss[..i]);
      var q :| q in [p] + ss[..i] && Adopted(log, ss[i], q);
      assert Adopted(log', ss[i], q);
    }
    assert Took(l0, log', p, ss, end);
  }

  /** The next sibling is taken over, with those that it took over itself. */
  lemma {:induction false} TookOne(l0: Links, log: seq<Move>, p: Id, m: Id, end: Option<Id>)
    requires TookUpTo(l0, log, p, Some(m)) && Adopted(log, m, p) && TookUpTo(l0, log, m, end)
    ensures TookUpTo(l0, log, p, end)
  {
    var s1 :| Took(l0, log, p, s1, Some(m));
    var s2 :| Took(l0, log, m, s2, end);
    var ss := s1 + [m] + s2;
    forall i | 0 <= i <= |ss| ensures l0.Next(([p] + ss)[i]) == if i < |ss| then Some(ss[i]) else end {
      if i <= |s1| {
        assert ([p] + ss)[i] == ([p] + s1)[i];
      } else {
        assert ([p] + ss)[i] == ([m] + s2)[i - |s1| - 1];
      }
    }
    forall i | 0 <= i < |ss| ensures AdoptedBySome(log, ss[i], [p] + ss[..i]) {
      if i < |s1| {
        assert ss[..i] == s1[..i] && AdoptedBySome(log, s1[i], [p] + s1[..i]);
      } else if i == |s1| {
        assert p in [p] + ss[..i];
      } else {
        var k := i - |s1| - 1;
        assert AdoptedBySome(log, s2[k], [m] + s2[..k]);
        var q :| q in [m] + s2[..k] && Adopted(log, s2[k], q);
        assert ss[..i] == s1 + [m] + s2[..k];
      }
    }
    assert Took(l0, log, p, ss, end);
  }

  // ----- what selects a symbol ------------------------------------------------------------

  /**
   * What selects a symbol is the strongest of the selects of all entries that have their conditions and
   * of the prompts of all finalised ones.
   */
  ghost predicate RevIs(r: Facts, t: Symbol, env: Env) {
    var v := RevValue(r.rev, t, env);
    && (forall c | c in r.inh :: r.EntrySelectsBy(c, t, env) <= v)
    && (forall c | c in r.done :: r.PromptSelects(c, t, env) <= v)
    && (v == NO || (exists c :: c in r.inh && r.EntrySelectsBy(c, t, env) == v)
                || (exists c :: c in r.done && r.PromptSelects(c, t, env) == v))
  }

  ghost predicate AllRev(r: Facts) {
    && (forall i | i in r.done :: r.Known(i))
    && forall t: Symbol, env: Env | env.Valid() :: RevIs(r, t, env)
  }

  // ----- true records ---------------------------------------------------------------------

  ghost predicate TrueFacts(r: Facts) {
    && AllInherit(r.before, r.sym, r.prompts, r.inh, r.deps, r.props)
    && AllAllowed(r) && AllFit(r) && Replayed(r) && AllStop(r) && AllRev(r)
  }

  /** The same, kept folded. */
  ghost predicate True(r: Facts) { forall b :: Unfold(b) ==> TrueFacts(r) }

  lemma {:induction false} TrueMeans(r: Facts)
    requires True(r)
    ensures TrueFacts(r)
  {
    assert Unfold(true);
  }

  /** Only true records are ever kept. */
  type Record = r: Facts | True(r) ghost witness
    Facts(Before(Links(map[], map[], map[]), 0, map[], map[]), map[], map[], {}, {}, map[], map[], map[], map[],
          map[], [], map[], {})

  lemma {:induction false} RecordIsTrue(r: Record)
    ensures forall c | c in r.inh :: Inherits(r.before, r.sym, r.prompts, r.inh.Keys, c, r.inh[c], r.deps, r.props)
    ensures AllAllowed(r) && AllFit(r) && Replayed(r) && AllStop(r) && AllRev(r)
  {
    assert True(r);
    TrueMeans(r);
  }

  /** The record at the start. */
  ghost function Start(b: Before, sym: map<Id, Symbol>, prompts: Prompts, texts: set<Id>, optional: set<Symbol>)
    : (r: Record)
    ensures r == Facts(b, sym, prompts, texts, optional, map[], b.deps, b.props, map[], b.links.parent, [], map[], {})
  {
    Facts(b, sym, prompts, texts, optional, map[], b.deps, b.props, map[], b.links.parent, [], map[], {})
  }

  /** One more move. */
  ghost function Moved(r: Record, m: Move): (r': Record)
    requires r.Allowed(m) && FitsNow(r, m)
    ensures r' == r.(parents := r.parents[m.child := m.to], log := r.log + [m])
  {
    MovedIsTrue(r, m);
    r.(parents := r.parents[m.child := m.to], log := r.log + [m])
  }

  /** The same in terms of the pointers as they are. */
  predicate FitsNow(r: Facts, m: Move) {
    match m
    case Adoption(c, to) => c != to && r.Parent(c) == r.Parent(to)
    case Raise(c, over, to) => r.Parent(c) == Some(over) && r.Parent(over) == Some(to)
  }

  lemma {:induction false} MovedIsTrue(r: Facts, m: Move)
    requires True(r) && r.Allowed(m) && FitsNow(r, m)
    ensures True(r.(parents := r.parents[m.child := m.to], log := r.log + [m]))
  {
    var r' := r.(parents := r.parents[m.child := m.to], log := r.log + [m]);
    TrueMeans(r);
    forall i | 0 <= i < |r'.log| ensures r'.Allowed(r'.log[i]) {
      assert i < |r.log| ==> r.Allowed(r.log[i]);
    }
    MovedReplayed(r, m);
    MovedFits(r, m);
    StillStop(r, r');
    StillRev(r, r');
  }

  lemma {:induction false} MovedReplayed(r: Facts, m: Move)
    requires Replayed(r)
    ensures Replayed(r.(parents := r.parents[m.child := m.to], log := r.log + [m]))
  {
    var r' := r.(parents := r.parents[m.child := m.to], log := r.log + [m]);
    assert r'.log[..|r'.log| - 1] == r.log;
    forall c: Id ensures r'.Parent(c) == Replay(r'.before.links, r'.log, c) {
      assert r.Parent(c) == Replay(r.before.links, r.log, c);
    }
  }

  lemma {:induction false} MovedFits(r: Facts, m: Move)
    requires AllFit(r) && Replayed(r) && FitsNow(r, m)
    ensures AllFit(r.(parents := r.parents[m.child := m.to], log := r.log + [m]))
  {
    var log := r.log + [m];
    forall i | 0 <= i < |log| ensures Fits(r.before.links, log[..i], log[i]) {
      if i < |r.log| {
        assert log[..i] == r.log[..i];
        assert Fits(r.before.links, r.log[..i], r.log[i]);
      } else {
        assert log[..i] == r.log;
        assert r.Parent(m.child) == Replay(r.before.links, r.log, m.child);
        assert m.Adoption? ==> r.Parent(m.to) == Replay(r.before.links, r.log, m.to);
        assert m.Raise? ==> r.Parent(m.over) == Replay(r.before.links, r.log, m.over);
      }
    }
  }

  /** The condition of `p` was spread over the list `kids`, and the selects of its entries were added. */
  ghost function SpreadOver(r: Record, p: Id, kids: Forest, d: Deps, props: PropTable, rev: RevDeps): (r': Record)
    requires r.Known(p) && Parents(r.before.links, kids, p)
    requires Ids(kids) !! r.inh.Keys && r.before.root !in Ids(kids) && p !in Ids(kids)
    requires Spread(r.Cond(p), r.sym, Tops(kids), |Tops(kids)|, r.deps, r.props, d, props)
    requires EntriesSelect(r.rev, rev, r.sym, Tops(kids), |Tops(kids)|, props)
    ensures r' == r.(inh := Inheriting(r.inh, kids, r.Cond(p)), deps := d, props := props, rev := rev)
    ensures r'.inh.Keys == r.inh.Keys + TopSet(kids) && Kept(r, r')
  {
    SpreadIsTrue(r, p, kids, d, props, rev);
    InheritingKeys(r.inh, kids, r.Cond(p));
    r.(inh := Inheriting(r.inh, kids, r.Cond(p)), deps := d, props := props, rev := rev)
  }

  /** An entry has taken over the siblings that it does. */
  ghost function Stopped(r: Record, p: Id, end: Option<Id>): (r': Record)
    requires StopsAt(r, p, end)
    ensures r' == r.(stops := r.stops[p := end])
  {
    StoppedIsTrue(r, p, end);
    r.(stops := r.stops[p := end])
  }

  lemma {:induction false} StoppedIsTrue(r: Facts, p: Id, end: Option<Id>)
    requires True(r) && StopsAt(r, p, end)
    ensures True(r.(stops := r.stops[p := end]))
  {
    var r' := r.(stops := r.stops[p := end]);
    TrueMeans(r);
    StoppedStop(r, p, end);
    StillRev(r, r');
    assert Replayed(r') by {
      assert Replayed(r);
      assert forall c :: r'.Parent(c) == r.Parent(c);
    }
  }

  lemma {:induction false} StoppedStop(r: Facts, p: Id, end: Option<Id>)
    requires AllStop(r) && StopsAt(r, p, end)
    ensures AllStop(r.(stops := r.stops[p := end]))
  {
    var r' := r.(stops := r.stops[p := end]);
    forall q | q in r'.stops ensures StopsAt(r', q, r'.stops[q]) {
      assert q != p ==> StopsAt(r, q, r.stops[q]);
    }
  }

  /** An entry is finalised, and its prompt was added to what selects its symbol. */
  ghost function Counted(r: Record, p: Id, rev: RevDeps): (r': Record)
    requires r.Known(p) && (r.TakesOver(p) ==> p in r.stops) && PromptAdded(r, p, rev)
    ensures r' == r.(rev := rev, done := r.done + {p})
  {
    CountedIsTrue(r, p, rev);
    r.(rev := rev, done := r.done + {p})
  }

  ghost predicate PromptAdded(r: Facts, p: Id, rev: RevDeps) {
    forall t: Symbol, env: Env | env.Valid() ::
      RevValue(rev, t, env) == Max(RevValue(r.rev, t, env), r.PromptSelects(p, t, env))
  }

  lemma {:induction false} CountedIsTrue(r: Facts, p: Id, rev: RevDeps)
    requires True(r) && r.Known(p) && (r.TakesOver(p) ==> p in r.stops) && PromptAdded(r, p, rev)
    ensures True(r.(rev := rev, done := r.done + {p}))
  {
    var r' := r.(rev := rev, done := r.done + {p});
    TrueMeans(r);
    CountedRev(r, p, rev);
    CountedStop(r, p, rev);
    assert Replayed(r') by {
      assert Replayed(r);
      assert forall c :: r'.Parent(c) == r.Parent(c);
    }
  }

  lemma {:induction false} CountedStop(r: Facts, p: Id, rev: RevDeps)
    requires AllStop(r) && (r.TakesOver(p) ==> p in r.stops)
    ensures AllStop(r.(rev := rev, done := r.done + {p}))
  {
    var r' := r.(rev := rev, done := r.done + {p});
    forall q | q in r'.stops ensures StopsAt(r', q, r'.stops[q]) {
      assert StopsAt(r, q, r.stops[q]);
    }
  }

  lemma {:induction false} CountedRev(r: Facts, p: Id, rev: RevDeps)
    requires AllRev(r) && r.Known(p) && PromptAdded(r, p, rev)
    ensures AllRev(r.(rev := rev, done := r.done + {p}))
  {
    var r' := r.(rev := rev, done := r.done + {p});
    forall t: Symbol, env: Env | env.Valid() ensures RevIs(r', t, env) {
      assert RevIs(r, t, env);
      KeptSelects(r, r', t, env);
    }
  }

  /** Conditions that were final have not changed. */
  ghost predicate Kept(r0: Facts, r: Facts) {
    && r0.before == r.before && r0.sym == r.sym && r0.prompts == r.prompts && r0.texts == r.texts
    && r0.optional == r.optional
    && r0.inh.Keys <= r.inh.Keys
    && forall i | r0.Known(i) :: DepOf(r0.deps, i) == DepOf(r.deps, i) && PropsOf(r0.props, i) == PropsOf(r.props, i)
  }

  lemma {:induction false} KeptConditions(r0: Facts, r: Facts, i: Id)
    requires Kept(r0, r) && r0.Known(i)
    ensures r.Known(i) && r.Cond(i) == r0.Cond(i) && r.PromptCond(i) == r0.PromptCond(i)
  {}

  lemma {:induction false} SpreadKeeps(r: Facts, kids: Forest, cond: Option<Expr>, d: Deps, props: PropTable)
    requires Ids(kids) !! r.inh.Keys && r.before.root !in Ids(kids)
    requires Spread(cond, r.sym, Tops(kids), |Tops(kids)|, r.deps, r.props, d, props)
    ensures Kept(r, r.(inh := Inheriting(r.inh, kids, cond), deps := d, props := props))
  {
    TopsAndBelow(kids);
    TopsAreTopSet(kids);
    InheritingKeys(r.inh, kids, cond);
    assert Tops(kids)[..|Tops(kids)|] == Tops(kids);
  }

  lemma {:induction false} SpreadIsTrue(r: Facts, p: Id, kids: Forest, d: Deps, props: PropTable, rev: RevDeps)
    requires True(r) && r.Known(p) && Parents(r.before.links, kids, p)
    requires Ids(kids) !! r.inh.Keys && r.before.root !in Ids(kids) && p !in Ids(kids)
    requires Spread(r.Cond(p), r.sym, Tops(kids), |Tops(kids)|, r.deps, r.props, d, props)
    requires EntriesSelect(r.rev, rev, r.sym, Tops(kids), |Tops(kids)|, props)
    ensures var r' := r.(inh := Inheriting(r.inh, kids, r.Cond(p)), deps := d, props := props, rev := rev);
      True(r') && Kept(r, r')
  {
    var r' := r.(inh := Inheriting(r.inh, kids, r.Cond(p)), deps := d, props := props, rev := rev);
    TrueMeans(r);
    RecordSpread(r.before, r.sym, r.prompts, r.inh, p, kids, r.deps, r.props, d, props);
    SpreadKeeps(r, kids, r.Cond(p), d, props);
    assert Kept(r, r');
    StillAllowed(r, r');
    StillStop(r, r');
    SpreadRev(r, r', kids, r.Cond(p));
    assert AllFit(r');
    assert Replayed(r') by {
      assert Replayed(r);
      assert forall c :: r'.Parent(c) == r.Parent(c);
    }
  }

  /** The strongest select of a list of entries. */
  lemma {:induction false} StrongestSelect(sym: map<Id, Symbol>, ids: seq<Id>, n: nat, p: PropTable, t: Symbol,
      env: Env)
    requires n <= |ids|
    ensures var v := SelectedByEntries(sym, ids, n, p, t, env);
      && (forall j | 0 <= j < n :: SelectedByEntry(sym, ids[j], p, t, env) <= v)
      && (v == NO || exists j :: 0 <= j < n && SelectedByEntry(sym, ids[j], p, t, env) == v)
  {
    if n > 0 {
      StrongestSelect(sym, ids, n - 1, p, t, env);
    }
  }

  lemma {:induction false} SpreadRev(r: Facts, r': Facts, kids: Forest, cond: Option<Expr>)
    requires AllRev(r) && Kept(r, r') && r'.inh == Inheriting(r.inh, kids, cond) && r'.done == r.done
    requires EntriesSelect(r.rev, r'.rev, r.sym, Tops(kids), |Tops(kids)|, r'.props)
    ensures AllRev(r')
  {
    var ids := Tops(kids);
    TopsAreTopSet(kids);
    InheritingKeys(r.inh, kids, cond);
    forall t: Symbol, env: Env | env.Valid() ensures RevIs(r', t, env) {
      assert RevIs(r, t, env);
      assert RevValue(r'.rev, t, env) ==
        Max(RevValue(r.rev, t, env), SelectedByEntries(r.sym, ids, |ids|, r'.props, t, env));
      SpreadRevAt(r, r', ids, t, env);
    }
  }

  lemma {:induction false} SpreadRevAt(r: Facts, r': Facts, ids: seq<Id>, t: Symbol, env: Env)
    requires RevIs(r, t, env) && Kept(r, r') && (forall i | i in r.done :: r.Known(i)) && r'.done == r.done
    requires forall c :: c in r'.inh <==> c in r.inh || c in ids
    requires RevValue(r'.rev, t, env) ==
      Max(RevValue(r.rev, t, env), SelectedByEntries(r.sym, ids, |ids|, r'.props, t, env))
    ensures RevIs(r', t, env)
  {
    StrongestSelect(r.sym, ids, |ids|, r'.props, t, env);
    KeptSelects(r, r', t, env);
  }

  /** What the entries with final conditions select does not change. */
  lemma {:induction false} KeptSelects(r: Facts, r': Facts, t: Symbol, env: Env)
    requires Kept(r, r')
    ensures forall c | r.Known(c) ::
      r'.EntrySelectsBy(c, t, env) == r.EntrySelectsBy(c, t, env)
      && r'.PromptSelects(c, t, env) == r.PromptSelects(c, t, env)
  {}

  /** A stop stays one while moves are added and conditions spread. */
  lemma {:induction false} StillStop(r: Facts, r': Facts)
    requires AllStop(r) && Kept(r, r') && r.log <= r'.log && r'.stops == r.stops && r'.done == r.done
    ensures AllStop(r')
  {
    forall p | p in r'.stops ensures StopsAt(r', p, r'.stops[p]) {
      var end := r.stops[p];
      assert StopsAt(r, p, end);
      TookMore(r.before.links, r.log, r'.log, p, end);
      KeptConditions(r, r', p);
      if end.Some? {
        KeptConditions(r, r', end.value);
      }
    }
  }

  lemma {:induction false} StillRev(r: Facts, r': Facts)
    requires AllRev(r) && Kept(r, r') && r'.inh == r.inh && r'.done == r.done && r'.rev == r.rev
    ensures AllRev(r')
  {
    forall t: Symbol, env: Env | env.Valid() ensures RevIs(r', t, env) {
      assert RevIs(r, t, env);
      KeptSelects(r, r', t, env);
    }
  }

  lemma {:induction false} StillAllowed(r: Facts, r': Facts)
    requires AllAllowed(r) && Kept(r, r') && r'.log == r.log
    ensures AllAllowed(r')
  {
    forall i | 0 <= i < |r'.log| ensures r'.Allowed(r'.log[i]) {
      assert r.Allowed(r.log[i]);
      if r.log[i].Adoption? {
        KeptConditions(r, r', r.log[i].child);
        KeptConditions(r, r', r.log[i].to);
      }
    }
  }

  // ----- what a call of menu_finalize adds --------------------------------------------

  /** From the sibling list `f` to what is left of it. */
  ghost predicate Gain(r0: Facts, f: Forest, r: Facts, rest: Forest) {
    Progress(r0.inh.Keys, f, r.inh.Keys, rest) && Kept(r0, r) && r0.log <= r.log
  }

  /** The same, kept folded. */
  ghost predicate Since(r0: Facts, f: Forest, r: Facts, rest: Forest) { forall b :: Unfold(b) ==> Gain(r0, f, r, rest) }

  lemma {:induction false} SinceMeans(r0: Facts, f: Forest, r: Facts, rest: Forest)
    requires Since(r0, f, r, rest)
    ensures Gain(r0, f, r, rest)
  {
    assert Unfold(true);
  }

  lemma {:induction false} SinceTrans(r0: Facts, f: Forest, r1: Facts, m: Forest, r2: Facts, rest: Forest)
    requires Since(r0, f, r1, m) && Since(r1, m, r2, rest)
    ensures Since(r0, f, r2, rest)
  {
    SinceMeans(r0, f, r1, m);
    SinceMeans(r1, m, r2, rest);
    ProgressTrans(r0.inh.Keys, f, r1.inh.Keys, m, r2.inh.Keys, rest);
  }

  lemma {:induction false} SinceReady(l0: Links, root: Id, r0: Facts, f: Forest, r: Facts, rest: Forest)
    requires Ready(l0, root, r0.inh.Keys, f) && IsSuffix(rest, f) && Since(r0, f, r, rest)
    ensures Ready(l0, root, r.inh.Keys, rest)
  {
    SinceMeans(r0, f, r, rest);
    ReadySuffix(l0, root, r0.inh.Keys, f, rest, r.inh.Keys);
  }

  lemma {:induction false} SinceKeeps(r0: Facts, f: Forest, r: Facts, rest: Forest, i: Id)
    requires Since(r0, f, r, rest) && r0.Known(i)
    ensures r.Known(i) && r.Cond(i) == r0.Cond(i) && r.PromptCond(i) == r0.PromptCond(i)
  {
    SinceMeans(r0, f, r, rest);
    KeptConditions(r0, r, i);
  }

  lemma {:induction false} SinceNothing(l0: Links, root: Id, r: Facts, f: Forest)
    requires Ready(l0, root, r.inh.Keys, f)
    ensures Since(r, f, r, f)
  {}

  /** Only parent pointers were changed, and the moves logged. */
  ghost predicate OnlyMoved(r0: Facts, r: Facts) { r == r0.(parents := r.parents, log := r.log) && r0.log <= r.log }

  lemma {:induction false} SinceMoved(r0: Facts, f: Forest, r1: Facts, rest: Forest, r2: Facts)
    requires Since(r0, f, r1, rest) && OnlyMoved(r1, r2)
    ensures Since(r0, f, r2, rest)
  {
    SinceMeans(r0, f, r1, rest);
  }

  /** Only what is known of finalised entries was added. */
  ghost predicate OnlyCounted(r0: Facts, r: Facts) { r == r0.(rev := r.rev, stops := r.stops, done := r.done) }

  lemma {:induction false} SinceCounted(r0: Facts, f: Forest, r1: Facts, rest: Forest, r2: Facts)
    requires Since(r0, f, r1, rest) && OnlyCounted(r1, r2)
    ensures Since(r0, f, r2, rest)
  {
    SinceMeans(r0, f, r1, rest);
  }

  /** An entry without children has nothing below it. */
  lemma {:induction false} SinceLeaf(r0: Facts, p: Id, sibs: Forest, r: Facts, rest: Forest)
    requires Since(r0, sibs, r, rest)
    ensures Since(r0, Cons(p, Nil, sibs), r, rest)
  {
    SinceMeans(r0, sibs, r, rest);
    assert Ids(Nil) == {};
    assert Below(Cons(p, Nil, sibs)) == Below(sibs);
  }

  /** The condition of `p` was spread over its list, and the list finalised. */
  lemma {:induction false} SinceSpread(l0: Links, root: Id, r0: Facts, r1: Facts, p: Id, kids: Forest, sibs: Forest,
      r: Facts)
    requires Ready(l0, root, r0.inh.Keys, Cons(p, kids, sibs)) && Distinct(Cons(p, kids, sibs))
    requires Kept(r0, r1) && r1.log == r0.log && r1.inh.Keys == r0.inh.Keys + TopSet(kids)
    requires Since(r1, kids, r, Nil)
    ensures Since(r0, Cons(p, kids, sibs), r, sibs)
  {
    SinceMeans(r1, kids, r, Nil);
    SpreadProgress(l0, root, r0.inh.Keys, p, kids, sibs, r.inh.Keys);
  }

  lemma {:induction false} SinceRoot(r0: Facts, root: Id, kids: Forest, r: Facts)
    requires r0.inh.Keys == {} && Since(r0, Cons(root, kids, Nil), r, Nil)
    ensures r.inh.Keys == Ids(kids)
  {
    SinceMeans(r0, Cons(root, kids, Nil), r, Nil);
    RootGained(root, kids, r.inh.Keys);
  }

  // ----- adopted children --------------------------------------------------------------

  /** Every entry on the top level was adopted by `p`. */
  ghost predicate AllAdopted(log: seq<Move>, f: Forest, p: Id) {
    f.Cons? ==> Adopted(log, f.id, p) && AllAdopted(log, f.rest, p)
  }

  lemma {:induction false} AdoptedMore(log: seq<Move>, log': seq<Move>, f: Forest, c: Id, k: Forest, p: Id)
    requires AllAdopted(log, f, p) && log <= log' && Adopted(log', c, p)
    ensures AllAdopted(log', Append(f, One(c, k)), p)
  {
    if f.Cons? {
      AdoptedMore(log, log', f.rest, c, k, p);
    }
  }
}
