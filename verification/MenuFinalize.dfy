/** menu_finalize on menus without choices, and the walk of conf_write over the result. */
module MenuFinalization {
  import opened Options
  import opened Tristates
  import opened Exprs
  import opened Transforms
  import opened ExprEquality
  import opened DupElimination
  import opened MenuLinks
  import opened MenuSteps
  import opened MenuAdoption
  import opened MenuDeps
  import opened MenuWalk
  import opened MenuInheritance
  import opened MenuRecords

  class MenuTree {
    var l: Links
    /** menu->sym, and which of the entry's properties menu->prompt is. */
    const sym: map<Id, Symbol>
    const promptAt: map<Id, nat>
    /** The entries whose prompt has a text. */
    const texts: set<Id>
    /** menu->dep, the entry's properties, and sym->rev_dep.expr; an absent expression is NULL. */
    var dep: map<Id, Expr>
    var props: map<Id, seq<MenuProp>>
    var revDep: map<Symbol, Expr>
    const optional: set<Symbol>
    /** The calls of menu_finalize so far, and everything else it has done. */
    ghost var finalized: multiset<Id>
    ghost var record: Record
    ghost const before: Before

    constructor (root: Id, l: Links, sym: map<Id, Symbol>, promptAt: Prompts, texts: set<Id>, optional: set<Symbol>,
                 dep: Deps, props: PropTable)
      ensures this.l == l && this.sym == sym && this.promptAt == promptAt && this.texts == texts
      ensures this.optional == optional && this.dep == dep && this.props == props
      ensures revDep == map[] && finalized == multiset{}
      ensures before == Before(l, root, dep, props) && record == Start(before, sym, promptAt, texts, optional)
      ensures Consistent()
    {
      this.l, this.sym, this.promptAt, this.texts, this.optional := l, sym, promptAt, texts, optional;
      this.dep, this.props, revDep, finalized := dep, props, map[], multiset{};
      before := Before(l, root, dep, props);
      record := Start(Before(l, root, dep, props), sym, promptAt, texts, optional);
    }

    /** The record is about this tree as it is now. */
    ghost predicate Consistent()
      reads this`l, this`dep, this`props, this`revDep, this`finalized, this`record
    {
      && record.before == before && record.sym == sym && record.prompts == promptAt && record.texts == texts
      && record.optional == optional && record.deps == dep && record.props == props && record.rev == revDep
      && record.parents == l.parent && forall i :: i in record.done <==> i in finalized
    }

    /** What menu_finalize and its loops need of the entries they are about to finalise. */
    ghost predicate Fresh(f: Forest)
      reads this`l, this`dep, this`props, this`revDep, this`finalized, this`record
    {
      Consistent() && Ready(before.links, before.root, record.inh.Keys, f)
    }

    ghost predicate Gained(r0: Record, f: Forest, rest: Forest)
      reads this`l, this`dep, this`props, this`revDep, this`finalized, this`record
    {
      Consistent() && Since(r0, f, record, rest)
    }

    function Props(i: Id): seq<MenuProp>
      reads this`props
    {
      PropsOf(props, i)
    }

    predicate HasPrompt(i: Id)
      reads this`props
    {
      Prompted(promptAt, props, i)
    }

    function PromptOrDep(i: Id): Option<Expr>
      reads this`props, this`dep
    {
      Condition(promptAt, dep, props, i)
    }

    predicate TwoValued(i: Id) { NotTri(sym, i) }

    method Rewrite(e: Option<Expr>) returns (r: Option<Expr>)
      ensures r == Simplified(e)
    {
      r := e;
      if e.Some? {
        var x := EliminateDups(e.value);
        r := Some(x);
      }
    }

    /**
     * The visibility of one property: the entry's condition in front, simplified, `!= n` dropped for a
     * two-valued symbol.
     */
    method RewriteProp(q: MenuProp, base: Option<Expr>, two: bool) returns (q': MenuProp)
      ensures Rewritten(base, two, q, q')
    {
      var d := Rewrite(Inherit(base, q.visible));
      q' := q.(visible := d);
      if two && d.Some? {
        q' := q.(visible := Some(TransBool(d.value)));
      }
    }

    /** The dependency loop: every child inherits the parent's condition, and so do its properties. */
    method Propagate(p: Id, ghost kids: Forest)
      requires Seg(l, kids, None) && Distinct(kids) && l.List(p) == First(kids, None)
      requires Consistent() && record.Known(p) && Parents(before.links, kids, p)
      requires p !in Ids(kids) && before.root !in Ids(kids) && Ids(kids) !! record.inh.Keys
      modifies this`dep, this`props, this`revDep, this`record
      ensures Consistent() && record.inh.Keys == old(record.inh.Keys) + TopSet(kids)
      ensures Kept(old(record), record) && record.log == old(record.log)
      ensures Spread(old(PromptOrDep(p)), sym, Tops(kids), |Tops(kids)|, old(dep), old(props), dep, props)
      ensures EntriesSelect(old(revDep), revDep, sym, Tops(kids), |Tops(kids)|, props)
    {
      PropagateLoop(p, kids);
      record := SpreadOver(record, p, kids, dep, props, revDep);
    }

    /** for (menu = parent->list; menu; menu = menu->next) */
    method PropagateLoop(p: Id, ghost kids: Forest)
      requires Seg(l, kids, None) && Distinct(kids) && l.List(p) == First(kids, None)
      modifies this`dep, this`props, this`revDep
      ensures Spread(old(PromptOrDep(p)), sym, Tops(kids), |Tops(kids)|, old(dep), old(props), dep, props)
      ensures EntriesSelect(old(revDep), revDep, sym, Tops(kids), |Tops(kids)|, props)
    {
      var parentdep := PromptOrDep(p);
      var menu := l.List(p);
      ghost var ids, n, todo := Tops(kids), 0, kids;
      TopsDiffer(kids);
      while menu.Some?
        invariant Seg(l, todo, None) && menu == First(todo, None)
        invariant n <= |ids| && ids[n..] == Tops(todo)
        invariant Spread(parentdep, sym, ids, n, old(dep), old(props), dep, props)
        invariant EntriesSelect(old(revDep), revDep, sym, ids, n, props)
        decreases todo
      {
        ghost var r, ds, ps := revDep, dep, props;
        assert todo.id == ids[n..][0] == ids[n];
        PropagateTo(menu.value, parentdep);
        SpreadStep(parentdep, sym, ids, n, old(dep), old(props), ds, ps, dep, props);
        EntriesStep(old(revDep), r, revDep, sym, ids, n, ps, props);
        assert ids[n + 1..] == ids[n..][1..];
        menu := l.Next(menu.value);
        todo, n := todo.rest, n + 1;
      }
      assert n == |ids|;
    }

    /** Its body: menu->dep, the visibility of the entry's properties, and the rev_dep of what they select. */
    method PropagateTo(m: Id, parentdep: Option<Expr>)
      modifies this`dep, this`props, this`revDep
      ensures Propagated(parentdep, TwoValued(m), m, old(dep), old(props), dep, props)
      ensures forall c | c != m :: DepOf(dep, c) == DepOf(old(dep), c) && PropsOf(props, c) == PropsOf(old(props), c)
      ensures m in sym ==> EntrySelects(old(revDep), revDep, sym[m], Props(m), |Props(m)|)
      ensures m !in sym ==> revDep == old(revDep)
    {
      var base := Rewrite(Inherit(parentdep, DepOf(dep, m)));
      dep := if base.Some? then dep[m := base.value] else dep - {m};
      var ps := RewriteProps(m, base, Props(m));
      props := props[m := ps];
    }

    /** for (; prop; prop = prop->next) over the properties that belong to the entry. */
    method RewriteProps(m: Id, base: Option<Expr>, ps0: seq<MenuProp>) returns (ps: seq<MenuProp>)
      modifies this`revDep
      ensures AllRewritten(base, TwoValued(m), ps0, ps)
      ensures m in sym ==> EntrySelects(old(revDep), revDep, sym[m], ps, |ps|)
      ensures m !in sym ==> revDep == old(revDep)
    {
      ps := ps0;
      var i := 0;
      while i < |ps|
        invariant 0 <= i <= |ps| == |ps0|
        invariant forall j | 0 <= j < i :: Rewritten(base, TwoValued(m), ps0[j], ps[j])
        invariant forall j | i <= j < |ps| :: ps[j] == ps0[j]
        invariant m in sym ==> EntrySelects(old(revDep), revDep, sym[m], ps, i)
        invariant m !in sym ==> revDep == old(revDep)
      {
        var q := RewriteProp(ps[i], base, TwoValued(m));
        if m in sym {
          SelectStep(old(revDep), revDep, sym[m], ps, i, q);
          revDep := AddSelect(revDep, sym[m], q);
        }
        ps := ps[i := q];
        i := i + 1;
      }
    }

    /** for (menu = parent->list; menu; menu = menu->next) menu_finalize(menu) */
    method FinalizeKids(p: Id, ghost kids: Forest) returns (ghost kids': Forest)
      requires Ordered(l, kids) && Parents(l, kids, p) && p !in Ids(kids) && l.List(p) == First(kids, None)
      requires Fresh(kids)
      modifies this
      ensures Ordered(l, kids') && Parents(l, kids', p) && l.List(p) == First(kids', None)
      ensures Pre(kids') == Pre(kids) && SameOutside(old(l), l, Ids(kids))
      ensures finalized == old(finalized) + Bag(kids') && ShownBelow(texts, kids')
      ensures Gained(old(record), kids, Nil)
      decreases Count(kids), 3
    {
      ghost var done, todo := Nil, kids;
      SinceNothing(before.links, before.root, record, kids);
      var menu := l.List(p);
      while menu.Some?
        invariant menu == First(todo, None) && Finalizing(old(l), l, texts, kids, done, todo, p)
        invariant finalized == old(finalized) + Bag(done)
        invariant Gained(old(record), kids, todo) && Fresh(todo)
        decreases Count(todo)
      {
        done, todo := FinalizeNext(p, menu.value, old(l), old(record), old(finalized), kids, done, todo);
        menu := l.Next(menu.value);
      }
      kids' := done;
      FinalizingEnd(old(l), l, texts, kids, done, p);
    }

    /** Its body: the entry at the front of what is to do, which may take over siblings behind it. */
    method FinalizeNext(p: Id, menu: Id, ghost l0: Links, ghost r0: Record, ghost f0: multiset<Id>,
        ghost kids: Forest, ghost done: Forest, ghost todo: Forest)
        returns (ghost done': Forest, ghost todo': Forest)
      requires todo.Cons? && menu == todo.id && Finalizing(l0, l, texts, kids, done, todo, p)
      requires finalized == f0 + Bag(done)
      requires Gained(r0, kids, todo) && Fresh(todo)
      modifies this
      ensures Finalizing(l0, l, texts, kids, done', todo', p) && finalized == f0 + Bag(done')
      ensures Gained(r0, kids, todo') && Fresh(todo')
      ensures l.Next(menu) == First(todo', None) && Count(todo') < Count(todo)
      decreases Count(todo), 2
    {
      ghost var l1, r1 := l, record;
      ParentsAreLevel(l, todo, p);
      ghost var k, r := Finalize(menu, todo.kids, todo.rest);
      FinalizingStep(l0, l1, l, texts, kids, done, todo, k, r, p);
      FinalizedOne(f0, done, menu, k);
      GainedStep(r0, kids, r1, todo, r);
      done', todo' := Append(done, One(menu, k)), r;
    }

    /** parent->prompt ? parent->prompt->visible.expr : NULL */
    function PromptOf(p: Id): Option<Expr>
      reads this`props
    {
      PromptCondition(promptAt, props, p)
    }

    /** The sibling `m` becomes a child of `p`. */
    predicate Takes(p: Id, m: Id)
      reads this`props, this`dep
    {
      p in sym && BelongsTo(PromptOrDep(m), sym[p], PromptOf(p))
    }

    lemma {:induction false} GainedStep(r0: Record, all: Forest, r1: Record, todo: Forest, rest: Forest)
      requires Since(r0, all, r1, todo) && Ready(before.links, before.root, r1.inh.Keys, todo)
      requires IsSuffix(rest, todo) && Gained(r1, todo, rest)
      ensures Gained(r0, all, rest) && Fresh(rest)
    {
      SinceTrans(r0, all, r1, todo, record, rest);
      SinceReady(before.links, before.root, r1, todo, record, rest);
    }

    /** The condition under which a following sibling becomes a child. */
    method Belongs(menu: Id, s: Symbol, basedep: Expr, ghost base: Option<Expr>) returns (ok: bool)
      requires basedep == Compared(base)
      ensures ok <==> BelongsTo(PromptOrDep(menu), s, base)
    {
      var d := PromptOrDep(menu);
      if d.None? || !ContainsSymbol(d.value, s) {
        return false;
      }
      if DependsSymbol(d.value, s) {
        return true;
      }
      var dep := EliminateDups(Transform(CompareNo(d.value, Unequal)));
      var (_, dep2) := EliminateEq(dep, basedep);
      ok := dep2 == E_YES;
    }

    /** An entry without children takes over the siblings after it, up to the first that does not belong to it. */
    method Adopt(p: Id, ghost sibs: Forest) returns (ghost kids: Forest, ghost rest: Forest)
      requires Ordered(l, Cons(p, Nil, sibs)) && Level(l, sibs, l.Parent(p)) && p in sym
      requires Fresh(sibs) && record.Known(p)
      requires before.links.List(p) == None && before.links.Next(p) == First(sibs, None)
      modifies this
      ensures Gained(old(record), sibs, rest) && p in record.stops
      ensures TookUpTo(before.links, record.log, p, First(rest, None))
      ensures AllAdopted(record.log, kids, p) && (rest.Cons? ==> !Takes(p, rest.id))
      ensures Reshaped(old(l), l, Cons(p, Nil, sibs), kids, rest)
      ensures finalized == old(finalized) + Bag(kids) && ShownBelow(texts, kids)
      decreases Count(sibs), 6
    {
      var base := PromptOf(p);
      var basedep := EliminateDups(Transform(CompareNoOpt(base, Unequal)));
      AdoptStart(l, p, sibs);
      var last;
      last, kids, rest := AdoptLoop(p, basedep, sibs);
      NoteStop(p, old(record), sibs, rest);
      TakeOver(p, last, old(l), old(record), sibs, kids, rest);
    }

    /** The record of what `p` took over is complete. */
    ghost method NoteStop(p: Id, r0: Record, sibs: Forest, rest: Forest)
      requires Fresh(rest) && record.Known(p) && TookUpTo(before.links, record.log, p, First(rest, None))
      requires p in sym && (rest.Cons? ==> !Takes(p, rest.id)) && Gained(r0, sibs, rest)
      modifies this`record
      ensures record == Stopped(old(record), p, First(rest, None)) && Gained(r0, sibs, rest)
    {
      var r1 := record;
      Stops(p, rest);
      record := Stopped(record, p, First(rest, None));
      SinceCounted(r0, sibs, r1, rest, record);
    }

    lemma {:induction false} Stops(p: Id, rest: Forest)
      requires Fresh(rest) && record.Known(p) && TookUpTo(before.links, record.log, p, First(rest, None))
      requires p in sym && (rest.Cons? ==> !Takes(p, rest.id))
      ensures StopsAt(record, p, First(rest, None))
    {}

    /** if (last_menu): the siblings up to that one become the list of `p`. */
    method TakeOver(p: Id, last: Option<Id>, ghost l0: Links, ghost r0: Record, ghost sibs: Forest, ghost kids: Forest,
        ghost rest: Forest)
      requires Adopting(l0, l, p, sibs, kids, rest) && last == if kids.Nil? then None else Some(Last(kids))
      requires Gained(r0, sibs, rest)
      modifies this`l
      ensures Reshaped(l0, l, Cons(p, Nil, sibs), kids, rest) && Gained(r0, sibs, rest)
    {
      ghost var l1 := l;
      if last.Some? {
        l := l.SetList(p, l.Next(p)).SetNext(p, l.Next(last.value)).SetNext(last.value, None);
        AdoptedAll(l0, l1, l, p, sibs, kids, rest);
      } else {
        AdoptedNone(l0, l, p, sibs, rest);
      }
    }

    /** for (menu = parent->next; menu; menu = menu->next) */
    method AdoptLoop(p: Id, basedep: Expr, ghost sibs: Forest)
        returns (last: Option<Id>, ghost kids: Forest, ghost rest: Forest)
      requires Adopting(l, l, p, sibs, Nil, sibs) && p in sym && basedep == Compared(PromptOf(p))
      requires Fresh(sibs) && record.Known(p)
      requires before.links.List(p) == None && before.links.Next(p) == First(sibs, None)
      modifies this
      ensures Adopting(old(l), l, p, sibs, kids, rest)
      ensures TookUpTo(before.links, record.log, p, First(rest, None)) && record.Known(p) && Fresh(rest)
      ensures last == if kids.Nil? then None else Some(Last(kids))
      ensures finalized == old(finalized) + Bag(kids) && ShownBelow(texts, kids)
      ensures AllAdopted(record.log, kids, p) && (rest.Cons? ==> !Takes(p, rest.id))
      ensures Gained(old(record), sibs, rest)
      decreases Count(sibs), 5
    {
      kids, rest := Nil, sibs;
      AdoptingNext(l, l, p, sibs, kids, rest);
      SinceNothing(before.links, before.root, record, sibs);
      TookNothing(before.links, record.log, p);
      var menu := l.Next(p);
      last := None;
      while menu.Some?
        invariant menu == First(rest, None) && Adopting(old(l), l, p, sibs, kids, rest)
        invariant last == if kids.Nil? then None else Some(Last(kids))
        invariant finalized == old(finalized) + Bag(kids) && ShownBelow(texts, kids)
        invariant AllAdopted(record.log, kids, p) && record.Known(p) && basedep == Compared(PromptOf(p))
        invariant Gained(old(record), sibs, rest) && Fresh(rest)
        invariant TookUpTo(before.links, record.log, p, First(rest, None))
        decreases Count(rest)
      {
        var m := menu.value;
        var ok := Belongs(m, sym[p], basedep, PromptOf(p));
        if !ok {
          break;
        }
        ghost var r1, todo := record, rest;
        kids, rest := AdoptOne(p, m, old(l), old(finalized), sibs, kids, rest);
        GainedStep(old(record), sibs, r1, todo, rest);
        last := Some(m);
        menu := l.Next(m);
      }
    }

    /** Its body for a sibling that belongs below `p`: menu_finalize(menu); menu->parent = parent. */
    method AdoptOne(p: Id, m: Id, ghost l0: Links, ghost f0: multiset<Id>, ghost sibs: Forest, ghost kids: Forest,
        ghost rest: Forest)
        returns (ghost kids': Forest, ghost rest': Forest)
      requires rest.Cons? && m == rest.id && Adopting(l0, l, p, sibs, kids, rest)
      requires finalized == f0 + Bag(kids) && ShownBelow(texts, kids)
      requires AllAdopted(record.log, kids, p) && Takes(p, m)
      requires Fresh(rest) && record.Known(p) && before.links.List(p) == None
      requires TookUpTo(before.links, record.log, p, Some(m))
      modifies this
      ensures TookUpTo(before.links, record.log, p, First(rest', None))
      ensures Adopting(l0, l, p, sibs, kids', rest') && Count(rest') < Count(rest)
      ensures kids'.Cons? && Last(kids') == rest.id && l.Next(rest.id) == First(rest', None)
      ensures finalized == f0 + Bag(kids') && ShownBelow(texts, kids')
      ensures AllAdopted(record.log, kids', p) && record.Known(p) && PromptOf(p) == old(PromptOf(p))
      ensures Gained(old(record), rest, rest') && IsSuffix(rest', rest)
      decreases Count(rest), 4
    {
      AdoptingNext(l0, l, p, sibs, kids, rest);
      ghost var log := record.log;
      ghost var k, r, mid := FinalizeAndPut(p, m, rest);
      TookMore(before.links, log, record.log, p, Some(m));
      TookOne(before.links, record.log, p, m, First(r, None));
      AdoptedOne(l0, old(l), mid, l, p, sibs, kids, rest, k, r);
      AdoptedMeans(f0, old(record.log), record.log, kids, m, k, p);
      kids', rest' := Append(kids, One(m, k)), r;
    }

    /** The two statements, with the links between them. */
    method FinalizeAndPut(p: Id, m: Id, ghost rest: Forest) returns (ghost k: Forest, ghost r: Forest, ghost mid: Links)
      requires rest.Cons? && m == rest.id && Ordered(l, rest) && Fresh(rest) && record.Known(p) && Takes(p, m)
      requires Level(l, rest, l.Parent(p)) && p !in Ids(rest) && before.links.List(p) == None
      modifies this
      ensures Reshaped(old(l), mid, rest, k, r) && l == mid.SetParent(m, p)
      ensures TookUpTo(before.links, record.log, m, First(r, None))
      ensures finalized == old(finalized) + (multiset{m} + Bag(k)) && Shown(texts, k)
      ensures old(record.log) <= record.log && Adopted(record.log, m, p)
      ensures record.Known(p) && PromptOf(p) == old(PromptOf(p))
      ensures Gained(old(record), rest, r)
      decreases Count(rest), 3
    {
      k, r := FinalizeSibling(p, m, rest);
      mid := l;
      ghost var r1 := record;
      PutUnder(m, p);
      TookMore(before.links, r1.log, record.log, m, First(r, None));
      SinceMoved(old(record), rest, r1, r, record);
    }

    /** The first of them: the sibling still belongs below `p` afterwards. */
    method FinalizeSibling(p: Id, m: Id, ghost rest: Forest) returns (ghost k: Forest, ghost r: Forest)
      requires rest.Cons? && m == rest.id && Ordered(l, rest) && Fresh(rest) && record.Known(p) && Takes(p, m)
      requires Level(l, rest, l.Parent(p)) && p !in Ids(rest) && before.links.List(p) == None
      modifies this
      ensures Reshaped(old(l), l, rest, k, r) && l.Parent(m) == l.Parent(p)
      ensures TookUpTo(before.links, record.log, m, First(r, None))
      ensures finalized == old(finalized) + (multiset{m} + Bag(k)) && Shown(texts, k)
      ensures old(record.log) <= record.log && record.Allowed(Adoption(m, p))
      ensures record.Known(p) && PromptOf(p) == old(PromptOf(p))
      ensures Gained(old(record), rest, r)
      decreases Count(rest), 2
    {
      k, r := Finalize(m, rest.kids, rest.rest);
      ReshapedMeans(old(l), l, rest, k, r);
      FinalizedIds(rest, k, r);
      AdoptedKnown(old(record), rest, record, r, p, m);
    }

    /** menu->parent = parent, for an entry that belongs there. */
    method PutUnder(m: Id, p: Id)
      requires Consistent() && record.Allowed(Adoption(m, p)) && m != p && l.Parent(m) == l.Parent(p)
      modifies this`l, this`record
      ensures Consistent() && l == old(l).SetParent(m, p) && OnlyMoved(old(record), record) && Adopted(record.log, m, p)
    {
      record := Moved(record, Adoption(m, p));
      l := l.SetParent(m, p);
    }

    /** Both entries still belong together after the sibling was finalised. */
    lemma {:induction false} AdoptedKnown(r0: Record, rest: Forest, r1: Record, r: Forest, p: Id, m: Id)
      requires Since(r0, rest, r1, r) && r0.Known(p) && r0.Known(m) && r0.Takes(p, m) && r0.TakesOver(p)
      ensures r1.Allowed(Adoption(m, p)) && r1.PromptCond(p) == r0.PromptCond(p) && r0.log <= r1.log
    {
      SinceKeeps(r0, rest, r1, r, p);
      SinceKeeps(r0, rest, r1, r, m);
      SinceMeans(r0, rest, r1, r);
    }

    /** What was counted and logged for the children of `p` goes on to hold with the new one. */
    lemma {:induction false} AdoptedMeans(f0: multiset<Id>, log: seq<Move>, log': seq<Move>, kids: Forest, m: Id,
        k: Forest, p: Id)
      requires log <= log' && AllAdopted(log, kids, p) && Adopted(log', m, p)
      requires ShownBelow(texts, kids) && Shown(texts, k)
      ensures var kids' := Append(kids, One(m, k));
        && AllAdopted(log', kids', p) && ShownBelow(texts, kids')
        && f0 + Bag(kids') == f0 + Bag(kids) + (multiset{m} + Bag(k))
    {
      FinalizedOne(f0, kids, m, k);
      ShownOne(texts, kids, m, k);
      AdoptedMore(log, log', kids, m, k, p);
    }

    /** Children of entries without a prompt move up one level, behind their old parent. */
    method Flatten(p: Id, ghost kids: Forest) returns (ghost kids': Forest)
      requires Ordered(l, kids) && Parents(l, kids, p) && p !in Ids(kids) && l.List(p) == First(kids, None)
      requires Consistent()
      modifies this`l, this`record
      ensures Consistent() && OnlyMoved(old(record), record)
      ensures Ordered(l, kids') && Parents(l, kids', p) && l.List(p) == First(kids', None)
      ensures Pre(kids') == Pre(kids) && SameOutside(old(l), l, Ids(kids))
      ensures kids' == Flattened(texts, kids)
    {
      ghost var done, todo := Nil, kids;
      var menu := l.List(p);
      while menu.Some?
        invariant menu == First(todo, None) && Flattening(old(l), l, texts, kids, done, todo, p)
        invariant Consistent() && OnlyMoved(old(record), record)
        decreases Count(todo)
      {
        var m := menu.value;
        if l.List(m).Some? && m !in texts {
          RaiseKids(p, m, old(l), kids, done, todo);
          done, todo := Append(done, One(m, Nil)), Append(todo.kids, todo.rest);
        } else {
          FlatteningStays(old(l), l, texts, kids, done, todo, p);
          done, todo := Append(done, One(m, todo.kids)), todo.rest;
        }
        menu := l.Next(m);
      }
      kids' := done;
      FlatteningEnd(old(l), l, texts, kids, done, p);
    }

    /** The children of the entry `m` become its next siblings. */
    method RaiseKids(p: Id, m: Id, ghost l0: Links, ghost all: Forest, ghost done: Forest, ghost todo: Forest)
      requires Flattening(l0, l, texts, all, done, todo, p) && todo.Cons? && todo.id == m && todo.kids.Cons?
      requires m !in texts
      requires Consistent()
      modifies this`l, this`record
      ensures Consistent() && OnlyMoved(old(record), record)
      ensures var done', todo' := Append(done, One(m, Nil)), Append(todo.kids, todo.rest);
        Flattening(l0, l, texts, all, done', todo', p) && l.Next(m) == First(todo', None) && Count(todo') < Count(todo)
    {
      var last := Reparent(p, m, todo.kids);
      ghost var mid := l;
      l := l.SetNext(last, l.Next(m)).SetNext(m, l.List(m)).SetList(m, None);
      FlatteningRaises(l0, old(l), mid, l, texts, all, done, todo, p);
    }

    /** last_menu->parent = parent, for a child of an entry without a prompt text. */
    method RaiseOver(c: Id, m: Id, p: Id)
      requires Consistent() && m !in texts && l.Parent(c) == Some(m) && l.Parent(m) == Some(p)
      modifies this`l, this`record
      ensures Consistent() && l == old(l).SetParent(c, p) && OnlyMoved(old(record), record)
    {
      record := Moved(record, Raise(c, m, p));
      l := l.SetParent(c, p);
    }

    /** The inner loop: every child gets the new parent; the last one is returned. */
    method Reparent(p: Id, m: Id, ghost kids: Forest) returns (last: Id)
      requires Seg(l, kids, None) && Distinct(kids) && Parents(l, kids, m) && l.List(m) == First(kids, None)
      requires kids.Cons? && l.Parent(m) == Some(p) && m !in Ids(kids)
      requires Consistent() && m !in texts
      modifies this`l, this`record
      ensures Consistent() && OnlyMoved(old(record), record)
      ensures Seg(l, kids, None) && last == Last(kids) && Raised(old(l), l, kids, p)
    {
      last := l.List(m).value;
      ghost var done, todo := Nil, kids;
      while true
        invariant todo.Cons? && last == todo.id && Append(done, todo) == kids
        invariant Seg(l, todo, None) && Distinct(todo) && Distinct(done)
        invariant Ids(done) !! Ids(todo) && Ids(done) + Ids(todo) == Ids(kids)
        invariant Parents(l, done, p) && Parents(l, todo, m) && Last(todo) == Last(kids)
        invariant l.next == old(l).next && l.list == old(l).list
        invariant forall i | i !in Ids(kids) :: l.Parent(i) == old(l).Parent(i)
        invariant Consistent() && OnlyMoved(old(record), record)
        decreases todo
      {
        ghost var l1 := l;
        RaiseOver(last, m, p);
        ReparentedOne(l1, l, done, todo, m, p);
        AppendStep(done, todo);
        FinalizedEntries(done, todo, todo.kids, todo.rest);
        done := Append(done, One(last, todo.kids));
        if l.Next(last).None? {
          break;
        }
        last, todo := l.Next(last).value, todo.rest;
      }
      SegFrame(old(l), l, kids, None);
    }

    /**
     * menu_finalize on the entry `p` with its children and the siblings after it.  The declaration order
     * of all entries is kept, every entry that ends up in its subtree was finalised exactly once and
     * names the entry whose list it is in as its parent, and the siblings left over are untouched.
     */
    method Finalize(p: Id, ghost kids: Forest, ghost sibs: Forest) returns (ghost kids': Forest, ghost sibs': Forest)
      requires Ordered(l, Cons(p, kids, sibs)) && Level(l, sibs, l.Parent(p))
      requires Fresh(Cons(p, kids, sibs))
      modifies this
      ensures kids.Nil? && p in sym && sibs'.Cons? ==> !Takes(p, sibs'.id)
      ensures TookUpTo(before.links, record.log, p, First(sibs', None))
      ensures Reshaped(old(l), l, Cons(p, kids, sibs), kids', sibs')
      ensures finalized == old(finalized) + (multiset{p} + Bag(kids')) && Shown(texts, kids')
      ensures Gained(old(record), Cons(p, kids, sibs), sibs')
      decreases Count(Cons(p, kids, sibs)), 1
    {
      ghost var inner;
      inner, sibs' := Gather(p, kids, sibs);
      ghost var l1 := l;
      ReshapedMeans(old(l), l, Cons(p, kids, sibs), inner, sibs');
      kids' := FlattenAndFinish(p, old(record), Cons(p, kids, sibs), inner, sibs');
      ReshapedTwice(old(l), l1, l, p, kids, sibs, inner, sibs', kids');
      FinalizedSelf(old(finalized), p, inner, kids');
    }

    /** The second half of menu_finalize. */
    method FlattenAndFinish(p: Id, ghost r0: Record, ghost f: Forest, ghost kids: Forest, ghost sibs: Forest)
        returns (ghost kids': Forest)
      requires Ordered(l, Cons(p, kids, sibs)) && ShownBelow(texts, kids)
      requires Gained(r0, f, sibs) && TookUpTo(before.links, record.log, p, First(sibs, None))
      requires record.Known(p) && (record.TakesOver(p) ==> p in record.stops)
      modifies this`l, this`revDep, this`finalized, this`record
      ensures Gained(r0, f, sibs) && TookUpTo(before.links, record.log, p, First(sibs, None))
      ensures Reshaped(old(l), l, Cons(p, kids, sibs), kids', sibs)
      ensures Ids(kids') == Ids(kids) && Bag(kids') == Bag(kids) && Shown(texts, kids')
      ensures finalized == old(finalized) + multiset{p}
    {
      kids' := FlattenBefore(p, kids, sibs);
      TookMore(before.links, old(record.log), record.log, p, First(sibs, None));
      SinceMoved(r0, f, old(record), sibs, record);
      ghost var r1 := record;
      Finish(p);
      SinceCounted(r0, f, r1, sibs, record);
    }

    /** The loop that flattens, with the siblings after `p` in view. */
    method FlattenBefore(p: Id, ghost kids: Forest, ghost sibs: Forest) returns (ghost kids': Forest)
      requires Ordered(l, Cons(p, kids, sibs)) && ShownBelow(texts, kids) && Consistent()
      modifies this`l, this`record
      ensures Consistent() && OnlyMoved(old(record), record)
      ensures Reshaped(old(l), l, Cons(p, kids, sibs), kids', sibs)
      ensures Ids(kids') == Ids(kids) && Bag(kids') == Bag(kids) && Shown(texts, kids')
    {
      ParentsGiveKids(l, kids, p);
      kids' := Flatten(p, kids);
      FlattenedIsShown(texts, kids);
      KidsReplaced(old(l), l, p, kids, kids', sibs);
    }

    /** The first half of menu_finalize, which finalises the children that the entry has or takes over. */
    method Gather(p: Id, ghost kids: Forest, ghost sibs: Forest) returns (ghost kids': Forest, ghost sibs': Forest)
      requires Ordered(l, Cons(p, kids, sibs)) && Level(l, sibs, l.Parent(p))
      requires Fresh(Cons(p, kids, sibs))
      modifies this
      ensures TookUpTo(before.links, record.log, p, First(sibs', None))
      ensures record.Known(p) && (record.TakesOver(p) ==> p in record.stops)
      ensures kids.Nil? && p in sym ==> AllAdopted(record.log, kids', p) && (sibs'.Cons? ==> !Takes(p, sibs'.id))
      ensures Reshaped(old(l), l, Cons(p, kids, sibs), kids', sibs')
      ensures finalized == old(finalized) + Bag(kids') && ShownBelow(texts, kids')
      ensures Gained(old(record), Cons(p, kids, sibs), sibs')
      decreases Count(Cons(p, kids, sibs)), 0
    {
      assert before.links.List(p) == First(kids, None) && before.links.Next(p) == First(sibs, None);
      if l.List(p).Some? {
        sibs' := sibs;
        kids' := GatherOwn(p, kids, sibs);
        TookNothing(before.links, record.log, p);
      } else {
        LeafProgress(before.links, before.root, record.inh.Keys, p, sibs);
        SinceNothing(before.links, before.root, record, sibs);
        if p in sym {
          kids', sibs' := Adopt(p, sibs);
        } else {
          kids', sibs' := kids, sibs;
          ReshapedNothing(l, p, kids, sibs);
          TookNothing(before.links, record.log, p);
        }
        SinceLeaf(old(record), p, sibs, record, sibs');
      }
      SinceKeeps(old(record), Cons(p, kids, sibs), record, sibs', p);
    }

    /** if (parent->list): the condition is spread over the list, and its entries are finalised. */
    method GatherOwn(p: Id, ghost kids: Forest, ghost sibs: Forest) returns (ghost kids': Forest)
      requires Ordered(l, Cons(p, kids, sibs)) && Fresh(Cons(p, kids, sibs))
      modifies this
      ensures Reshaped(old(l), l, Cons(p, kids, sibs), kids', sibs)
      ensures finalized == old(finalized) + Bag(kids') && ShownBelow(texts, kids')
      ensures Gained(old(record), Cons(p, kids, sibs), sibs)
      decreases Count(kids), 5
    {
      ParentsGiveKids(l, kids, p);
      kids' := SpreadAndFinalize(p, kids, sibs);
      KidsReplaced(old(l), l, p, kids, kids', sibs);
    }

    /** Its two loops. */
    method SpreadAndFinalize(p: Id, ghost kids: Forest, ghost sibs: Forest) returns (ghost kids': Forest)
      requires Ordered(l, kids) && Parents(l, kids, p) && Distinct(Cons(p, kids, sibs))
      requires l.List(p) == First(kids, None)
      requires Fresh(Cons(p, kids, sibs))
      modifies this
      ensures Ordered(l, kids') && Parents(l, kids', p) && l.List(p) == First(kids', None)
      ensures Pre(kids') == Pre(kids) && SameOutside(old(l), l, Ids(kids))
      ensures finalized == old(finalized) + Bag(kids') && ShownBelow(texts, kids')
      ensures Gained(old(record), Cons(p, kids, sibs), sibs)
      decreases Count(kids), 4
    {
      SpreadReady(before.links, before.root, record.inh.Keys, p, kids, sibs);
      Propagate(p, kids);
      ghost var r1 := record;
      kids' := FinalizeKids(p, kids);
      SinceSpread(before.links, before.root, old(record), r1, p, kids, sibs, record);
    }

    /** The last lines, which finish the entry. */
    method Finish(p: Id)
      requires Consistent() && record.Known(p) && (record.TakesOver(p) ==> p in record.stops)
      modifies this`revDep, this`finalized, this`record
      ensures Consistent() && OnlyCounted(old(record), record)
      ensures finalized == old(finalized) + multiset{p}
    {
      SelectByPrompt(p);
      finalized := finalized + multiset{p};
      record := Counted(record, p, revDep);
    }

    /** A visible prompt selects its symbol to m, which a boolean symbol takes as y. */
    method SelectByPrompt(p: Id)
      modifies this`revDep
      ensures p in sym && sym[p] !in optional && HasPrompt(p) ==>
        forall t: Symbol, env: Env | env.Valid() :: RevValue(revDep, t, env) ==
          if t == sym[p] then Max(RevValue(old(revDep), t, env), Min(CalcOpt(Props(p)[promptAt[p]].visible, env), MOD))
          else RevValue(old(revDep), t, env)
      ensures !(p in sym && sym[p] !in optional && HasPrompt(p)) ==> revDep == old(revDep)
    {
      if p in sym && sym[p] !in optional && HasPrompt(p) {
        var s, v := sym[p], Props(p)[promptAt[p]].visible;
        var r := AllocOr(if s in revDep then Some(revDep[s]) else None, AllocAnd(v, Some(Leaf(SYM_MOD))));
        revDep := revDep[s := r.value];
        forall env: Env | env.Valid()
          ensures Calc(AllocAnd(v, Some(Leaf(SYM_MOD))).value, env) == Min(CalcOpt(v, env), MOD)
        {}
      }
    }

    /** Why an entry was moved, in terms of the conditions that are left in the end. */
    ghost predicate Explained(m: Move)
      reads this`props, this`dep
    {
      match m
      case Raise(_, over, _) => over !in texts
      case Adoption(c, to) =>
        && Takes(to, c)
        && var base := if to in promptAt && promptAt[to] < |Props(to)| then Props(to)[promptAt[to]].visible else None;
        && var d :=
             if c in promptAt && promptAt[c] < |Props(c)| then Props(c)[promptAt[c]].visible else DepOf(dep, c);
        && (Usable(d) && Usable(base) && (sym[to].Type() == Boolean || sym[to].Type() == Tri) ==>
             forall env: Env | env.Valid() :: OutOfReach(d, sym[to], base, env))
    }

    /**
     * What the conditions of an entry are in the end: its own declared one together with the final one of the
     * entry it was declared below, and each property's declared one together with that.
     */
    ghost predicate Conjoined(c: Id, env: Env)
      reads this`props, this`dep
    {
      && before.links.Parent(c).Some?
      && var p := before.links.Parent(c).value;
      && var cond :=
           if p in promptAt && promptAt[p] < |Props(p)| then Props(p)[promptAt[p]].visible else DepOf(dep, p);
      && CalcOpt(DepOf(dep, c), env) == Together(cond, DepOf(before.deps, c), env)
      && |Props(c)| == |PropsOf(before.props, c)|
      && forall j | 0 <= j < |Props(c)| :: PropConjoined(c, j, env)
    }

    ghost predicate PropConjoined(c: Id, j: nat, env: Env)
      requires j < |Props(c)| == |PropsOf(before.props, c)|
      reads this`props, this`dep
    {
      var (q0, q) := (PropsOf(before.props, c)[j], Props(c)[j]);
      var together := Together(DepOf(dep, c), q0.visible, env);
      && q.select == q0.select
      && if c in sym && sym[c].Type() != Tri
         then NotsOpt(DepOf(dep, c)) ==> (CalcOpt(q.visible, env) == NO <==> together == NO)
         else CalcOpt(q.visible, env) == together
    }

    /** Every entry's condition is its own combined with the final one of the entry it was declared below. */
    ghost predicate Combined(kids: Forest)
      reads this`dep, this`props, this`record
    {
      && record.inh.Keys == Ids(kids)
      && (forall c | c in Ids(kids) :: Inherits(before, sym, promptAt, Ids(kids), c, record.inh[c], dep, props))
      && (forall c, env: Env | c in Ids(kids) && env.Valid() :: Conjoined(c, env))
      && (NotsOpt(PromptOrDep(before.root)) ==> forall c | c in Ids(kids) :: NotsOpt(DepOf(dep, c)))
    }

    /** Every new parent comes from an explained move that fits the pointers of its time. */
    ghost predicate Moves()
      reads this`l, this`dep, this`props, this`record
    {
      && (forall c :: l.Parent(c) == Replay(before.links, record.log, c))
      && (forall i | 0 <= i < |record.log| :: Explained(record.log[i]))
      && (forall i | 0 <= i < |record.log| :: Fits(before.links, record.log[..i], record.log[i]))
    }

    /** Whoever takes siblings over left the first that does not belong to it. */
    ghost predicate NothingLeft(kids: Forest)
      reads this`dep, this`props, this`record
    {
      forall p | p in Ids(kids) + {before.root} && p in sym && before.links.List(p) == None ::
        exists end: Option<Id> :: Left(p, end)
    }

    ghost predicate Left(p: Id, end: Option<Id>)
      reads this`dep, this`props, this`record
    {
      TookUpTo(before.links, record.log, p, end) && (end.Some? ==> !Takes(p, end.value))
    }

    /** Property `j` of the entry selects `t`. */
    predicate HasSelect(c: Id, j: nat, t: Symbol)
      reads this`props
    {
      c in sym && j < |Props(c)| && Props(c)[j].select == Some(t)
    }

    /** The entry has a prompt for `t`, which is not optional. */
    predicate HasPromptFor(c: Id, t: Symbol)
      reads this`props
    {
      c in sym && sym[c] == t && t !in optional && c in promptAt && promptAt[c] < |Props(c)|
    }

    /**
     * `v` is the strongest of what the entries of a tree make of `t`: a select is worth its own symbol and its
     * condition together, a prompt its condition, but no more than m.
     */
    ghost predicate Strongest(kids: Forest, t: Symbol, env: Env, v: Tristate)
      reads this`props
    {
      && (forall c, j: nat | c in Ids(kids) && HasSelect(c, j, t) ::
            Min(env.tri(sym[c]), CalcOpt(Props(c)[j].visible, env)) <= v)
      && (forall c | c in Ids(kids) + {before.root} && HasPromptFor(c, t) ::
            Min(CalcOpt(Props(c)[promptAt[c]].visible, env), MOD) <= v)
      && (|| v == NO
          || (exists c, j: nat :: c in Ids(kids) && HasSelect(c, j, t) &&
                Min(env.tri(sym[c]), CalcOpt(Props(c)[j].visible, env)) == v)
          || (exists c :: c in Ids(kids) + {before.root} && HasPromptFor(c, t) &&
                Min(CalcOpt(Props(c)[promptAt[c]].visible, env), MOD) == v))
    }

    /** What selects a symbol is the strongest of all entries' selects and prompts. */
    ghost predicate Selected(kids: Forest)
      reads this`props, this`revDep
    {
      forall t: Symbol, env: Env | env.Valid() ::
        Strongest(kids, t, env, if t in revDep then Calc(revDep[t], env) else NO)
    }

    ghost predicate Accounted(kids: Forest)
      reads this
    {
      Combined(kids) && Moves() && NothingLeft(kids) && Selected(kids)
    }

    /**
     * menu_finalize(&rootmenu) and then the walk of conf_write.  Every entry was finalised exactly once,
     * the walk meets every entry exactly once, in the order of declaration, only entries with a
     * prompt text are left with children, and every entry has its own condition combined with the final
     * condition of the entry it was declared below.  The parent pointers are those that the logged moves
     * make of the declared ones: an entry was taken over by one it belongs to, by their final conditions,
     * or raised over one without a prompt text; and whoever was taken over is out of reach with its parent.
     * Nothing that belongs was left, and every symbol is selected by exactly what selects it.
     */
    method FinalizeThenWalk(root: Id, ghost kids: Forest) returns (visited: seq<Id>, ghost kids': Forest)
      requires Ordered(l, One(root, kids)) && l.Parent(root) == None
      requires Consistent() && record == Start(before, sym, promptAt, texts, optional)
      requires root == before.root && l == before.links
      modifies this
      ensures Accounted(kids)
      ensures Ordered(l, One(root, kids')) && l.Parent(root) == None
      ensures visited == Pre(kids) == Pre(kids') && forall i | i in visited :: multiset(visited)[i] == 1
      ensures finalized == old(finalized) + multiset([root] + visited)
      ensures Shown(texts, kids')
    {
      ghost var sibs;
      RootReady(l, root, kids);
      kids', sibs := Finalize(root, kids, Nil);
      ReshapedMeans(old(l), l, Cons(root, kids, Nil), kids', sibs);
      RootOrder(root, kids, kids');
      assert old(finalized) == multiset{};
      FinalRecord(old(record), kids);
      visited := Walk(l, root, kids');
    }

    lemma {:induction false} FinalRecord(r0: Record, kids: Forest)
      requires Gained(r0, Cons(before.root, kids, Nil), Nil) && r0.inh == map[]
      requires finalized == multiset([before.root] + Pre(kids)) && Parents(before.links, kids, before.root)
      ensures Accounted(kids)
    {
      FinalKeys(r0, kids);
      RecordIsTrue(record);
      FinalConditions(kids);
      FinalMoves();
      FinalStops(kids);
      FinalSelects(kids);
    }

    lemma {:induction false} FinalKeys(r0: Record, kids: Forest)
      requires Gained(r0, Cons(before.root, kids, Nil), Nil) && r0.inh == map[]
      requires finalized == multiset([before.root] + Pre(kids))
      ensures record.inh.Keys == Ids(kids) && record.done == Ids(kids) + {before.root}
    {
      SinceRoot(r0, before.root, kids, record);
      IdsArePre(kids);
    }

    lemma {:induction false} FinalConditions(kids: Forest)
      requires record.inh.Keys == Ids(kids) && Parents(before.links, kids, before.root)
      requires forall c | c in Ids(kids) :: Inherits(before, sym, promptAt, Ids(kids), c, record.inh[c], dep, props)
      ensures Combined(kids)
    {
      forall c, env: Env | c in Ids(kids) && env.Valid() ensures Conjoined(c, env) {
        InheritsMeans(c, Ids(kids), record.inh[c], env);
      }
      if NotsOpt(PromptOrDep(before.root)) {
        FinalNots(kids, before.root, Ids(kids));
      }
    }

    lemma {:induction false} InheritsMeans(c: Id, keys: set<Id>, cond: Option<Expr>, env: Env)
      requires Inherits(before, sym, promptAt, keys, c, cond, dep, props) && env.Valid()
      ensures Conjoined(c, env)
    {
      TogetherValue(cond, DepOf(before.deps, c), env);
      forall j: nat | j < |Props(c)| ensures PropConjoined(c, j, env) {
        var q0 := PropsOf(before.props, c)[j];
        assert Rewritten(DepOf(dep, c), NotTri(sym, c), q0, Props(c)[j]);
        NewVisibleValue(DepOf(dep, c), q0.visible, env);
      }
    }

    /** Where NOT stands only above symbols in the condition of `p`, it does so in all conditions below. */
    lemma {:induction false} FinalNots(f: Forest, p: Id, keys: set<Id>)
      requires Parents(before.links, f, p) && NotsOpt(PromptOrDep(p)) && Ids(f) <= keys <= record.inh.Keys
      requires forall c | c in Ids(f) :: Inherits(before, sym, promptAt, keys, c, record.inh[c], dep, props)
      ensures forall c | c in Ids(f) :: NotsOpt(DepOf(dep, c))
    {
      if f.Cons? {
        var c := f.id;
        assert Inherits(before, sym, promptAt, keys, c, record.inh[c], dep, props);
        SimplifiedNots(PromptOrDep(p), DepOf(before.deps, c));
        if HasPrompt(c) {
          var q0 := PropsOf(before.props, c)[promptAt[c]];
          assert Rewritten(DepOf(dep, c), NotTri(sym, c), q0, Props(c)[promptAt[c]]);
          SimplifiedNots(DepOf(dep, c), q0.visible);
        }
        FinalNots(f.kids, c, keys);
        FinalNots(f.rest, p, keys);
      }
    }

    lemma {:induction false} FinalSelects(kids: Forest)
      requires Consistent() && AllRev(record)
      requires record.inh.Keys == Ids(kids) && record.done == Ids(kids) + {before.root}
      ensures Selected(kids)
    {
      forall t: Symbol, env: Env | env.Valid()
        ensures Strongest(kids, t, env, if t in revDep then Calc(revDep[t], env) else NO)
      {
        assert RevIs(record, t, env);
        RevMeans(kids, t, env);
      }
    }

    lemma {:induction false} RevMeans(kids: Forest, t: Symbol, env: Env)
      requires record.sym == sym && record.prompts == promptAt && record.optional == optional
      requires record.props == props && record.rev == revDep
      requires record.inh.Keys == Ids(kids) && record.done == Ids(kids) + {before.root} && RevIs(record, t, env)
      ensures Strongest(kids, t, env, RevValue(revDep, t, env))
    {
      var v := RevValue(revDep, t, env);
      forall c | c in Ids(kids) && c in sym
        ensures forall j: nat | HasSelect(c, j, t) :: Min(env.tri(sym[c]), CalcOpt(Props(c)[j].visible, env)) <= v
      {
        StrongestProp(sym[c], Props(c), |Props(c)|, t, env);
        assert record.EntrySelectsBy(c, t, env) <= v;
      }
      forall c | c in Ids(kids) + {before.root} && HasPromptFor(c, t)
        ensures Min(CalcOpt(Props(c)[promptAt[c]].visible, env), MOD) <= v
      {
        assert record.PromptSelects(c, t, env) <= v;
      }
      if v != NO {
        if c :| c in record.inh && record.EntrySelectsBy(c, t, env) == v {
          StrongestProp(sym[c], Props(c), |Props(c)|, t, env);
          var j :| 0 <= j < |Props(c)| && Props(c)[j].select == Some(t)
            && Min(env.tri(sym[c]), CalcOpt(Props(c)[j].visible, env)) == v;
          var j': nat := j;
          assert c in Ids(kids) && HasSelect(c, j', t) && Min(env.tri(sym[c]), CalcOpt(Props(c)[j'].visible, env)) == v;
        } else {
          var c :| c in record.done && record.PromptSelects(c, t, env) == v;
          assert c in Ids(kids) + {before.root} && HasPromptFor(c, t)
            && Min(CalcOpt(Props(c)[promptAt[c]].visible, env), MOD) == v;
        }
      }
    }

    lemma {:induction false} FinalMoves()
      requires Consistent() && Replayed(record) && AllAllowed(record) && AllFit(record)
      ensures Moves()
    {
      forall c: Id ensures l.Parent(c) == Replay(before.links, record.log, c) {
        assert record.Parent(c) == l.Parent(c);
      }
      forall i | 0 <= i < |record.log| ensures Explained(record.log[i]) {
        assert record.Allowed(record.log[i]);
        if record.log[i].Adoption? {
          AdoptionExplained(record.log[i].child, record.log[i].to);
        }
      }
    }

    lemma {:induction false} FinalStops(kids: Forest)
      requires Consistent() && AllStop(record) && record.done == Ids(kids) + {before.root}
      ensures NothingLeft(kids)
    {
      forall p | p in Ids(kids) + {before.root} && p in sym && before.links.List(p) == None
        ensures exists end: Option<Id> :: Left(p, end)
      {
        assert StopsAt(record, p, record.stops[p]);
        assert Left(p, record.stops[p]);
      }
    }

    lemma {:induction false} AdoptionExplained(c: Id, to: Id)
      requires Takes(to, c)
      ensures Explained(Adoption(c, to))
    {
      forall env: Env |
        env.Valid() && Usable(PromptOrDep(c)) && Usable(PromptOf(to)) &&
        (sym[to].Type() == Boolean || sym[to].Type() == Tri)
        ensures OutOfReach(PromptOrDep(c), sym[to], PromptOf(to), env)
      {
        AdoptionIsSound(PromptOrDep(c), sym[to], PromptOf(to), env);
      }
    }
  }
}
