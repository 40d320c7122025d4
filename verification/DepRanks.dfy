/** When a check without errors makes the recursive definition of values well-founded: range bounds are the gap. */
module DependencyRanks {
  import opened Options
  import opened Tristates
  import opened Exprs
  import opened SymbolValues
  import opened DependencyCheck

  /** Every symbol that calculating `s` may ask for, range bounds included. */
  ghost function Needs(info: map<Symbol, Info>, s: Symbol): set<Symbol> {
    OptSyms(InfoIn(info, s).revDep) + set p, d | p in InfoIn(info, s).props && d in PropSyms(p) :: d
  }

  ghost predicate NeedsPath(info: map<Symbol, Info>, p: seq<Symbol>) {
    forall i | 0 <= i < |p| - 1 :: p[i + 1] in Needs(info, p[i])
  }

  ghost predicate NeedsCycle(info: map<Symbol, Info>, p: seq<Symbol>) {
    |p| >= 2 && p[0] == p[|p| - 1] && NeedsPath(info, p)
  }

  /** Some symbol's calculation asks for the symbol itself. */
  ghost predicate AsksItself(info: map<Symbol, Info>) { exists p :: NeedsCycle(info, p) }

  ghost predicate HasRank(info: map<Symbol, Info>, modulesVal: Tristate, num: Numbers) {
    exists rank: Symbol -> nat :: Table(info, modulesVal, num, rank).Ranked()
  }

  // ----- a rank rules out cycles ----------------------------------------------------

  lemma {:induction false} RanksFall(t: Table, p: seq<Symbol>)
    requires t.Ranked() && |p| >= 2 && NeedsPath(t.info, p)
    ensures t.rank(p[|p| - 1]) < t.rank(p[0])
  {
    assert p[1] in t.Deps(p[0]);
    if |p| > 2 {
      forall i | 0 <= i < |p[1..]| - 1 ensures p[1..][i + 1] in Needs(t.info, p[1..][i]) {
        assert p[i + 2] in Needs(t.info, p[i + 1]);
      }
      RanksFall(t, p[1..]);
    }
  }

  // ----- without a cycle there is a rank --------------------------------------------

  ghost predicate NoRepeats(p: seq<Symbol>) { forall i, j | 0 <= i < j < |p| :: p[i] != p[j] }

  lemma {:induction false} NoRepeatsFits(p: seq<Symbol>, all: set<Symbol>)
    requires NoRepeats(p) && forall s | s in p :: s in all
    ensures |p| <= |all|
  {
    if p != [] {
      var last, init := p[|p| - 1], p[..|p| - 1];
      forall s | s in init ensures s in all - {last} {
        var i :| 0 <= i < |init| && init[i] == s;
        assert p[i] == s;
      }
      NoRepeatsFits(init, all - {last});
    }
  }

  lemma {:induction false} NeedsPathAppend(info: map<Symbol, Info>, p: seq<Symbol>, d: Symbol)
    requires p != [] && NeedsPath(info, p) && d in Needs(info, p[|p| - 1])
    ensures NeedsPath(info, p + [d])
  {
    forall i | 0 <= i < |p + [d]| - 1 ensures (p + [d])[i + 1] in Needs(info, (p + [d])[i]) {
      if i < |p| - 1 {
        assert p[i + 1] in Needs(info, p[i]);
      }
    }
  }

  /** A path that comes back to one of its own symbols contains a cycle. */
  lemma {:induction false} NeedsPathCloses(info: map<Symbol, Info>, p: seq<Symbol>, i: nat)
    requires NeedsPath(info, p) && i < |p| - 1 && p[i] == p[|p| - 1]
    ensures AsksItself(info)
  {
    var cycle := p[i..];
    forall k | 0 <= k < |cycle| - 1 ensures cycle[k + 1] in Needs(info, cycle[k]) {
      assert p[i + k + 1] in Needs(info, p[i + k]);
    }
    assert NeedsCycle(info, cycle);
  }

  /** Walking from symbol to symbol inside `todo` has to come to an end. */
  lemma {:induction false} WalkToSink(info: map<Symbol, Info>, todo: set<Symbol>, p: seq<Symbol>) returns (s: Symbol)
    requires !AsksItself(info) && p != [] && NeedsPath(info, p) && NoRepeats(p) && forall x | x in p :: x in todo
    ensures s in todo && Needs(info, s) !! todo
    decreases |todo| - |p|
  {
    s := p[|p| - 1];
    assert s in p;
    if d :| d in Needs(info, s) && d in todo {
      NeedsPathAppend(info, p, d);
      NewOnPath(info, p, d);
      NoRepeatsFits(p + [d], todo);
      s := WalkToSink(info, todo, p + [d]);
    }
  }

  lemma {:induction false} NewOnPath(info: map<Symbol, Info>, p: seq<Symbol>, d: Symbol)
    requires !AsksItself(info) && NoRepeats(p) && NeedsPath(info, p + [d])
    ensures NoRepeats(p + [d])
  {
    var longer := p + [d];
    forall i | 0 <= i < |p| ensures longer[i] != d {
      if longer[i] == d {
        NeedsPathCloses(info, longer, i);
      }
    }
  }

  /** A list in which everything a symbol needs is listed before it, or nothing is known of it. */
  ghost predicate Listed(info: map<Symbol, Info>, fin: seq<Symbol>) {
    forall i, d | 0 <= i < |fin| && d in Needs(info, fin[i]) :: d in fin[..i] || d !in info
  }

  lemma {:induction false} ListAll(info: map<Symbol, Info>, fin: seq<Symbol>, todo: set<Symbol>)
      returns (all: seq<Symbol>)
    requires !AsksItself(info) && Listed(info, fin) && todo <= info.Keys
    requires forall s | s in info :: s in fin <==> s !in todo
    ensures Listed(info, all) && forall s | s in info :: s in all
    decreases |todo|
  {
    if todo == {} {
      return fin;
    }
    var first :| first in todo;
    var s := WalkToSink(info, todo, [first]);
    var longer := fin + [s];
    forall i, d | 0 <= i < |longer| && d in Needs(info, longer[i]) ensures d in longer[..i] || d !in info {
      if i < |fin| {
        assert d in fin[..i] || d !in info;
        assert longer[..i] == fin[..i];
      } else {
        assert longer[..i] == fin;
      }
    }
    all := ListAll(info, longer, todo - {s});
  }

  /** Symbols that nothing is known of come first. */
  ghost function RankIn(fin: seq<Symbol>, s: Symbol): nat { if s in fin then 1 + Position(fin, s) else 0 }

  lemma {:induction false} ListedIsRanked(info: map<Symbol, Info>, fin: seq<Symbol>, modulesVal: Tristate, num: Numbers)
    requires Listed(info, fin) && forall s | s in info :: s in fin
    ensures HasRank(info, modulesVal, num)
  {
    var known := set s | s in info :: s;
    var t := Table(info, modulesVal, num, s => if s in known then RankIn(fin, s) else 0);
    forall s: Symbol, d: Symbol | d in t.Deps(s) ensures t.rank(d) < t.rank(s) {
      assert d in Needs(info, s);
      assert s in info;
      var k := Position(fin, s);
      if d in info {
        assert d in fin[..k];
        var j :| 0 <= j < k && fin[j] == d;
        assert Position(fin, d) <= j;
      }
    }
    assert t.Ranked();
  }

  /** The definition of values is well-founded if and only if no symbol's calculation asks for itself. */
  lemma {:induction false} RankedExactly(info: map<Symbol, Info>, modulesVal: Tristate, num: Numbers)
    ensures HasRank(info, modulesVal, num) <==> !AsksItself(info)
  {
    if HasRank(info, modulesVal, num) {
      var rank: Symbol -> nat :| Table(info, modulesVal, num, rank).Ranked();
      forall p | NeedsCycle(info, p) ensures false {
        RanksFall(Table(info, modulesVal, num, rank), p);
      }
    }
    if !AsksItself(info) {
      var fin := ListAll(info, [], info.Keys);
      ListedIsRanked(info, fin, modulesVal, num);
    }
  }

  // ----- what the check adds to that -------------------------------------------------

  /** A range bound, which sym_check_deps does not follow. */
  ghost predicate IsBound(info: map<Symbol, Info>, s: Symbol, d: Symbol) {
    exists p :: p in InfoIn(info, s).props && p.Range? && (d == p.lo || d == p.hi)
  }

  /** What calculation needs beyond what the check follows are the range bounds. */
  lemma {:induction false} NeedsAreChecked(info: map<Symbol, Info>, s: Symbol, d: Symbol)
    requires d in Needs(info, s)
    ensures Edge(info, s, d) || IsBound(info, s, d)
  {
    if d !in OptSyms(InfoIn(info, s).revDep) {
      var p :| p in InfoIn(info, s).props && d in PropSyms(p);
      CheckedCoversProps(InfoIn(info, s).props, p);
    }
  }

  /** Bounds that are constants, as in `range 1 10`, or symbols that nothing else is known of. */
  ghost predicate BoundsAreConstant(info: map<Symbol, Info>) { forall s, d | IsBound(info, s, d) :: d !in info }

  /** A symbol on a cycle needs something, so something is known of it. */
  lemma {:induction false} CycleIsKnown(info: map<Symbol, Info>, p: seq<Symbol>)
    requires NeedsCycle(info, p)
    ensures forall i | 0 <= i < |p| :: p[i] in info
  {
    forall i | 0 <= i < |p| ensures p[i] in info {
      var k := if i < |p| - 1 then i else 0;
      assert p[k + 1] in Needs(info, p[k]);
    }
  }

  /** With constant range bounds a check without errors is enough. */
  lemma {:induction false} CheckedIsRanked(info: map<Symbol, Info>, modulesVal: Tristate, num: Numbers)
    requires !HasCycle(info, info.Keys) && BoundsAreConstant(info)
    ensures HasRank(info, modulesVal, num)
  {
    forall p | NeedsCycle(info, p) ensures false {
      CycleIsKnown(info, p);
      forall i | 0 <= i < |p| - 1 ensures Edge(info, p[i], p[i + 1]) {
        assert p[i + 1] in Needs(info, p[i]);
        NeedsAreChecked(info, p[i], p[i + 1]);
      }
      assert IsCycle(info, p);
    }
    RankedExactly(info, modulesVal, num);
  }

  /** Otherwise a cycle that the check missed goes through a range bound. */
  lemma {:induction false} MissedCycleHasBound(info: map<Symbol, Info>, p: seq<Symbol>)
    requires !HasCycle(info, info.Keys) && NeedsCycle(info, p)
    ensures exists i :: 0 <= i < |p| - 1 && IsBound(info, p[i], p[i + 1]) && !Edge(info, p[i], p[i + 1])
  {
    CycleIsKnown(info, p);
    if forall i | 0 <= i < |p| - 1 :: Edge(info, p[i], p[i + 1]) {
      assert IsCycle(info, p);
    } else {
      var i :| 0 <= i < |p| - 1 && !Edge(info, p[i], p[i + 1]);
      assert p[i + 1] in Needs(info, p[i]);
      NeedsAreChecked(info, p[i], p[i + 1]);
    }
  }

  // ----- the check asks for no more than that --------------------------------------------

  /** Properties of the kinds whose text the check evaluates but the calculation does not. */
  ghost predicate NoOthers(info: map<Symbol, Info>) {
    forall s, p | s in info && p in info[s].props :: !p.Other?
  }

  lemma {:induction false} CheckedIsSome(props: seq<Prop>, d: Symbol) returns (p: Prop)
    requires d in PropsChecked(props)
    ensures p in props && d in PropChecked(p)
  {
    p := props[0];
    if d !in PropChecked(p) {
      p := CheckedIsSome(props[1..], d);
    }
  }

  lemma {:induction false} CheckedIsNeeded(info: map<Symbol, Info>, s: Symbol, d: Symbol)
    requires NoOthers(info) && Edge(info, s, d)
    ensures d in Needs(info, s)
  {
    if d !in OptSyms(InfoIn(info, s).revDep) {
      var p := CheckedIsSome(InfoIn(info, s).props, d);
      assert d in PropSyms(p);
    }
  }

  /** A reported cycle is one of the calculation: what is well-founded is never refused. */
  lemma {:induction false} ReportedIsReal(info: map<Symbol, Info>, modulesVal: Tristate, num: Numbers)
    requires NoOthers(info) && HasCycle(info, info.Keys)
    ensures AsksItself(info) && !HasRank(info, modulesVal, num)
  {
    var p :| IsCycle(info, p) && p[0] in info.Keys;
    forall i | 0 <= i < |p| - 1 ensures p[i + 1] in Needs(info, p[i]) {
      assert Edge(info, p[i], p[i + 1]);
      CheckedIsNeeded(info, p[i], p[i + 1]);
    }
    assert NeedsCycle(info, p);
    RankedExactly(info, modulesVal, num);
  }

  /** With constant range bounds and no such property the check is exact. */
  lemma {:induction false} CheckIsExact(info: map<Symbol, Info>, modulesVal: Tristate, num: Numbers)
    requires NoOthers(info) && BoundsAreConstant(info)
    ensures HasCycle(info, info.Keys) <==> !HasRank(info, modulesVal, num)
  {
    if HasCycle(info, info.Keys) {
      ReportedIsReal(info, modulesVal, num);
    } else {
      CheckedIsRanked(info, modulesVal, num);
    }
  }

  /** Two symbols that bound each other pass the check, although neither value is well-founded. */
  lemma {:induction false} RangeCycleUnchecked(modulesVal: Tristate, num: Numbers)
    ensures var info := BoundEachOther(); !HasCycle(info, info.Keys) && !HasRank(info, modulesVal, num)
  {
    var info := BoundEachOther();
    var a, b := BoundA(), BoundB();
    BoundsAreUnchecked(info, a, b);
    BoundsAreUnchecked(info, b, a);
    assert Topological(info, [a, b]);
    TopologicalHasNoCycle(info, info.Keys, [a, b]);
    assert NeedsCycle(info, [a, b, a]) by {
      assert b in Needs(info, a);
      assert a in Needs(info, b);
    }
    RankedExactly(info, modulesVal, num);
  }

  function BoundA(): Symbol { Config(0, Some("A"), Int) }

  function BoundB(): Symbol { Config(1, Some("B"), Int) }

  function BoundEachOther(): map<Symbol, Info> {
    map[BoundA() := Info([Range(None, BoundB(), BoundB())], None, None, false),
        BoundB() := Info([Range(None, BoundA(), BoundA())], None, None, false)]
  }

  lemma {:induction false} BoundsAreUnchecked(info: map<Symbol, Info>, s: Symbol, d: Symbol)
    requires InfoIn(info, s) == Info([Range(None, d, d)], None, None, false)
    ensures CheckedDeps(info, s) == {} && d in Needs(info, s)
  {
    var p := Range(None, d, d);
    var props := [p];
    assert InfoIn(info, s).props == props;
    assert props[0] == p;
    assert props[1..] == [];
    assert PropChecked(p) == {};
    assert PropsChecked([]) == {};
    assert PropsChecked(props) == {};
    assert p in props;
    assert d in PropSyms(p);
  }
}
