/** sym_check_deps: the depth-first search for recursive dependencies, on symbols without choices. */
module DependencyCheck {
  import opened Options
  import opened Exprs
  import opened SymbolValues

  /** The symbols that sym_check_sym_deps reaches through one property. */
  ghost function PropChecked(p: Prop): set<Symbol> {
    if p.Relation? then {}
    else OptSyms(p.visible) + if p.Default? then ExprSyms(p.expr) else {}
  }

  ghost function PropsChecked(props: seq<Prop>): set<Symbol> {
    if props == [] then {} else PropChecked(props[0]) + PropsChecked(props[1..])
  }

  function InfoIn(info: map<Symbol, Info>, s: Symbol): Info { if s in info then info[s] else NO_INFO }

  /** The checked dependencies of a symbol. */
  ghost function CheckedDeps(info: map<Symbol, Info>, s: Symbol): set<Symbol> {
    OptSyms(InfoIn(info, s).revDep) + PropsChecked(InfoIn(info, s).props)
  }

  ghost predicate Edge(info: map<Symbol, Info>, s: Symbol, d: Symbol) { d in CheckedDeps(info, s) }

  ghost predicate IsPath(info: map<Symbol, Info>, p: seq<Symbol>) {
    forall i | 0 <= i < |p| - 1 :: Edge(info, p[i], p[i + 1])
  }

  ghost predicate IsCycle(info: map<Symbol, Info>, p: seq<Symbol>) {
    |p| >= 2 && p[0] == p[|p| - 1] && IsPath(info, p)
  }

  ghost predicate HasCycle(info: map<Symbol, Info>, all: set<Symbol>) {
    exists p :: IsCycle(info, p) && p[0] in all
  }

  /** Every dependency of a listed symbol is listed before it. */
  ghost predicate Topological(info: map<Symbol, Info>, fin: seq<Symbol>) {
    forall i, d | 0 <= i < |fin| && Edge(info, fin[i], d) :: d in fin[..i]
  }

  /** Where a symbol stands in the list. */
  ghost function Position(fin: seq<Symbol>, s: Symbol): (k: nat)
    requires s in fin
    ensures k < |fin| && fin[k] == s && forall j | 0 <= j < k :: fin[j] != s
  {
    if fin[0] == s then 0 else assert s in fin[1..]; 1 + Position(fin[1..], s)
  }

  lemma {:induction false} EdgeGoesBack(info: map<Symbol, Info>, fin: seq<Symbol>, s: Symbol, d: Symbol)
    requires Topological(info, fin) && s in fin && Edge(info, s, d)
    ensures d in fin && Position(fin, d) < Position(fin, s)
  {
    var k := Position(fin, s);
    assert d in fin[..k];
  }

  /** Along a path the positions strictly fall. */
  lemma {:induction false} PathGoesBack(info: map<Symbol, Info>, fin: seq<Symbol>, p: seq<Symbol>)
    requires Topological(info, fin) && |p| >= 2 && IsPath(info, p) && p[0] in fin
    ensures p[|p| - 1] in fin && Position(fin, p[|p| - 1]) < Position(fin, p[0])
  {
    assert Edge(info, p[0], p[1]);
    EdgeGoesBack(info, fin, p[0], p[1]);
    if |p| > 2 {
      forall i | 0 <= i < |p[1..]| - 1 ensures Edge(info, p[1..][i], p[1..][i + 1]) {
        assert Edge(info, p[i + 1], p[i + 2]);
      }
      PathGoesBack(info, fin, p[1..]);
    }
  }

  lemma {:induction false} TopologicalHasNoCycle(info: map<Symbol, Info>, all: set<Symbol>, fin: seq<Symbol>)
    requires Topological(info, fin) && forall s | s in all :: s in fin
    ensures !HasCycle(info, all)
  {
    forall p | IsCycle(info, p) && p[0] in all ensures false {
      PathGoesBack(info, fin, p);
    }
  }

  lemma {:induction false} TopologicalAppend(info: map<Symbol, Info>, fin: seq<Symbol>, s: Symbol)
    requires Topological(info, fin) && forall d | Edge(info, s, d) :: d in fin
    ensures Topological(info, fin + [s])
  {
    var longer := fin + [s];
    forall i, d | 0 <= i < |longer| && Edge(info, longer[i], d) ensures d in longer[..i] {
      if i < |fin| {
        assert d in fin[..i] && longer[..i] == fin[..i];
      } else {
        assert longer[..i] == fin;
      }
    }
  }

  lemma {:induction false} PathAppend(info: map<Symbol, Info>, p: seq<Symbol>, s: Symbol)
    requires IsPath(info, p) && (p != [] ==> Edge(info, p[|p| - 1], s))
    ensures IsPath(info, p + [s])
  {}

  lemma {:induction false} PropsCheckedStep(props: seq<Prop>, i: nat)
    requires i < |props|
    ensures PropsChecked(props[i..]) == PropChecked(props[i]) + PropsChecked(props[i + 1..])
  {
    assert props[i..][1..] == props[i + 1..];
  }

  class Checker {
    const info: map<Symbol, Info>
    /** All symbols of the hash table; nothing else is mentioned in any expression. */
    const all: set<Symbol>
    /** SYMBOL_CHECK and SYMBOL_CHECKED. */
    var check: set<Symbol>
    var checked: set<Symbol>
    /** zconfnerrs. */
    var errors: nat
    /** The symbols being checked, outermost first, and the finished ones in finishing order. */
    ghost var stack: seq<Symbol>
    ghost var fin: seq<Symbol>
    /** A symbol that is being checked was met again. */
    ghost var hit: bool

    ghost predicate Closed() { forall s, d | s in all && Edge(info, s, d) :: d in all }

    ghost predicate Inv()
      reads this
    {
      && Closed()
      && check <= checked <= all
      && (forall s :: s in check <==> s in stack)
      && IsPath(info, stack)
      && (hit ==> HasCycle(info, all))
      && (!hit ==>
          && errors == 0
          && Topological(info, fin)
          && (forall s :: s in fin <==> s in checked && s !in check))
    }

    /** A hit has been counted, or is on its way up to the symbol it was found at. */
    ghost predicate Accounted(r: Option<Symbol>)
      reads this
    {
      && (hit ==> errors > 0 || r.Some?)
      && (r.Some? ==> hit && r.value in check)
    }

    twostate predicate Grown()
      reads this
    {
      && stack == old(stack) && check == old(check) && old(checked) <= checked
      && old(errors) <= errors && (old(hit) ==> hit)
    }

    constructor (info: map<Symbol, Info>, all: set<Symbol>)
      requires forall s, d | s in all && Edge(info, s, d) :: d in all
      ensures Inv() && this.info == info && this.all == all
      ensures check == {} && checked == {} && errors == 0 && !hit
    {
      this.info, this.all := info, all;
      check, checked, errors, stack, fin, hit := {}, {}, 0, [], [], false;
    }

    /** The innermost symbol being checked depends on every listed symbol. */
    ghost predicate FromTop(ds: set<Symbol>)
      reads this
    {
      stack != [] && stack[|stack| - 1] in all && forall d | d in ds :: Edge(info, stack[|stack| - 1], d)
    }

    /** sym_check_expr_deps. */
    method CheckExpr(e: Expr) returns (r: Option<Symbol>)
      requires Inv() && Accounted(None) && FromTop(ExprSyms(e))
      modifies this
      ensures Inv() && Accounted(r) && Grown()
      ensures !hit ==> forall d | d in ExprSyms(e) :: d in fin
      decreases all - checked, 1, e
    {
      match e
      case Leaf(s) =>
        r := CheckDeps(s);
      case Not(a) =>
        r := CheckExpr(a);
      case Bin(_, a, b) =>
        r := CheckExpr(a);
        if r.Some? {
          return;
        }
        r := CheckExpr(b);
      case Cmp(_, a, b) =>
        r := CheckDeps(a);
        if r.Some? {
          return;
        }
        r := CheckDeps(b);
    }

    method CheckOpt(e: Option<Expr>) returns (r: Option<Symbol>)
      requires Inv() && Accounted(None) && FromTop(OptSyms(e))
      modifies this
      ensures Inv() && Accounted(r) && Grown()
      ensures !hit ==> forall d | d in OptSyms(e) :: d in fin
      decreases all - checked, 2
    {
      if e.None? {
        return None;
      }
      r := CheckExpr(e.value);
    }

    /** The loop body of sym_check_sym_deps. */
    method CheckProp(p: Prop) returns (r: Option<Symbol>)
      requires Inv() && Accounted(None) && FromTop(PropChecked(p))
      modifies this
      ensures Inv() && Accounted(r) && Grown()
      ensures !hit ==> forall d | d in PropChecked(p) :: d in fin
      decreases all - checked, 3
    {
      r := None;
      if p.Relation? {
        return;
      }
      r := CheckOpt(p.visible);
      if r.Some? {
        return;
      }
      if p.Default? {
        r := CheckExpr(p.expr);
      }
    }

    /** sym_check_sym_deps. */
    method CheckSymDeps(s: Symbol) returns (r: Option<Symbol>)
      requires Inv() && Accounted(None) && FromTop(CheckedDeps(info, s))
      modifies this
      ensures Inv() && Accounted(r) && Grown()
      ensures !hit ==> forall d | d in CheckedDeps(info, s) :: d in fin
      decreases all - checked, 4
    {
      var props := InfoIn(info, s).props;
      r := CheckOpt(InfoIn(info, s).revDep);
      if r.Some? {
        return;
      }
      var i := 0;
      assert props[0..] == props;
      while i < |props|
        invariant 0 <= i <= |props|
        invariant Inv() && Accounted(r) && r.None? && Grown()
        invariant FromTop(PropsChecked(props[i..]))
        invariant !hit ==> forall d | d in CheckedDeps(info, s) :: d in fin || d in PropsChecked(props[i..])
      {
        PropsCheckedStep(props, i);
        r := CheckProp(props[i]);
        if r.Some? {
          return;
        }
        i := i + 1;
      }
    }

    /** sym_check_deps: NULL when the symbol is not part of a cycle that is still open. */
    method CheckDeps(s: Symbol) returns (r: Option<Symbol>)
      requires Inv() && Accounted(None) && s in all
      requires stack != [] ==> Edge(info, stack[|stack| - 1], s)
      modifies this
      ensures Inv() && Accounted(r) && Grown() && s in checked
      ensures !hit ==> s in fin
      decreases all - checked, 0
    {
      if s in check {
        CloseCycle(s);
        hit := true;
        return Some(s);
      }
      if s in checked {
        return None;
      }
      r := CheckNew(s);
      if r == Some(s) {
        r := None;
      }
    }

    /** Its branch for a symbol met the first time; a cycle is counted at the symbol that closed it. */
    method CheckNew(s: Symbol) returns (r: Option<Symbol>)
      requires Inv() && Accounted(None) && s in all && s !in checked
      requires stack != [] ==> Edge(info, stack[|stack| - 1], s)
      modifies this
      ensures Inv() && Grown() && s in checked
      ensures hit ==> errors > 0 || r.Some?
      ensures r.Some? ==> hit && (r.value in check || (r.value == s && errors > 0))
      ensures !hit ==> s in fin
      decreases all - checked, 0, 1
    {
      NotOnStack(s);
      r := Visit(s);
      DropLast(old(stack), s);
      Leave(s);
      AddRemove(old(check), s);
      if r == Some(s) {
        errors := errors + 1;
      }
    }

    /** The flags are set and everything the symbol depends on is checked. */
    method Visit(s: Symbol) returns (r: Option<Symbol>)
      requires Inv() && Accounted(None) && s in all && s !in checked
      requires stack != [] ==> Edge(info, stack[|stack| - 1], s)
      modifies this
      ensures Inv() && Accounted(r)
      ensures stack == old(stack) + [s] && check == old(check) + {s} && old(checked) + {s} <= checked
      ensures old(errors) <= errors && (old(hit) ==> hit)
      ensures !hit ==> forall d | d in CheckedDeps(info, s) :: d in fin
      decreases all - checked, 0, 0
    {
      Enter(s);
      r := CheckSymDeps(s);
    }

    lemma {:induction false} NotOnStack(s: Symbol)
      requires Inv() && s !in checked
      ensures s !in stack && s !in check
    {}

    lemma {:induction false} DropLast(p: seq<Symbol>, s: Symbol)
      ensures (p + [s])[|p + [s]| - 1] == s && (p + [s])[..|p + [s]| - 1] == p
    {}

    lemma {:induction false} AddRemove(a: set<Symbol>, s: Symbol)
      requires s !in a
      ensures a + {s} - {s} == a
    {}

    /** Set SYMBOL_CHECK and SYMBOL_CHECKED. */
    method Enter(s: Symbol)
      requires Inv() && s in all && s !in checked
      requires stack != [] ==> Edge(info, stack[|stack| - 1], s)
      modifies this
      ensures Inv() && FromTop(CheckedDeps(info, s))
      ensures check == old(check) + {s} && checked == old(checked) + {s} && stack == old(stack) + [s]
      ensures errors == old(errors) && hit == old(hit) && fin == old(fin)
    {
      PathAppend(info, stack, s);
      check, checked, stack := check + {s}, checked + {s}, stack + [s];
    }

    /** Clear SYMBOL_CHECK. */
    method Leave(s: Symbol)
      requires Inv() && stack != [] && stack[|stack| - 1] == s && s !in stack[..|stack| - 1]
      requires !hit ==> forall d | d in CheckedDeps(info, s) :: d in fin
      modifies this
      ensures Inv()
      ensures check == old(check) - {s} && checked == old(checked) && stack == old(stack)[..|old(stack)| - 1]
      ensures errors == old(errors) && hit == old(hit)
      ensures !hit ==> s in fin
    {
      if !hit {
        TopologicalAppend(info, fin, s);
        fin := fin + [s];
      }
      check, stack := check - {s}, stack[..|stack| - 1];
    }

    /** Meeting a symbol on the stack closes a cycle. */
    lemma {:induction false} CloseCycle(s: Symbol)
      requires Inv() && s in check && stack != [] && Edge(info, stack[|stack| - 1], s)
      ensures HasCycle(info, all)
    {
      var i :| 0 <= i < |stack| && stack[i] == s;
      var p := stack[i..] + [s];
      forall j | 0 <= j < |p| - 1 ensures Edge(info, p[j], p[j + 1]) {
        if j < |p| - 2 {
          assert p[j] == stack[i + j] && p[j + 1] == stack[i + j + 1];
        } else {
          assert p[j] == stack[|stack| - 1] && p[j + 1] == s;
        }
      }
      assert IsCycle(info, p);
    }

    /**
     * Checking every symbol, in any order: an error is counted if and only if some symbol depends on
     * itself, and no symbol is left marked as being checked.  Without an error the finishing order
     * ranks the symbols.
     */
    method CheckAll(order: seq<Symbol>) returns (ghost rank: seq<Symbol>)
      requires Inv() && check == {} && checked == {} && errors == 0 && !hit
      requires forall s :: s in order <==> s in all
      modifies this
      ensures check == {} && checked == all
      ensures errors > 0 <==> HasCycle(info, all)
      ensures errors == 0 ==> Topological(info, rank) && forall s :: s in rank <==> s in all
    {
      var i := 0;
      assert stack != [] ==> stack[0] in check;
      while i < |order|
        invariant 0 <= i <= |order|
        invariant Inv() && Accounted(None) && check == {} && stack == []
        invariant forall j | 0 <= j < i :: order[j] in checked
      {
        var r := CheckDeps(order[i]);
        i := i + 1;
      }
      rank := fin;
      if !hit {
        TopologicalHasNoCycle(info, all, fin);
      }
    }
  }

  // ----- from the check to the evaluator ----------------------------------------

  /** The check follows everything that calculation reads, except the bounds of ranges. */
  lemma {:induction false} CheckedCoversProps(props: seq<Prop>, p: Prop)
    requires p in props
    ensures PropChecked(p) <= PropsChecked(props)
    ensures PropSyms(p) <= PropChecked(p) + if p.Range? then {p.lo, p.hi} else {}
  {
    if p != props[0] {
      assert p in props[1..];
      CheckedCoversProps(props[1..], p);
    }
  }
}
