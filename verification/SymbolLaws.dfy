/**
 * What the values of symbols are, told by their properties and expr_calc_value alone: every condition is
 * evaluated in the assignment that the values themselves make up.
 */
module SymbolLaws {
  import opened Options
  import opened Tristates
  import opened Exprs
  import opened SymbolValues

  ghost function PropsOf(t: Table, s: Symbol): seq<Prop> { t.InfoOf(s).props }

  /** The value of the condition of a property. */
  ghost function Cond(t: Table, p: Prop): Tristate
    requires t.Ranked()
  {
    CalcOpt(p.visible, t.Assignment())
  }

  /** The symbol is two-valued: of a type other than tristate, or without modules. */
  predicate TwoValued(t: Table, s: Symbol) { s.Type() != Tri || t.modulesVal == NO }

  function Promoted(two: bool, v: Tristate): Tristate { if two && v == MOD then YES else v }

  /** The first default, or range, whose condition is not n. */
  ghost predicate IsFirst(t: Table, s: Symbol, wantDefault: bool, k: nat)
    requires t.Ranked()
  {
    var props := PropsOf(t, s);
    && k < |props| && IsKind(props[k], wantDefault) && Cond(t, props[k]) != NO
    && forall j | 0 <= j < k && IsKind(props[j], wantDefault) :: Cond(t, props[j]) == NO
  }

  ghost predicate HasNone(t: Table, s: Symbol, wantDefault: bool)
    requires t.Ranked()
  {
    forall j | 0 <= j < |PropsOf(t, s)| && IsKind(PropsOf(t, s)[j], wantDefault) :: Cond(t, PropsOf(t, s)[j]) == NO
  }

  /** The user's value counts: there is one, and the symbol is visible. */
  ghost predicate UsesUser(t: Table, s: Symbol)
    requires t.Ranked()
  {
    t.Visible(s) != NO && t.InfoOf(s).user.Some?
  }

  // ----- searches -----------------------------------------------------------------------

  lemma {:induction false} OptIsCalc(t: Table, e: Option<Expr>, n: nat)
    requires t.Ranked() && t.BelowOpt(e, n)
    ensures t.EvalOpt(e, n) == CalcOpt(e, t.Assignment())
  {
    if e.Some? {
      t.EvalIsCalc(e.value, n);
    }
  }

  lemma {:induction false} SearchFrom(t: Table, props: seq<Prop>, from: nat, wantDefault: bool, n: nat)
    requires t.Ranked() && t.PropsAllBelow(props, n) && from <= |props|
    ensures var k := t.FirstVisible(props, from, wantDefault, n);
      && (forall j | from <= j < k && IsKind(props[j], wantDefault) :: Cond(t, props[j]) == NO)
      && (k < |props| ==> IsKind(props[k], wantDefault) && Cond(t, props[k]) != NO)
    decreases |props| - from
  {
    if from < |props| {
      assert t.PropBelow(props[from], n);
      if IsKind(props[from], wantDefault) {
        assert t.BelowOpt(props[from].visible, n);
        OptIsCalc(t, props[from].visible, n);
      }
      if t.FirstVisible(props, from, wantDefault, n) != from {
        SearchFrom(t, props, from + 1, wantDefault, n);
      }
    }
  }

  /** What the search of sym_get_default_prop and sym_get_range_prop finds. */
  lemma {:induction false} SearchFinds(t: Table, s: Symbol, wantDefault: bool)
    requires t.Ranked()
    ensures t.PropsAllBelow(PropsOf(t, s), t.rank(s))
    ensures var k := t.FirstVisible(PropsOf(t, s), 0, wantDefault, t.rank(s));
      && (k < |PropsOf(t, s)| <==> !HasNone(t, s, wantDefault))
      && (k < |PropsOf(t, s)| ==> IsFirst(t, s, wantDefault, k))
      && (forall j: nat | IsFirst(t, s, wantDefault, j) :: j == k)
  {
    t.PropsBelow(s);
    SearchFrom(t, PropsOf(t, s), 0, wantDefault, t.rank(s));
  }

  // ----- visibility and selection ---------------------------------------------------------

  lemma {:induction false} PromptMaxIs(t: Table, props: seq<Prop>, n: nat)
    requires t.Ranked() && t.PropsAllBelow(props, n)
    ensures var v := t.PromptMax(props, n);
      && (forall i | 0 <= i < |props| && props[i].Prompt? :: Cond(t, props[i]) <= v)
      && (v == NO || exists i :: 0 <= i < |props| && props[i].Prompt? && Cond(t, props[i]) == v)
  {
    if props != [] {
      var before, p := props[..|props| - 1], props[|props| - 1];
      assert t.PropBelow(p, n) && t.PropsAllBelow(before, n);
      PromptMaxIs(t, before, n);
      if p.Prompt? {
        assert t.BelowOpt(p.visible, n);
        OptIsCalc(t, p.visible, n);
        assert Cond(t, p) == t.EvalOpt(p.visible, n);
      }
      assert forall i | 0 <= i < |before| :: before[i] == props[i];
    }
  }

  /** A symbol is as visible as the most visible of its prompts, where m counts as y for a two-valued symbol. */
  lemma {:induction false} VisibleLaw(t: Table, s: Symbol)
    requires t.Ranked()
    ensures var (props, two) := (PropsOf(t, s), TwoValued(t, s));
      && (forall i | 0 <= i < |props| && props[i].Prompt? :: Promoted(two, Cond(t, props[i])) <= t.Visible(s))
      && (t.Visible(s) == NO ||
          exists i :: 0 <= i < |props| && props[i].Prompt? && Promoted(two, Cond(t, props[i])) == t.Visible(s))
  {
    t.PropsBelow(s);
    PromptMaxIs(t, PropsOf(t, s), t.rank(s));
  }

  /** What selects a symbol is the value of its rev_dep, n without one; m counts as y for a boolean. */
  lemma {:induction false} SelectedLaw(t: Table, s: Symbol)
    requires t.Ranked()
    ensures var rd := t.InfoOf(s).revDep;
      t.Selected(s) ==
        if rd.None? then NO else Promoted(TwoValued(t, s) && IsTriType(s), Calc(rd.value, t.Assignment()))
  {
    t.PropsBelow(s);
    OptIsCalc(t, t.InfoOf(s).revDep, t.rank(s));
  }

  // ----- values ---------------------------------------------------------------------------

  /**
   * A boolean or tristate symbol: the user's value limited to its visibility, or else its first default
   * limited to that one's condition, or else n; raised to what selects it, with m as y where it is boolean.
   */
  lemma {:induction false} TriLaw(t: Table, s: Symbol)
    requires t.Ranked() && IsTriType(s)
    ensures var (two, v, sel) := (TwoValued(t, s), t.Value(s).tri, t.Selected(s));
      && (UsesUser(t, s) ==> v == Promoted(two, Max(Min(t.InfoOf(s).user.value.tri, t.Visible(s)), sel)))
      && (!UsesUser(t, s) && HasNone(t, s, true) ==> v == sel)
      && forall k: nat | !UsesUser(t, s) && IsFirst(t, s, true, k) ::
           var p := PropsOf(t, s)[k];
           v == Promoted(two, Max(Min(Calc(p.expr, t.Assignment()), Cond(t, p)), sel))
  {
    SearchFinds(t, s, true);
    SelectedLaw(t, s);
    var props, n := PropsOf(t, s), t.rank(s);
    var k := t.FirstVisible(props, 0, true, n);
    if k < |props| {
      assert t.PropBelow(props[k], n);
      assert t.BelowOpt(props[k].visible, n) && t.Below(props[k].expr, n);
      OptIsCalc(t, props[k].visible, n);
      t.EvalIsCalc(props[k].expr, n);
    }
  }

  /** The user's string, or else that of the symbol that the first default names, or else nothing. */
  ghost predicate OwnText(t: Table, s: Symbol, text: string)
    requires t.Ranked()
  {
    && (UsesUser(t, s) ==> text == t.InfoOf(s).user.value.str)
    && (!UsesUser(t, s) && HasNone(t, s, true) ==> text == "")
    && forall k: nat | !UsesUser(t, s) && IsFirst(t, s, true, k) ::
         var e := PropsOf(t, s)[k].expr;
         text == if e.Leaf? then t.Value(e.sym).str else ""
  }

  /** The number that a bound's string is read as. */
  ghost function Bound(t: Table, s: Symbol, x: Symbol): int
    requires t.Ranked()
  {
    t.num.strtol(t.Value(x).str, if x.Type() == Int then 10 else if x.Type() == Hex then 16 else BaseOf(s))
  }

  function BaseOf(s: Symbol): int { if s.Type() == Int then 10 else 16 }

  /** The string under the first range that applies: itself between the bounds, otherwise the bound it passes. */
  ghost predicate Within(t: Table, s: Symbol, own: string, text: string)
    requires t.Ranked()
  {
    && (HasNone(t, s, false) ==> text == own)
    && forall k: nat | IsFirst(t, s, false, k) ::
         var (p, v) := (PropsOf(t, s)[k], t.num.strtol(own, BaseOf(s)));
         var (lo, hi) := (Bound(t, s, p.lo), Bound(t, s, p.hi));
         && (lo <= v <= hi ==> text == own)
         && (v < lo ==> text == t.num.format(s.Type(), lo))
         && (lo <= v && hi < v ==> text == t.num.format(s.Type(), hi))
  }

  lemma {:induction false} OwnTextIs(t: Table, s: Symbol)
    requires t.Ranked()
    ensures OwnText(t, s, t.StrValue(s))
  {
    SearchFinds(t, s, true);
  }

  lemma {:induction false} StringLaw(t: Table, s: Symbol)
    requires t.Ranked() && s.Type() == Str
    ensures OwnText(t, s, t.Value(s).str)
  {
    OwnTextIs(t, s);
  }

  lemma {:induction false} NumberLaw(t: Table, s: Symbol) returns (own: string)
    requires t.Ranked() && (s.Type() == Int || s.Type() == Hex)
    ensures OwnText(t, s, own) && Within(t, s, own, t.Value(s).str)
  {
    own := t.StrValue(s);
    OwnTextIs(t, s);
    SearchFinds(t, s, false);
  }

  /**
   * As an operand only y, m and a boolean or tristate symbol can be anything but n.  As a string, a constant is
   * its text, a boolean or tristate symbol the name of its value, and a symbol without a type its own name.
   */
  lemma {:induction false} OperandLaw(t: Table, s: Symbol)
    requires t.Ranked()
    ensures var (tri, text) := (t.Assignment().tri(s), t.Assignment().str(s));
      && (s == Const("y") ==> tri == YES) && (s == Const("m") ==> tri == MOD)
      && (tri != NO ==> s == Const("y") || s == Const("m") || IsTriType(s))
      && (s.Const? ==> text == s.text)
      && (IsTriType(s) ==> text == if tri == YES then "y" else if tri == MOD then "m" else "n")
      && (s.Config? && (s.Type() == Unknown || s.Type() == SymType.Other) ==>
          text == if s.name.Some? then s.name.value else "")
  {}

  /**
   * A symbol is written if it is not made by the tools themselves, and is visible, or has a default (for a
   * string or number, one that names a symbol), or is boolean or tristate and selected.
   */
  lemma {:induction false} WrittenLaw(t: Table, s: Symbol)
    requires t.Ranked()
    ensures t.Written(s) <==>
      && !t.InfoOf(s).auto
      && (IsTriType(s) || s.Type() == Str || s.Type() == Int || s.Type() == Hex)
      && (|| t.Visible(s) != NO
          || (IsTriType(s) && t.Selected(s) != NO)
          || exists k: nat :: IsFirst(t, s, true, k) && (IsTriType(s) || PropsOf(t, s)[k].expr.Leaf?))
  {
    SearchFinds(t, s, true);
  }
}
