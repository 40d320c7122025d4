/** When menu_finalize makes an entry the child of the one before it, and why that is right. */
module MenuAdoption {
  import opened Options
  import opened Tristates
  import opened Exprs
  import opened Transforms
  import opened ExprEquality
  import opened Slots
  import opened DupElimination
  import opened DupClash

  /** expr_contains_symbol */
  predicate ContainsSymbol(e: Expr, s: Symbol) {
    match e
    case Leaf(x) => x == s
    case Not(a) => ContainsSymbol(a, s)
    case Bin(_, l, r) => ContainsSymbol(l, s) || ContainsSymbol(r, s)
    case Cmp(_, l, r) => l == s || r == s
  }

  /** expr_depends_symbol */
  predicate DependsSymbol(e: Expr, s: Symbol) {
    match e
    case Leaf(x) => x == s
    case Bin(t, l, r) => t == AndOp && (DependsSymbol(l, s) || DependsSymbol(r, s))
    case Cmp(c, l, r) => l == s && if c == Equal then r == SYM_YES || r == SYM_MOD else r == SYM_NO
    case Not(_) => false
  }

  /** expr_eliminate_dups(expr_transform(expr_trans_compare(e, E_UNEQUAL, &symbol_no))) */
  function Compared(e: Option<Expr>): Expr { DupFree(Transform(CompareNoOpt(e, Unequal))) }

  /**
   * menu_finalize makes an entry with the condition `dep` a child of the entry before it, which has the
   * symbol `s` and the prompt condition `base`.
   */
  predicate BelongsTo(dep: Option<Expr>, s: Symbol, base: Option<Expr>) {
    && dep.Some? && ContainsSymbol(dep.value, s)
    && (DependsSymbol(dep.value, s) || EliminateEq(Compared(dep), Compared(base)).1 == E_YES)
  }

  /** A condition that depends on a symbol in this sense is n wherever the symbol is. */
  lemma {:induction false} DependsMeansBelow(e: Expr, s: Symbol, env: Env)
    requires env.Valid() && DependsSymbol(e, s) && (s.Type() == Boolean || s.Type() == Tri)
    ensures env.tri(s) == NO ==> Calc(e, env) == NO
    ensures ContainsSymbol(e, s)
  {
    match e
    case Leaf(_) =>
    case Not(_) =>
    case Bin(_, l, r) =>
      if DependsSymbol(l, s) {
        DependsMeansBelow(l, s, env);
      } else {
        DependsMeansBelow(r, s, env);
      }
    case Cmp(_, _, r) =>
      assert env.str(s) == TriName(env.tri(s));
      assert env.str(SYM_YES) == "y" && env.str(SYM_MOD) == "m" && env.str(SYM_NO) == "n";
  }

  predicate Usable(e: Option<Expr>) { e.Some? ==> OperandsAreTri(e.value) }

  /** The two-valued reading of a condition that may be NULL. */
  predicate UpOpt(e: Option<Expr>, env: Env) { e.Some? ==> Up(e.value, env) }

  /** What is compared is the two-valued reading, m counted as y. */
  lemma {:induction false} ComparedValue(e: Option<Expr>, env: Env)
    requires env.Valid() && Usable(e)
    ensures Calc(Compared(e), env) == if UpOpt(e, env) then YES else NO
  {
    var cmp := CompareNoOpt(e, Unequal);
    TransformValue(cmp, env);
    if e.Some? {
      CompareNoIsUp(e.value, Unequal, env);
    }
    DupFreeKeeps(Transform(cmp));
    assert Keeps(Calc(Transform(cmp), env), Calc(Compared(e), env));
  }

  /**
   * The entry is out of reach whenever the parent is: where its condition holds, the parent's symbol is
   * not n or the parent's prompt is visible.  A condition that is m has to hold in the two-valued reading,
   * which is exactly when the comparison with n is right about it.
   */
  ghost predicate OutOfReach(dep: Option<Expr>, s: Symbol, base: Option<Expr>, env: Env) {
    CalcOpt(dep, env) != NO && (CalcOpt(dep, env) != MOD || UpOpt(dep, env)) ==>
      env.tri(s) != NO || CalcOpt(base, env) != NO
  }

  lemma {:induction false} AdoptionIsSound(dep: Option<Expr>, s: Symbol, base: Option<Expr>, env: Env)
    requires BelongsTo(dep, s, base) && env.Valid() && Usable(dep) && Usable(base)
    requires s.Type() == Boolean || s.Type() == Tri
    ensures OutOfReach(dep, s, base, env)
  {
    if DependsSymbol(dep.value, s) {
      DependsMeansBelow(dep.value, s, env);
    } else {
      ComparedValue(dep, env);
      ComparedValue(base, env);
      EliminatedToYes(Compared(dep), Compared(base), env);
      UpValue(dep.value, env);
      if base.Some? {
        UpValue(base.value, env);
      }
    }
  }

  /**
   * Why that condition is there: below a symbol with the prompt condition `X = n`, an entry whose
   * condition is `!X && !SYM` is adopted, and X = m makes the entry's condition m and the parent's n.
   */
  lemma {:induction false} AdoptionUnderNot(x: Symbol, s: Symbol, env: Env)
    requires x != s && x.Type() == Tri && s.Type() == Tri && env.Valid() && env.tri(x) == MOD && env.tri(s) == NO
    ensures BelongsTo(Some(UnderNot(x, s)), s, Some(Cmp(Equal, x, SYM_NO)))
    ensures Calc(UnderNot(x, s), env) == MOD && Calc(Cmp(Equal, x, SYM_NO), env) == NO
  {
    UnderNotIsRewritten(x, s);
    UnderNotIsDupFree(x, s);
    UnderNotIsCancelled(x, s);
    assert Transform(CompareNoOpt(Some(Cmp(Equal, x, SYM_NO)), Unequal)) == Cmp(Equal, x, SYM_NO);
    assert DupFree(Cmp(Equal, x, SYM_NO)) == Cmp(Equal, x, SYM_NO);
    assert env.str(x) == TriName(env.tri(x)) && env.str(SYM_NO) == "n";
    UnderNotValue(x, s, env);
  }

  function UnderNot(x: Symbol, s: Symbol): Expr { Bin(AndOp, Not(Leaf(x)), Not(Leaf(s))) }

  lemma {:induction false} UnderNotValue(x: Symbol, s: Symbol, env: Env)
    requires env.tri(x) == MOD && env.tri(s) == NO
    ensures Calc(UnderNot(x, s), env) == MOD
  {
    assert Calc(Not(Leaf(x)), env) == MOD;
    assert Calc(Not(Leaf(s)), env) == YES;
  }

  lemma {:induction false} UnderNotIsRewritten(x: Symbol, s: Symbol)
    requires x.Type() == Tri && s.Type() == Tri
    ensures Transform(CompareNo(UnderNot(x, s), Unequal)) == BothNo(x, s)
  {
    var ex, es := Cmp(Unequal, x, SYM_NO), Cmp(Unequal, s, SYM_NO);
    var ors := Bin(OrOp, ex, es);
    assert CompareNo(Not(Leaf(x)), Equal) == ex;
    assert CompareNo(Not(Leaf(s)), Equal) == es;
    assert Transform(ors) == ors;
    assert DeMorgan(OrOp, ex, es) == Bin(AndOp, Not(ex), Not(es));
    assert Transform(Not(ex)) == Cmp(Equal, x, SYM_NO);
    assert Transform(Not(es)) == Cmp(Equal, s, SYM_NO);
  }

  function BothNo(x: Symbol, s: Symbol): Expr { Bin(AndOp, Cmp(Equal, x, SYM_NO), Cmp(Equal, s, SYM_NO)) }

  lemma {:induction false} UnderNotIsDupFree(x: Symbol, s: Symbol)
    requires x != s && x.Type() == Tri && s.Type() == Tri
    ensures DupFree(BothNo(x, s)) == BothNo(x, s)
  {
    TwoStay(AndOp, Cmp(Equal, x, SYM_NO), Cmp(Equal, s, SYM_NO));
    TwoPlainStay(AndOp, Cmp(Equal, x, SYM_NO), Cmp(Equal, s, SYM_NO));
  }

  lemma {:induction false} UnderNotIsCancelled(x: Symbol, s: Symbol)
    requires x.Type() == Tri && s.Type() == Tri
    ensures EliminateEq(BothNo(x, s), Cmp(Equal, x, SYM_NO)).1 == E_YES
  {
    var base, other := Cmp(Equal, x, SYM_NO), Cmp(Equal, s, SYM_NO);
    assert CancelEq(AndOp, base, base) == (E_YES, E_YES);
    assert CancelEq(AndOp, other, E_YES) == (other, E_YES);
    assert CancelPasses(BothNo(x, s), base) == (Bin(AndOp, E_YES, other), E_YES);
  }
}
