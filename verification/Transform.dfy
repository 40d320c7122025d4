/** expr_eliminate_yn, expr_transform, expr_trans_bool and expr_trans_compare. */
module Transforms {
  import opened Options
  import opened Tristates
  import opened Exprs

  // ----- expr_eliminate_yn ---------------------------------------------------

  /** One AND/OR node whose operands are already free of constants. */
  function FoldYn(t: BinOp, l: Expr, r: Expr): Expr {
    if l == Leaf(Zero(t)) then Leaf(Zero(t))
    else if l == Leaf(Unit(t)) then r
    else if r == Leaf(Zero(t)) then Leaf(Zero(t))
    else if r == Leaf(Unit(t)) then l
    else Bin(t, l, r)
  }

  function EliminateYn(e: Expr): Expr {
    if e.Bin? then FoldYn(e.op, EliminateYn(e.left), EliminateYn(e.right)) else e
  }

  /** No AND/OR node outside NOT has y or n as an operand. */
  predicate YnFree(e: Expr) {
    e.Bin? ==>
      && e.left != E_YES && e.left != E_NO && e.right != E_YES && e.right != E_NO
      && YnFree(e.left) && YnFree(e.right)
  }

  lemma {:induction false} EliminateYnValue(e: Expr, env: Env)
    requires env.Valid()
    ensures Calc(EliminateYn(e), env) == Calc(e, env)
  {
    if e.Bin? {
      EliminateYnValue(e.left, env);
      EliminateYnValue(e.right, env);
    }
  }

  /** The result has no constant operand, and the tree shrinks exactly when there was one. */
  lemma {:induction false} EliminateYnNormal(e: Expr)
    ensures YnFree(EliminateYn(e))
    ensures Size(EliminateYn(e)) <= Size(e)
    ensures YnFree(e) <==> EliminateYn(e) == e
    ensures !YnFree(e) <==> Size(EliminateYn(e)) < Size(e)
  {
    if e.Bin? {
      EliminateYnNormal(e.left);
      EliminateYnNormal(e.right);
    }
  }

  // ----- expr_transform ------------------------------------------------------

  /**
   * Termination weight of expr_transform.  De Morgan makes the tree larger and `BOOL = n` becomes a
   * NOT above a symbol, so NOT doubles and a comparison weighs as much as a negated symbol.
   */
  function Weight(e: Expr): nat
    ensures Weight(e) >= 1
  {
    match e
    case Leaf(_) => 1
    case Not(a) => 2 * Weight(a)
    case Bin(_, l, r) => 1 + Weight(l) + Weight(r)
    case Cmp(_, _, _) => 2
  }

  /** The E_EQUAL and E_UNEQUAL cases: a boolean symbol compared with y, m or n. */
  function TransformCmp(c: CmpOp, l: Symbol, r: Symbol): Expr {
    if l.Type() != Boolean then Cmp(c, l, r)
    else if r == SYM_NO then (if c == Equal then Not(Leaf(l)) else Leaf(l))
    else if r == SYM_MOD then (if c == Equal then E_NO else E_YES)
    else if r == SYM_YES then (if c == Equal then Leaf(l) else Not(Leaf(l)))
    else Cmp(c, l, r)
  }

  function Flip(c: CmpOp): CmpOp { if c == Equal then Unequal else Equal }

  /** The E_NOT case above an E_SYMBOL. */
  function NegateSym(s: Symbol): Expr {
    if s == SYM_YES then E_NO
    else if s == SYM_MOD then Leaf(SYM_MOD)
    else if s == SYM_NO then E_YES
    else Not(Leaf(s))
  }

  /** The tree that De Morgan's law builds in the E_NOT case. */
  function DeMorgan(t: BinOp, l: Expr, r: Expr): (e: Expr)
    ensures Weight(e) < 2 * Weight(Bin(t, l, r))
  {
    assert Weight(Not(l)) == 2 * Weight(l) && Weight(Not(r)) == 2 * Weight(r);
    Bin(Dual(t), Not(l), Not(r))
  }

  function Transform(e: Expr): (r: Expr)
    ensures Weight(r) <= Weight(e)
    decreases Weight(e)
  {
    match e
    case Leaf(_) => e
    case Cmp(c, l, r) => TransformCmp(c, l, r)
    case Bin(t, l, r) => Bin(t, Transform(l), Transform(r))
    case Not(a) =>
      match Transform(a)
      case Not(b) => Transform(b)
      case Cmp(c, l, r) => Cmp(Flip(c), l, r)
      case Bin(t, l, r) => Transform(DeMorgan(t, l, r))
      case Leaf(s) => NegateSym(s)
  }

  lemma {:induction false} TransformValue(e: Expr, env: Env)
    requires env.Valid()
    ensures Calc(Transform(e), env) == Calc(e, env)
    decreases Weight(e)
  {
    match e
    case Leaf(_) =>
    case Cmp(_, l, r) =>
    case Bin(t, l, r) =>
      TransformValue(l, env);
      TransformValue(r, env);
    case Not(a) =>
      TransformValue(a, env);
      match Transform(a)
      case Not(b) => TransformValue(b, env);
      case Cmp(_, _, _) =>
      case Bin(t, l, r) => TransformValue(DeMorgan(t, l, r), env);
      case Leaf(_) =>
  }

  /** NOT stands only directly above symbols other than y, m and n. */
  predicate NotAtSymbols(e: Expr) {
    match e
    case Leaf(_) => true
    case Cmp(_, _, _) => true
    case Bin(_, l, r) => NotAtSymbols(l) && NotAtSymbols(r)
    case Not(a) => a.Leaf? && !IsTriConst(a.sym)
  }

  /** No boolean symbol is compared with y, m or n. */
  predicate BooleansBare(e: Expr) {
    match e
    case Leaf(_) => true
    case Cmp(_, l, r) => l.Type() == Boolean ==> !IsTriConst(r)
    case Bin(_, l, r) => BooleansBare(l) && BooleansBare(r)
    case Not(a) => BooleansBare(a)
  }

  predicate Transformed(e: Expr) { NotAtSymbols(e) && BooleansBare(e) }

  lemma {:induction false} TransformNormal(e: Expr)
    ensures Transformed(Transform(e))
    decreases Weight(e)
  {
    match e
    case Leaf(_) =>
    case Cmp(_, _, _) =>
    case Bin(_, l, r) =>
      TransformNormal(l);
      TransformNormal(r);
    case Not(a) =>
      TransformNormal(a);
      match Transform(a)
      case Not(b) => TransformNormal(b);
      case Cmp(_, _, _) =>
      case Bin(t, l, r) => TransformNormal(DeMorgan(t, l, r));
      case Leaf(_) =>
  }

  lemma {:induction false} TransformedIsFixed(e: Expr)
    requires Transformed(e)
    ensures Transform(e) == e
  {
    match e
    case Leaf(_) =>
    case Cmp(_, _, _) =>
    case Bin(_, l, r) =>
      TransformedIsFixed(l);
      TransformedIsFixed(r);
    case Not(a) => assert Transform(a) == a;
  }

  /** A tree is left as it is exactly when it is already in normal form. */
  lemma {:induction false} TransformIdempotent(e: Expr)
    ensures Transform(Transform(e)) == Transform(e)
    ensures Transform(e) == e <==> Transformed(e)
  {
    TransformNormal(e);
    TransformedIsFixed(Transform(e));
    if Transformed(e) {
      TransformedIsFixed(e);
    }
  }

  // ----- expr_trans_bool -----------------------------------------------------

  /** `TRISTATE != n` becomes the bare symbol, also below NOT. */
  function TransBool(e: Expr): Expr {
    match e
    case Leaf(_) => e
    case Not(a) => Not(TransBool(a))
    case Bin(t, l, r) => Bin(t, TransBool(l), TransBool(r))
    case Cmp(c, l, r) => if c == Unequal && l.Type() == Tri && r == SYM_NO then Leaf(l) else e
  }

  /** Somewhere a tristate symbol is compared with n by `!=`. */
  predicate ComparesWithNo(e: Expr) {
    match e
    case Leaf(_) => false
    case Not(a) => ComparesWithNo(a)
    case Bin(_, l, r) => ComparesWithNo(l) || ComparesWithNo(r)
    case Cmp(c, l, r) => c == Unequal && r == SYM_NO && l.Type() == Tri
  }

  /** No such comparison is left anywhere, and a tree without one is left as it is. */
  lemma {:induction false} TransBoolLeavesNone(e: Expr)
    ensures !ComparesWithNo(TransBool(e))
    ensures TransBool(e) == e <==> !ComparesWithNo(e)
  {
    match e
    case Leaf(_) =>
    case Cmp(_, _, _) =>
    case Not(a) => TransBoolLeavesNone(a);
    case Bin(_, l, r) =>
      TransBoolLeavesNone(l);
      TransBoolLeavesNone(r);
  }

  lemma {:induction false} TransBoolNots(e: Expr)
    requires NotAtSymbols(e)
    ensures NotAtSymbols(TransBool(e))
  {
    if e.Bin? {
      TransBoolNots(e.left);
      TransBoolNots(e.right);
    }
  }

  /** Where NOT stands only above symbols, being n or not n is preserved, and values never rise. */
  lemma {:induction false} TransBoolKeepsNo(e: Expr, env: Env)
    requires env.Valid() && NotAtSymbols(e)
    ensures Calc(TransBool(e), env) == NO <==> Calc(e, env) == NO
    ensures Calc(TransBool(e), env) <= Calc(e, env)
  {
    match e
    case Leaf(_) =>
    case Cmp(_, _, _) =>
    case Not(a) =>
    case Bin(_, l, r) =>
      TransBoolKeepsNo(l, env);
      TransBoolKeepsNo(r, env);
  }

  // ----- expr_trans_compare with symbol_no -----------------------------------

  /** expr_trans_compare(e, type, &symbol_no) on a non-NULL expression. */
  function CompareNo(e: Expr, c: CmpOp): Expr {
    match e
    case Bin(t, l, r) =>
      var both := Bin(Dual(t), CompareNo(l, Equal), CompareNo(r, Equal));
      if c == Unequal then Not(both) else both
    case Not(a) => CompareNo(a, Flip(c))
    case Cmp(_, _, _) => if c == Equal then Not(e) else e
    case Leaf(s) => Cmp(c, s, SYM_NO)
  }

  /** expr_trans_compare on a pointer that may be NULL: the constant itself, negated for E_UNEQUAL. */
  function CompareNoOpt(e: Option<Expr>, c: CmpOp): Expr {
    if e.Some? then CompareNo(e.value, c)
    else if c == Unequal then Not(E_NO) else E_NO
  }

  /** Every symbol operand outside comparisons is boolean, tristate or one of y, m, n. */
  predicate OperandsAreTri(e: Expr) {
    match e
    case Leaf(s) => s.Type() == Boolean || s.Type() == Tri || IsTriConst(s)
    case Cmp(_, _, _) => true
    case Not(a) => OperandsAreTri(a)
    case Bin(_, l, r) => OperandsAreTri(l) && OperandsAreTri(r)
  }

  /** The expression read with two values, every m taken for y: NOT of an m is then n. */
  predicate Up(e: Expr, env: Env) {
    match e
    case Leaf(s) => env.tri(s) != NO
    case Cmp(_, _, _) => Calc(e, env) == YES
    case Not(a) => !Up(a, env)
    case Bin(t, l, r) => if t == AndOp then Up(l, env) && Up(r, env) else Up(l, env) || Up(r, env)
  }

  /** Both readings agree on y and n. */
  lemma {:induction false} UpValue(e: Expr, env: Env)
    ensures Calc(e, env) != MOD ==> (Up(e, env) <==> Calc(e, env) == YES)
  {
    match e
    case Leaf(_) =>
    case Cmp(_, _, _) =>
    case Not(a) => UpValue(a, env);
    case Bin(_, l, r) =>
      UpValue(l, env);
      UpValue(r, env);
  }

  /** What the rewritten comparison computes is the two-valued reading, whatever the values. */
  lemma {:induction false} CompareNoIsUp(e: Expr, c: CmpOp, env: Env)
    requires env.Valid() && OperandsAreTri(e)
    ensures Calc(CompareNo(e, c), env) == if Up(e, env) == (c == Unequal) then YES else NO
  {
    match e
    case Leaf(s) =>
      assert env.str(SYM_NO) == "n" && env.str(SYM_YES) == "y" && env.str(SYM_MOD) == "m";
      assert env.str(s) == TriName(env.tri(s));
    case Cmp(_, _, _) =>
    case Not(a) => CompareNoIsUp(a, Flip(c), env);
    case Bin(_, l, r) =>
      CompareNoIsUp(l, Equal, env);
      CompareNoIsUp(r, Equal, env);
  }

  /**
   * So the rewritten `e != n` is never m, and it is right on an assignment if and only if the
   * expression is not m there or its two-valued reading holds.
   */
  lemma {:induction false} CompareNoExactly(e: Expr, env: Env)
    requires env.Valid() && OperandsAreTri(e)
    ensures Calc(CompareNo(e, Unequal), env) != MOD && Calc(CompareNo(e, Equal), env) != MOD
    ensures (Calc(CompareNo(e, Unequal), env) == YES <==> Calc(e, env) != NO) <==> (Calc(e, env) != MOD || Up(e, env))
    ensures (Calc(CompareNo(e, Equal), env) == YES <==> Calc(e, env) == NO) <==> (Calc(e, env) != MOD || Up(e, env))
  {
    CompareNoIsUp(e, Unequal, env);
    CompareNoIsUp(e, Equal, env);
    UpValue(e, env);
  }

  /** No operand of a NOT is m. */
  predicate NotsTwoValued(e: Expr, env: Env) {
    match e
    case Leaf(_) => true
    case Cmp(_, _, _) => true
    case Not(a) => Calc(a, env) != MOD && NotsTwoValued(a, env)
    case Bin(_, l, r) => NotsTwoValued(l, env) && NotsTwoValued(r, env)
  }

  /** In particular it is right where no NOT stands above an m. */
  lemma {:induction false} NotsTwoValuedIsUp(e: Expr, env: Env)
    requires NotsTwoValued(e, env)
    ensures Up(e, env) <==> Calc(e, env) != NO
  {
    match e
    case Leaf(_) =>
    case Cmp(_, _, _) =>
    case Not(a) => NotsTwoValuedIsUp(a, env);
    case Bin(_, l, r) =>
      NotsTwoValuedIsUp(l, env);
      NotsTwoValuedIsUp(r, env);
  }

  /** `!X` is m for X = m, but the rewritten `!X != n` is n. */
  lemma {:induction false} CompareNoLosesMod(x: Symbol, env: Env)
    requires env.Valid() && x.Type() == Tri
    ensures (Calc(CompareNo(Not(Leaf(x)), Unequal), env) == YES <==> Calc(Not(Leaf(x)), env) != NO) <==>
      env.tri(x) != MOD
  {
    CompareNoExactly(Not(Leaf(x)), env);
  }
}
