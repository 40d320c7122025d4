/** expr_eq with expr_eliminate_eq, and expr_extract_eq: trees compared up to operand order. */
module ExprEquality {
  import opened Tristates
  import opened Exprs
  import opened Transforms

  /** Both slots hold the same y or the same n: __expr_eliminate_eq leaves them alone. */
  predicate SameConst(a: Expr, b: Expr) { a == b && (a == E_YES || a == E_NO) }

  /**
   * __expr_eliminate_eq: cancel operands of the `t`-spines of two trees pairwise.  The result pair
   * is what the two slots hold afterwards, the second call of each branch seeing what the first did.
   */
  function CancelEq(t: BinOp, a: Expr, b: Expr): (r: (Expr, Expr))
    ensures Size(r.0) <= Size(a) && Size(r.1) <= Size(b)
    ensures IsOp(t, a) ==> IsOp(t, r.0)
    ensures IsOp(t, b) ==> IsOp(t, r.1)
    decreases Size(a) + Size(b), if IsOp(t, a) || IsOp(t, b) then 0 else 4
  {
    if IsOp(t, a) then
      var (l, b1) := CancelEq(t, a.left, b);
      var (r, b2) := CancelEq(t, a.right, b1);
      (Bin(t, l, r), b2)
    else if IsOp(t, b) then
      var (a1, l) := CancelEq(t, a, b.left);
      var (a2, r) := CancelEq(t, a1, b.right);
      (a2, Bin(t, l, r))
    else if SameConst(a, b) || !ExprEq(a, b) then (a, b)
    else (Leaf(Unit(t)), Leaf(Unit(t)))
  }

  /** The passes of expr_eliminate_eq before its calls of expr_eliminate_yn. */
  function CancelPasses(a: Expr, b: Expr): (r: (Expr, Expr))
    ensures Size(r.0) <= Size(a) && Size(r.1) <= Size(b)
    decreases Size(a) + Size(b), 1
  {
    var (a1, b1) := if a.Bin? then CancelEq(a.op, a, b) else (a, b);
    if b1.Bin? && !IsOp(b1.op, a1) then CancelEq(b1.op, a1, b1) else (a1, b1)
  }

  /** expr_eliminate_eq on two non-NULL slots. */
  function EliminateEq(a: Expr, b: Expr): (r: (Expr, Expr))
    decreases Size(a) + Size(b), 2
  {
    var (a1, b1) := CancelPasses(a, b);
    (EliminateYn(a1), EliminateYn(b1))
  }

  /** expr_eq: AND and OR trees are copied, cancelled, and must leave the same symbol. */
  predicate ExprEq(a: Expr, b: Expr)
    decreases Size(a) + Size(b), 3
  {
    match a
    case Leaf(_) => a == b
    case Cmp(_, _, _) => a == b
    case Not(x) => b.Not? && ExprEq(x, b.arg)
    case Bin(t, _, _) =>
      IsOp(t, b) &&
      var (a1, b1) := EliminateEq(a, b);
      a1.Leaf? && a1 == b1
  }

  lemma {:induction false} OpLaws(t: BinOp, a: Tristate, b: Tristate, c: Tristate, d: Tristate)
    ensures OpVal(t, OpVal(t, a, b), OpVal(t, c, d)) == OpVal(t, OpVal(t, a, c), OpVal(t, b, d))
    ensures OpVal(t, OpVal(t, a, b), c) == OpVal(t, a, OpVal(t, c, b))
  {}

  /** What the cancelled operands were worth together: `c` joined back on either side gives the old value. */
  lemma {:induction false} CancelEqValue(t: BinOp, a: Expr, b: Expr, env: Env) returns (c: Tristate)
    requires env.Valid()
    ensures Calc(a, env) == OpVal(t, Calc(CancelEq(t, a, b).0, env), c)
    ensures Calc(b, env) == OpVal(t, Calc(CancelEq(t, a, b).1, env), c)
    decreases Size(a) + Size(b), if IsOp(t, a) || IsOp(t, b) then 0 else 4
  {
    if IsOp(t, a) {
      var (l, b1) := CancelEq(t, a.left, b);
      var (r, b2) := CancelEq(t, a.right, b1);
      assert CancelEq(t, a, b) == (Bin(t, l, r), b2);
      var c1 := CancelEqValue(t, a.left, b, env);
      var c2 := CancelEqValue(t, a.right, b1, env);
      c := OpVal(t, c1, c2);
      OpLaws(t, Calc(l, env), c1, Calc(r, env), c2);
      OpLaws(t, Calc(b2, env), c2, c1, c1);
      assert Calc(a, env) == OpVal(t, Calc(a.left, env), Calc(a.right, env));
    } else if IsOp(t, b) {
      var (a1, l) := CancelEq(t, a, b.left);
      var (a2, r) := CancelEq(t, a1, b.right);
      assert CancelEq(t, a, b) == (a2, Bin(t, l, r));
      var c1 := CancelEqValue(t, a, b.left, env);
      var c2 := CancelEqValue(t, a1, b.right, env);
      c := OpVal(t, c1, c2);
      OpLaws(t, Calc(l, env), c1, Calc(r, env), c2);
      OpLaws(t, Calc(a2, env), c2, c1, c1);
      assert Calc(b, env) == OpVal(t, Calc(b.left, env), Calc(b.right, env));
    } else if SameConst(a, b) || !ExprEq(a, b) {
      c := OpUnit(t);
    } else {
      ExprEqSound(a, b, env);
      c := Calc(a, env);
    }
  }

  lemma {:induction false} CancelPassesOrder(a: Expr, b: Expr, env: Env)
    requires env.Valid()
    ensures var (a1, b1) := CancelPasses(a, b);
      && (Calc(a1, env) <= Calc(b1, env) ==> Calc(a, env) <= Calc(b, env))
      && (Calc(b1, env) <= Calc(a1, env) ==> Calc(b, env) <= Calc(a, env))
    decreases Size(a) + Size(b), 1
  {
    var (a1, b1) := if a.Bin? then CancelEq(a.op, a, b) else (a, b);
    if a.Bin? {
      CancelEqOrder(a.op, a, b, env);
    }
    if b1.Bin? && !IsOp(b1.op, a1) {
      CancelEqOrder(b1.op, a1, b1, env);
    }
  }

  lemma {:induction false} CancelEqOrder(t: BinOp, a: Expr, b: Expr, env: Env)
    requires env.Valid() && (IsOp(t, a) || IsOp(t, b))
    ensures var (a1, b1) := CancelEq(t, a, b);
      && (Calc(a1, env) <= Calc(b1, env) ==> Calc(a, env) <= Calc(b, env))
      && (Calc(b1, env) <= Calc(a1, env) ==> Calc(b, env) <= Calc(a, env))
    decreases Size(a) + Size(b), 1, 0
  {
    var c := CancelEqValue(t, a, b, env);
    var (a1, b1) := CancelEq(t, a, b);
    OpMonotone(t, Calc(a1, env), Calc(b1, env), c);
  }

  lemma {:induction false} OpMonotone(t: BinOp, a: Tristate, b: Tristate, c: Tristate)
    ensures a <= b ==> OpVal(t, a, c) <= OpVal(t, b, c)
    ensures b <= a ==> OpVal(t, b, c) <= OpVal(t, a, c)
  {}

  /** The order between what is left in the two slots is the order between the original trees. */
  lemma {:induction false} EliminateEqOrder(a: Expr, b: Expr, env: Env)
    requires env.Valid()
    ensures var (a1, b1) := EliminateEq(a, b);
      && (Calc(a1, env) <= Calc(b1, env) ==> Calc(a, env) <= Calc(b, env))
      && (Calc(b1, env) <= Calc(a1, env) ==> Calc(b, env) <= Calc(a, env))
    decreases Size(a) + Size(b), 2
  {
    var (a2, b2) := CancelPasses(a, b);
    CancelPassesOrder(a, b, env);
    EliminateYnValue(a2, env);
    EliminateYnValue(b2, env);
  }

  /** expr_eq never equates expressions of different value. */
  lemma {:induction false} ExprEqSound(a: Expr, b: Expr, env: Env)
    requires env.Valid() && ExprEq(a, b)
    ensures Calc(a, env) == Calc(b, env)
    decreases Size(a) + Size(b), 3
  {
    match a
    case Leaf(_) =>
    case Cmp(_, _, _) =>
    case Not(x) => ExprEqSound(x, b.arg, env);
    case Bin(_, _, _) => EliminateEqOrder(a, b, env);
  }

  /** If nothing but y is left of `dep2`, every assignment gives `dep` at most the value of `dep2`. */
  lemma {:induction false} EliminatedToYes(dep: Expr, dep2: Expr, env: Env)
    requires env.Valid() && EliminateEq(dep, dep2).1 == E_YES
    ensures Calc(dep, env) <= Calc(dep2, env)
  {
    EliminateEqOrder(dep, dep2, env);
  }

  /** How often the constant that decides the whole, y for OR and n for AND, stands among the operands. */
  function Zeros(t: BinOp, e: Expr): nat {
    if IsOp(t, e) then Zeros(t, e.left) + Zeros(t, e.right) else if e == Leaf(Zero(t)) then 1 else 0
  }

  /** Of these constants none is cancelled, even if both trees have it. */
  lemma {:induction false} ZerosStay(t: BinOp, a: Expr, b: Expr)
    ensures Zeros(t, CancelEq(t, a, b).0) == Zeros(t, a)
    ensures Zeros(t, CancelEq(t, a, b).1) == Zeros(t, b)
    decreases Size(a) + Size(b)
  {
    if IsOp(t, a) {
      ZerosStay(t, a.left, b);
      ZerosStay(t, a.right, CancelEq(t, a.left, b).1);
    } else if IsOp(t, b) {
      ZerosStay(t, a, b.left);
      ZerosStay(t, CancelEq(t, a, b.left).0, b.right);
    } else if ExprEq(a, b) && a != b {
      assert b != Leaf(Zero(t)) && a != Leaf(Zero(t));
    }
  }
}
