/** A tree on which expr_eliminate_dups loses an m: two operands that contradict each other are both m. */
module DupClash {
  import opened Options
  import opened Tristates
  import opened Exprs
  import opened Transforms
  import opened ExprEquality
  import opened Joins
  import opened Slots
  import opened DupElimination

  /** A pair of operands that leaves the tree alone in the first pass. */
  lemma {:induction false} PairStays(t: BinOp, e: Expr, p1: Slot, p2: Slot)
    requires IsOp(t, e) && IsOperand(t, e, p1) && IsOperand(t, e, p2)
    requires At(t, e, p1).Bin? ==> JoinPass(At(t, e, p1).op, At(t, e, p1), [], []) == (At(t, e, p1), 0)
    requires p1 != p2 ==> Join(t, At(t, e, p1), At(t, e, p2)).None?
    ensures JoinPass(t, e, p1, p2) == (e, 0)
  {
    PutBack(t, e, p1);
  }

  /** One operand of `X t (Y t Z)` against all three. */
  lemma {:induction false} OperandStays(t: BinOp, x: Expr, y: Expr, z: Expr, p: Slot)
    requires !IsOp(t, x) && !IsOp(t, y) && !IsOp(t, z) && p in [[false], [true, false], [true, true]]
    requires var e := Bin(t, x, Bin(t, y, z));
      && IsOperand(t, e, p)
      && (At(t, e, p).Bin? ==> JoinPass(At(t, e, p).op, At(t, e, p), [], []) == (At(t, e, p), 0))
      && (p != [false] ==> Join(t, At(t, e, p), x).None?)
      && (p != [true, false] ==> Join(t, At(t, e, p), y).None?)
      && (p != [true, true] ==> Join(t, At(t, e, p), z).None?)
    ensures JoinPass(t, Bin(t, x, Bin(t, y, z)), p, []) == (Bin(t, x, Bin(t, y, z)), 0)
  {
    var e := Bin(t, x, Bin(t, y, z));
    ThreeSlots(t, x, y, z);
    PairStays(t, e, p, [false]);
    PairStays(t, e, p, [true, false]);
    PairStays(t, e, p, [true, true]);
    assert [true] + [false] == [true, false] && [true] + [true] == [true, true];
    assert JoinPass(t, e, p, [true]) == (e, 0);
    assert [] + [false] == [false] && [] + [true] == [true];
  }

  lemma {:induction false} ThreeSlots(t: BinOp, x: Expr, y: Expr, z: Expr)
    ensures var e := Bin(t, x, Bin(t, y, z));
      && OnSpine(t, e, []) && OnSpine(t, e, [false]) && OnSpine(t, e, [true])
      && OnSpine(t, e, [true, false]) && OnSpine(t, e, [true, true])
      && At(t, e, []) == e && At(t, e, [false]) == x && At(t, e, [true]) == Bin(t, y, z)
      && At(t, e, [true, false]) == y && At(t, e, [true, true]) == z
  {
    var e := Bin(t, x, Bin(t, y, z));
    Descend(t, e, [], false);
    Descend(t, e, [], true);
    assert [] + [false] == [false] && [] + [true] == [true];
    Descend(t, e, [true], false);
    Descend(t, e, [true], true);
    assert [true] + [false] == [true, false] && [true] + [true] == [true, true];
  }

  lemma {:induction false} TwoSlots(t: BinOp, x: Expr, y: Expr)
    ensures var e := Bin(t, x, y);
      OnSpine(t, e, []) && OnSpine(t, e, [false]) && OnSpine(t, e, [true]) &&
      At(t, e, [false]) == x && At(t, e, [true]) == y
  {
    var e := Bin(t, x, y);
    Descend(t, e, [], false);
    Descend(t, e, [], true);
    assert [] + [false] == [false] && [] + [true] == [true];
  }

  lemma {:induction false} ThreeStay(t: BinOp, x: Expr, y: Expr, z: Expr)
    requires !IsOp(t, x) && !y.Bin? && !z.Bin? && (x.Bin? ==> JoinPass(x.op, x, [], []) == (x, 0))
    requires Join(t, x, y).None? && Join(t, x, z).None? && Join(t, y, x).None?
    requires Join(t, y, z).None? && Join(t, z, x).None? && Join(t, z, y).None?
    ensures JoinPass(t, Bin(t, x, Bin(t, y, z)), [], []) == (Bin(t, x, Bin(t, y, z)), 0)
  {
    var e := Bin(t, x, Bin(t, y, z));
    ThreeSlots(t, x, y, z);
    OperandStays(t, x, y, z, [false]);
    OperandStays(t, x, y, z, [true, false]);
    OperandStays(t, x, y, z, [true, true]);
    assert [true] + [false] == [true, false] && [true] + [true] == [true, true];
    assert JoinPass(t, e, [true], []) == (e, 0);
    assert [] + [false] == [false] && [] + [true] == [true];
  }

  lemma {:induction false} TwoStay(t: BinOp, x: Expr, y: Expr)
    requires !x.Bin? && !y.Bin? && Join(t, x, y).None? && Join(t, y, x).None?
    ensures JoinPass(t, Bin(t, x, y), [], []) == (Bin(t, x, y), 0)
  {
    var e := Bin(t, x, y);
    TwoSlots(t, x, y);
    PairStays(t, e, [false], [false]);
    PairStays(t, e, [false], [true]);
    PairStays(t, e, [true], [false]);
    PairStays(t, e, [true], [true]);
    assert [] + [false] == [false] && [] + [true] == [true];
    assert JoinPass(t, e, [false], []) == (e, 0) && JoinPass(t, e, [true], []) == (e, 0);
  }

  /** Operands that are not AND or OR nodes themselves are never cancelled. */
  lemma {:induction false} PlainStays(t: BinOp, e: Expr, p1: Slot, p2: Slot)
    requires IsOp(t, e) && OnSpine(t, e, p1) && OnSpine(t, e, p2) && !At(t, e, p1).Bin?
    ensures CancelPass(t, e, p1, p2) == (e, 0)
    decreases SpineNodes(t, At(t, e, p2))
  {
    if IsOp(t, At(t, e, p2)) {
      Descend(t, e, p2, false);
      Descend(t, e, p2, true);
      PlainStays(t, e, p1, p2 + [false]);
      PlainStays(t, e, p1, p2 + [true]);
    }
  }

  /** `(F s B) t (!F t !B)`, where `s` is the dual of `t`. */
  function Clash(t: BinOp, f: Symbol, b: Symbol): Expr {
    Bin(t, Bin(Dual(t), Leaf(f), Leaf(b)), Negated(t, f, b))
  }

  function Negated(t: BinOp, f: Symbol, b: Symbol): Expr { Bin(t, Not(Leaf(f)), Not(Leaf(b))) }

  /** The negation of the first half of such a tree, transformed, is the second half. */
  lemma {:induction false} NegatedIsNegation(t: BinOp, f: Symbol, b: Symbol)
    requires !IsTriConst(f) && !IsTriConst(b)
    ensures Transform(Not(Bin(Dual(t), Leaf(f), Leaf(b)))) == Negated(t, f, b)
  {
    var x := Bin(Dual(t), Leaf(f), Leaf(b));
    assert Transform(x) == x;
    assert DeMorgan(Dual(t), Leaf(f), Leaf(b)) == Negated(t, f, b);
    assert Transform(Not(Leaf(f))) == Not(Leaf(f));
    assert Transform(Not(Leaf(b))) == Not(Leaf(b));
  }

  lemma {:induction false} NegatedLeavesEqual(f: Symbol, b: Symbol)
    ensures ExprEq(Not(Leaf(f)), Not(Leaf(b))) <==> f == b
  {
    assert ExprEq(Leaf(f), Leaf(b)) <==> f == b;
  }

  lemma {:induction false} ExtractNegated(t: BinOp, f: Symbol, b: Symbol)
    requires f != b
    ensures ExtractEq(t, None, Negated(t, f, b), Negated(t, f, b)).1 == Bin(t, Leaf(Unit(t)), Leaf(Unit(t)))
    ensures ExtractEq(t, None, Negated(t, f, b), Negated(t, f, b)).0.Some?
  {
    var u, nf, nb := Leaf(Unit(t)), Not(Leaf(f)), Not(Leaf(b));
    var n := Negated(t, f, b);
    NegatedLeavesEqual(f, f);
    NegatedLeavesEqual(f, b);
    NegatedLeavesEqual(b, b);
    assert ExtractEq(t, None, nf, nf) == (Some(nf), u, u);
    assert ExtractEq(t, Some(nf), u, nb) == (Some(nf), u, nb);
    assert ExtractEq(t, None, nf, n) == (Some(nf), u, Bin(t, u, nb));
    assert ExtractEq(t, Some(nf), nb, u) == (Some(nf), nb, u);
    assert ExtractEq(t, Some(nf), nb, nb) == (Some(Bin(t, nf, nb)), u, u);
    assert ExtractEq(t, Some(nf), nb, Bin(t, u, nb)) == (Some(Bin(t, nf, nb)), u, Bin(t, u, u));
  }

  /** The first half contradicts the second as a whole, but neither of its operands. */
  lemma {:induction false} OnlyWholeContradicts(t: BinOp, f: Symbol, b: Symbol)
    requires f != b && !IsTriConst(f) && !IsTriConst(b)
    ensures var x := Bin(Dual(t), Leaf(f), Leaf(b));
      Contradicts(x, Negated(t, f, b)) && !Contradicts(x, Not(Leaf(f))) && !Contradicts(x, Not(Leaf(b)))
  {
    var u, nf, nb := Leaf(Unit(t)), Not(Leaf(f)), Not(Leaf(b));
    NegatedIsNegation(t, f, b);
    ExtractNegated(t, f, b);
    NegatedLeavesEqual(f, f);
    NegatedLeavesEqual(f, b);
    NegatedLeavesEqual(b, b);
    assert Dual(Dual(t)) == t && EliminateYn(Bin(t, u, u)) == u;
    assert ExtractEq(t, None, nf, nf) == (Some(nf), u, u);
    assert ExtractEq(t, Some(nf), nb, u) == (Some(nf), nb, u);
    assert ExtractEq(t, None, Negated(t, f, b), nf).1 == Bin(t, u, nb);
    assert EliminateYn(Bin(t, u, nb)) == nb;
    assert ExtractEq(t, None, nf, nb) == (None, nf, nb);
    assert ExtractEq(t, None, nb, nb) == (Some(nb), u, u);
    assert ExtractEq(t, None, Negated(t, f, b), nb).1 == Bin(t, nf, u);
    assert EliminateYn(Bin(t, nf, u)) == nf;
  }

  /** Where the first half is tested against one operand of the second, nothing happens. */
  lemma {:induction false} ClashStays(t: BinOp, f: Symbol, b: Symbol, p: Slot)
    requires f != b && !IsTriConst(f) && !IsTriConst(b) && p in [[true, false], [true, true]]
    ensures OnSpine(t, Clash(t, f, b), [false]) && OnSpine(t, Clash(t, f, b), p)
    ensures CancelPass(t, Clash(t, f, b), [false], p) == (Clash(t, f, b), 0)
  {
    var e, x, n := Clash(t, f, b), Bin(Dual(t), Leaf(f), Leaf(b)), Negated(t, f, b);
    ThreeSlots(t, x, n.left, n.right);
    OnlyWholeContradicts(t, f, b);
    InnerCancelsNothing(Dual(t), f, b);
    PutBack(t, e, [false]);
    assert CancelOperand(t, e, [false], p) == (e, 0);
  }

  /** Against the second half as a whole it becomes the zero of the spine. */
  lemma {:induction false} ClashGoes(t: BinOp, f: Symbol, b: Symbol)
    requires f != b && !IsTriConst(f) && !IsTriConst(b)
    ensures OnSpine(t, Clash(t, f, b), [false]) && OnSpine(t, Clash(t, f, b), [true])
    ensures CancelPass(t, Clash(t, f, b), [false], [true]) == (Bin(t, Leaf(Zero(t)), Negated(t, f, b)), 1)
  {
    var e, x, n := Clash(t, f, b), Bin(Dual(t), Leaf(f), Leaf(b)), Negated(t, f, b);
    ThreeSlots(t, x, n.left, n.right);
    ClashStays(t, f, b, [true, false]);
    ClashStays(t, f, b, [true, true]);
    assert [true] + [false] == [true, false] && [true] + [true] == [true, true];
    assert CancelBelow(t, e, [false], [true]) == (e, 0);
    OnlyWholeContradicts(t, f, b);
    InnerCancelsNothing(Dual(t), f, b);
    PutBack(t, e, [false]);
    assert Put(t, e, [false], Leaf(Zero(t))) == Bin(t, Leaf(Zero(t)), n) by {
      assert [false][1..] == [];
    }
    assert CancelOperand(t, e, [false], [true]) == (Bin(t, Leaf(Zero(t)), n), 1);
  }

  /** The second pass on such a tree. */
  lemma {:induction false} ClashIsCancelled(t: BinOp, f: Symbol, b: Symbol)
    requires f != b && !IsTriConst(f) && !IsTriConst(b)
    ensures CancelPass(t, Clash(t, f, b), [], []) == (Bin(t, Leaf(Zero(t)), Negated(t, f, b)), 1)
  {
    var e, x, n := Clash(t, f, b), Bin(Dual(t), Leaf(f), Leaf(b)), Negated(t, f, b);
    var e' := Bin(t, Leaf(Zero(t)), n);
    ThreeSlots(t, x, n.left, n.right);
    ThreeSlots(t, Leaf(Zero(t)), n.left, n.right);
    ClashGoes(t, f, b);
    assert [] + [false] == [false] && [] + [true] == [true];
    assert CancelPass(t, e, [false], [false]) == (e, 0);
    assert CancelBelow(t, e, [false], []) == (e', 1);
    assert CancelPass(t, e, [false], []) == (e', 1);
    assert [true] + [false] == [true, false] && [true] + [true] == [true, true];
    PlainStays(t, e', [true, false], []);
    PlainStays(t, e', [true, true], []);
    assert CancelPass(t, e', [true], []) == (e', 0);
  }

  lemma {:induction false} InnerCancelsNothing(t: BinOp, f: Symbol, b: Symbol)
    ensures var x := Bin(t, Leaf(f), Leaf(b)); CancelPass(t, x, [], []) == (x, 0)
  {
    TwoPlainStay(t, Leaf(f), Leaf(b));
  }

  lemma {:induction false} TwoPlainStay(t: BinOp, a: Expr, b: Expr)
    requires !a.Bin? && !b.Bin?
    ensures CancelPass(t, Bin(t, a, b), [], []) == (Bin(t, a, b), 0)
  {
    var x := Bin(t, a, b);
    TwoSlots(t, a, b);
    assert [] + [false] == [false] && [] + [true] == [true];
    PlainStays(t, x, [false], []);
    PlainStays(t, x, [true], []);
  }

  /**
   * So (FOO || BAR) && (!FOO && !BAR) becomes n and (FOO && BAR) || (!FOO || !BAR) becomes y, although
   * FOO = BAR = m makes both m.
   */
  lemma {:induction false} ClashLosesMod(t: BinOp, f: Symbol, b: Symbol, env: Env)
    requires f != b && f.Type() == Tri && b.Type() == Tri && env.tri(f) == MOD && env.tri(b) == MOD
    ensures DupFree(Clash(t, f, b)) == Leaf(Zero(t)) && Calc(Clash(t, f, b), env) == MOD
  {
    var e := Clash(t, f, b);
    var z := Bin(t, Leaf(Zero(t)), Negated(t, f, b));
    TwoStay(Dual(t), Leaf(f), Leaf(b));
    ThreeStay(t, Bin(Dual(t), Leaf(f), Leaf(b)), Not(Leaf(f)), Not(Leaf(b)));
    ClashIsCancelled(t, f, b);
    assert Round(e) == (z, 1);
    assert EliminateYn(z) == Leaf(Zero(t));
    assert Round(Leaf(Zero(t))) == (Leaf(Zero(t)), 0);
    assert Calc(Bin(Dual(t), Leaf(f), Leaf(b)), env) == MOD;
    assert Calc(Negated(t, f, b), env) == MOD by {
      assert Calc(Not(Leaf(f)), env) == MOD;
      assert Calc(Not(Leaf(b)), env) == MOD;
    }
  }
}
