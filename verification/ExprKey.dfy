/** What expr_eq decides: equality of trees up to the order and grouping of AND/OR operands. */
module ExprKeys {
  import opened Options
  import opened Exprs
  import opened Transforms
  import opened ExprEquality
  import opened Joins

  /** An expression with its AND/OR operands gathered into a multiset. */
  datatype Key =
    | KSym(sym: Symbol)
    | KNot(arg: Key)
    | KCmp(cmp: CmpOp, lhs: Symbol, rhs: Symbol)
    | KBin(op: BinOp, operands: multiset<Key>)

  /** The operands of a `t`-spine, neutral constants not counted. */
  ghost function Operands(t: BinOp, e: Expr): multiset<Key>
    decreases Size(e), 1
  {
    if IsOp(t, e) then Operands(t, e.left) + Operands(t, e.right)
    else if e == Leaf(Unit(t)) then multiset{}
    else multiset{KeyOf(e)}
  }

  ghost function KeyOf(e: Expr): Key
    decreases Size(e), 0
  {
    match e
    case Leaf(s) => KSym(s)
    case Not(a) => KNot(KeyOf(a))
    case Cmp(c, l, r) => KCmp(c, l, r)
    case Bin(t, l, r) => KBin(t, Operands(t, l) + Operands(t, r))
  }

  /** No AND/OR anywhere has y or n as an operand. */
  predicate NoConstOperand(e: Expr) {
    match e
    case Leaf(_) => true
    case Cmp(_, _, _) => true
    case Not(a) => NoConstOperand(a)
    case Bin(_, l, r) =>
      && l != E_YES && l != E_NO && r != E_YES && r != E_NO
      && NoConstOperand(l) && NoConstOperand(r)
  }

  /** A `t`-spine in the middle of cancelling: neutral constants may stand among its operands. */
  predicate PartlyCancelled(t: BinOp, e: Expr) {
    if IsOp(t, e) then PartlyCancelled(t, e.left) && PartlyCancelled(t, e.right)
    else e == Leaf(Unit(t)) || (e != Leaf(Zero(t)) && NoConstOperand(e))
  }

  lemma {:induction false} ConstFreeIsPartlyCancelled(t: BinOp, e: Expr)
    requires NoConstOperand(e) && e != Leaf(Zero(t))
    ensures PartlyCancelled(t, e)
  {
    if IsOp(t, e) {
      ConstFreeIsPartlyCancelled(t, e.left);
      ConstFreeIsPartlyCancelled(t, e.right);
    }
  }

  lemma {:induction false} SplitDifference(l: multiset<Key>, r: multiset<Key>, b: multiset<Key>)
    ensures (l - b) + (r - (b - l)) == (l + r) - b
    ensures (b - l) - r == b - (l + r)
  {}

  /** What two-way cancelling leaves of two multisets. */
  predicate Difference(a: multiset<Key>, b: multiset<Key>, a1: multiset<Key>, b1: multiset<Key>) {
    a1 == a - b && b1 == b - a
  }

  /** `a1` and `b1` are what two-way cancelling leaves of `a` and `b`. */
  ghost predicate Cancelled(t: BinOp, a: Expr, b: Expr, a1: Expr, b1: Expr) {
    && PartlyCancelled(t, a1) && PartlyCancelled(t, b1)
    && Difference(Operands(t, a), Operands(t, b), Operands(t, a1), Operands(t, b1))
  }

  lemma {:induction false} DifferenceSplit(l: multiset<Key>, r: multiset<Key>, b: multiset<Key>, l1: multiset<Key>,
      r1: multiset<Key>, b1: multiset<Key>, b2: multiset<Key>)
    requires Difference(l, b, l1, b1) && Difference(r, b1, r1, b2)
    ensures Difference(l + r, b, l1 + r1, b2)
  {
    SplitDifference(l, r, b);
  }

  lemma {:induction false} OperandsOfBin(t: BinOp, l: Expr, r: Expr)
    ensures Operands(t, Bin(t, l, r)) == Operands(t, l) + Operands(t, r)
  {}

  lemma {:induction false} CancelledSplit(t: BinOp, l: Expr, r: Expr, b: Expr, l1: Expr, r1: Expr, b1: Expr, b2: Expr)
    requires Cancelled(t, l, b, l1, b1) && Cancelled(t, r, b1, r1, b2)
    ensures Cancelled(t, Bin(t, l, r), b, Bin(t, l1, r1), b2)
  {
    OperandsOfBin(t, l, r);
    OperandsOfBin(t, l1, r1);
    DifferenceSplit(Operands(t, l), Operands(t, r), Operands(t, b), Operands(t, l1), Operands(t, r1), Operands(t, b1),
        Operands(t, b2));
  }

  lemma {:induction false} CancelledFlip(t: BinOp, a: Expr, b: Expr, a1: Expr, b1: Expr)
    requires Cancelled(t, a, b, a1, b1)
    ensures Cancelled(t, b, a, b1, a1)
  {}

  /** Cancelling two spines is the two-way difference of their operand multisets. */
  lemma {:induction false} CancelEqIsDifference(t: BinOp, a: Expr, b: Expr)
    requires PartlyCancelled(t, a) && PartlyCancelled(t, b)
    ensures var (a1, b1) := CancelEq(t, a, b); Cancelled(t, a, b, a1, b1)
    decreases Size(a) + Size(b), if IsOp(t, a) || IsOp(t, b) then 0 else 5
  {
    if IsOp(t, a) {
      var (l, b1) := CancelEq(t, a.left, b);
      var (r, b2) := CancelEq(t, a.right, b1);
      CancelEqIsDifference(t, a.left, b);
      CancelEqIsDifference(t, a.right, b1);
      CancelledSplit(t, a.left, a.right, b, l, r, b1, b2);
    } else if IsOp(t, b) {
      var (a1, l) := CancelEq(t, a, b.left);
      var (a2, r) := CancelEq(t, a1, b.right);
      CancelEqIsDifference(t, a, b.left);
      CancelEqIsDifference(t, a1, b.right);
      CancelledFlip(t, a, b.left, a1, l);
      CancelledFlip(t, a1, b.right, a2, r);
      CancelledSplit(t, b.left, b.right, a, l, r, a1, a2);
      CancelledFlip(t, b, a, Bin(t, l, r), a2);
    } else {
      CancelOperands(t, a, b);
    }
  }

  lemma {:induction false} CancelOperands(t: BinOp, a: Expr, b: Expr)
    requires PartlyCancelled(t, a) && PartlyCancelled(t, b) && !IsOp(t, a) && !IsOp(t, b)
    ensures var (a1, b1) := CancelEq(t, a, b); Cancelled(t, a, b, a1, b1)
    decreases Size(a) + Size(b), 4
  {
    var u := Leaf(Unit(t));
    var (a1, b1) := CancelEq(t, a, b);
    if a == u || b == u {
      UnitStays(t, a, b);
    } else {
      ExprEqIsKeyEquality(a, b);
      OneEach(KeyOf(a), KeyOf(b));
      assert (a1, b1) == if ExprEq(a, b) then (u, u) else (a, b);
    }
  }

  lemma {:induction false} UnitStays(t: BinOp, a: Expr, b: Expr)
    requires !IsOp(t, a) && !IsOp(t, b) && (a == Leaf(Unit(t)) || b == Leaf(Unit(t)))
    ensures CancelEq(t, a, b) == (a, b)
  {}

  lemma {:induction false} OneEach(a: Key, b: Key)
    ensures multiset{a} - multiset{b} == if a == b then multiset{} else multiset{a}
    ensures multiset{b} - multiset{a} == if a == b then multiset{} else multiset{b}
  {}

  /** What expr_eliminate_yn leaves of a spine without zeros: a symbol for at most one operand. */
  lemma {:induction false} YnOfPartlyCancelled(t: BinOp, e: Expr)
    requires PartlyCancelled(t, e)
    ensures var r := EliminateYn(e);
      && r != Leaf(Zero(t))
      && (r == Leaf(Unit(t)) <==> Operands(t, e) == multiset{})
      && (r.Leaf? && r != Leaf(Unit(t)) ==> Operands(t, e) == multiset{KSym(r.sym)})
  {
    if IsOp(t, e) {
      YnOfPartlyCancelled(t, e.left);
      YnOfPartlyCancelled(t, e.right);
    } else if e.Bin? {
      ConstFreeIsYnFree(e);
      EliminateYnNormal(e);
    }
  }

  lemma {:induction false} ConstFreeIsYnFree(e: Expr)
    requires NoConstOperand(e)
    ensures YnFree(e)
  {
    if e.Bin? {
      ConstFreeIsYnFree(e.left);
      ConstFreeIsYnFree(e.right);
    }
  }

  /**
   * On trees without constant operands expr_eq answers 1 exactly for trees that are the same up to
   * commuting and regrouping AND and OR, at every level.
   */
  lemma {:induction false} ExprEqIsKeyEquality(a: Expr, b: Expr)
    requires NoConstOperand(a) && NoConstOperand(b)
    ensures ExprEq(a, b) <==> KeyOf(a) == KeyOf(b)
    decreases Size(a) + Size(b), 3
  {
    if a.Not? && b.Not? {
      ExprEqIsKeyEquality(a.arg, b.arg);
    } else if a.Bin? && IsOp(a.op, b) {
      var t := a.op;
      ConstFreeIsPartlyCancelled(t, a);
      ConstFreeIsPartlyCancelled(t, b);
      CancelEqIsDifference(t, a, b);
      var (a1, b1) := CancelEq(t, a, b);
      YnOfPartlyCancelled(t, a1);
      YnOfPartlyCancelled(t, b1);
      assert CancelPasses(a, b) == (a1, b1);
      DifferencesMeet(Operands(t, a), Operands(t, b));
    }
  }

  /**
   * With a constant operand it does not: `A || n` is not found equal to `A`, but `(A || n) && B` is found equal
   * to `A && B`, because only what is left after cancelling is folded.
   */
  lemma {:induction false} ConstantsAreSeenThrough(a: Symbol, b: Symbol)
    requires a != b && !IsTriConst(a) && !IsTriConst(b)
    ensures var x := Bin(OrOp, Leaf(a), E_NO);
      && !ExprEq(x, Leaf(a)) && ExprEq(Bin(AndOp, x, Leaf(b)), Bin(AndOp, Leaf(a), Leaf(b)))
      && KeyOf(Bin(AndOp, x, Leaf(b))) != KeyOf(Bin(AndOp, Leaf(a), Leaf(b)))
  {
    var x, y := Bin(OrOp, Leaf(a), E_NO), Leaf(a);
    var e, d := Bin(AndOp, x, Leaf(b)), Bin(AndOp, y, Leaf(b));
    assert !ExprEq(x, y) && !ExprEq(x, Leaf(b)) && !ExprEq(Leaf(b), y) && ExprEq(Leaf(b), Leaf(b));
    assert CancelEq(AndOp, x, y) == (x, y) && CancelEq(AndOp, x, Leaf(b)) == (x, Leaf(b));
    assert CancelEq(AndOp, x, d) == (x, d);
    assert CancelEq(AndOp, Leaf(b), y) == (Leaf(b), y) && CancelEq(AndOp, Leaf(b), Leaf(b)) == (E_YES, E_YES);
    assert CancelEq(AndOp, Leaf(b), d) == (E_YES, Bin(AndOp, y, E_YES));
    assert CancelEq(AndOp, e, d) == (Bin(AndOp, x, E_YES), Bin(AndOp, y, E_YES));
    assert CancelPasses(e, d) == (Bin(AndOp, x, E_YES), Bin(AndOp, y, E_YES));
    assert EliminateYn(x) == y && EliminateYn(y) == y;
    assert EliminateYn(Bin(AndOp, x, E_YES)) == y && EliminateYn(Bin(AndOp, y, E_YES)) == y;
    assert EliminateEq(e, d) == (y, y);
    assert Operands(AndOp, x) == multiset{KeyOf(x)} && Operands(AndOp, y) == multiset{KSym(a)};
    assert Operands(AndOp, Leaf(b)) == multiset{KSym(b)};
    assert KeyOf(x).KBin? && KeyOf(x) in Operands(AndOp, x) + Operands(AndOp, Leaf(b));
    assert KeyOf(x) !in Operands(AndOp, y) + Operands(AndOp, Leaf(b));
  }

  lemma {:induction false} DisjointDifferences(a: multiset<Key>, b: multiset<Key>, k: Key)
    ensures (a - b)[k] == 0 || (b - a)[k] == 0
  {}

  lemma {:induction false} DifferencesMeet(a: multiset<Key>, b: multiset<Key>)
    ensures a - b == multiset{} && b - a == multiset{} <==> a == b
    ensures forall k :: !(a - b == multiset{k} && b - a == multiset{k})
  {
    if a - b == multiset{} && b - a == multiset{} {
      forall k ensures a[k] == b[k] {
        assert (a - b)[k] == 0 && (b - a)[k] == 0;
      }
    }
    forall k ensures !(a - b == multiset{k} && b - a == multiset{k}) {
      if a - b == multiset{k} && b - a == multiset{k} {
        DisjointDifferences(a, b, k);
        assert false;
      }
    }
  }

  // ----- the test of expr_eliminate_dups2 -------------------------------------

  /**
   * `x` is what expr_extract_eq leaves: the same two trees as cancelling, and an untouched pair if it found
   * nothing.
   */
  ghost predicate LikeCancel(t: BinOp, acc: Option<Expr>, a: Expr, b: Expr, x: (Option<Expr>, Expr, Expr)) {
    && (x.1, x.2) == CancelEq(t, a, b)
    && (x.0.None? ==> x.1 == a && x.2 == b)
    && (acc.Some? ==> x.0.Some?)
  }

  /** On such trees expr_extract_eq leaves in the two slots what the cancelling of expr_eq leaves. */
  lemma {:induction false} ExtractIsCancel(t: BinOp, acc: Option<Expr>, a: Expr, b: Expr)
    requires PartlyCancelled(t, a) && PartlyCancelled(t, b)
    ensures LikeCancel(t, acc, a, b, ExtractEq(t, acc, a, b))
    decreases Size(a) + Size(b)
  {
    if IsOp(t, a) {
      var (c1, l, b1) := ExtractEq(t, acc, a.left, b);
      var (c2, r, b2) := ExtractEq(t, c1, a.right, b1);
      ExtractIsCancel(t, acc, a.left, b);
      CancelEqIsDifference(t, a.left, b);
      ExtractIsCancel(t, c1, a.right, b1);
      assert CancelEq(t, a, b) == (Bin(t, l, r), b2);
    } else if IsOp(t, b) {
      var (c1, a1, l) := ExtractEq(t, acc, a, b.left);
      var (c2, a2, r) := ExtractEq(t, c1, a1, b.right);
      ExtractIsCancel(t, acc, a, b.left);
      CancelEqIsDifference(t, a, b.left);
      ExtractIsCancel(t, c1, a1, b.right);
      assert CancelEq(t, a, b) == (a2, Bin(t, l, r));
    } else {
      ExtractOperands(t, acc, a, b);
    }
  }

  lemma {:induction false} ExtractOperands(t: BinOp, acc: Option<Expr>, a: Expr, b: Expr)
    requires PartlyCancelled(t, a) && PartlyCancelled(t, b) && !IsOp(t, a) && !IsOp(t, b)
    ensures LikeCancel(t, acc, a, b, ExtractEq(t, acc, a, b))
  {
    var u := Leaf(Unit(t));
    if SameConst(a, b) {
      assert a == u && b == u;
    }
    assert CancelEq(t, a, b) == if ExprEq(a, b) then (u, u) else (a, b);
  }

  ghost function Collected(t: BinOp, acc: Option<Expr>): multiset<Key> {
    if acc.None? then multiset{} else Operands(t, acc.value)
  }

  /** And what it collects on the way is what the two spines have in common. */
  lemma {:induction false} ExtractCollects(t: BinOp, acc: Option<Expr>, a: Expr, b: Expr)
    requires PartlyCancelled(t, a) && PartlyCancelled(t, b)
    ensures Common(Collected(t, acc), Operands(t, a), Operands(t, b), Collected(t, ExtractEq(t, acc, a, b).0))
    decreases Size(a) + Size(b)
  {
    if IsOp(t, a) {
      var (c1, l, b1) := ExtractEq(t, acc, a.left, b);
      var (c2, r, b2) := ExtractEq(t, c1, a.right, b1);
      ExtractCollects(t, acc, a.left, b);
      ExtractIsCancel(t, acc, a.left, b);
      CancelEqIsDifference(t, a.left, b);
      ExtractCollects(t, c1, a.right, b1);
      CommonSplit(Collected(t, acc), Collected(t, c1), Collected(t, c2), Operands(t, a.left), Operands(t, a.right),
          Operands(t, b), Operands(t, b1));
    } else if IsOp(t, b) {
      var (c1, a1, l) := ExtractEq(t, acc, a, b.left);
      var (c2, a2, r) := ExtractEq(t, c1, a1, b.right);
      ExtractCollects(t, acc, a, b.left);
      ExtractIsCancel(t, acc, a, b.left);
      CancelEqIsDifference(t, a, b.left);
      ExtractCollects(t, c1, a1, b.right);
      CommonFlip(Collected(t, acc), Operands(t, a), Operands(t, b.left), Collected(t, c1));
      CommonFlip(Collected(t, c1), Operands(t, a1), Operands(t, b.right), Collected(t, c2));
      CommonSplit(Collected(t, acc), Collected(t, c1), Collected(t, c2), Operands(t, b.left), Operands(t, b.right),
          Operands(t, a), Operands(t, a1));
      CommonFlip(Collected(t, acc), Operands(t, b), Operands(t, a), Collected(t, c2));
    } else if a == Leaf(Unit(t)) || b == Leaf(Unit(t)) {
      UnitCollected(t, acc, a, b);
    } else {
      OneCollected(t, acc, a, b);
    }
  }

  /** `c'` is `c` with what `a` and `b` have in common. */
  predicate Common(c: multiset<Key>, a: multiset<Key>, b: multiset<Key>, c': multiset<Key>) { c' == c + a * b }

  lemma {:induction false} CommonSplit(c0: multiset<Key>, c1: multiset<Key>, c2: multiset<Key>,
      l: multiset<Key>, r: multiset<Key>, b: multiset<Key>, b1: multiset<Key>)
    requires Common(c0, l, b, c1) && b1 == b - l && Common(c1, r, b1, c2)
    ensures Common(c0, l + r, b, c2)
  {
    assert l * b + r * (b - l) == (l + r) * b;
  }

  lemma {:induction false} CommonFlip(c: multiset<Key>, a: multiset<Key>, b: multiset<Key>, c': multiset<Key>)
    requires Common(c, a, b, c')
    ensures Common(c, b, a, c')
  {
    assert a * b == b * a;
  }

  lemma {:induction false} UnitCollected(t: BinOp, acc: Option<Expr>, a: Expr, b: Expr)
    requires !IsOp(t, a) && !IsOp(t, b) && (a == Leaf(Unit(t)) || b == Leaf(Unit(t)))
    ensures Common(Collected(t, acc), Operands(t, a), Operands(t, b), Collected(t, ExtractEq(t, acc, a, b).0))
  {
    assert ExprEq(a, b) <==> a == b;
    assert Operands(t, a) == multiset{} || Operands(t, b) == multiset{};
    if a == b {
      CollectedMore(t, acc, a);
    }
  }

  lemma {:induction false} CollectedMore(t: BinOp, acc: Option<Expr>, a: Expr)
    ensures Collected(t, Some(if acc.Some? then Bin(t, acc.value, a) else a)) == Collected(t, acc) + Operands(t, a)
  {
    if acc.Some? {
      OperandsOfBin(t, acc.value, a);
    }
  }

  lemma {:induction false} OneCollected(t: BinOp, acc: Option<Expr>, a: Expr, b: Expr)
    requires PartlyCancelled(t, a) && PartlyCancelled(t, b) && !IsOp(t, a) && !IsOp(t, b)
    requires a != Leaf(Unit(t)) && b != Leaf(Unit(t))
    ensures Common(Collected(t, acc), Operands(t, a), Operands(t, b), Collected(t, ExtractEq(t, acc, a, b).0))
  {
    ExprEqIsKeyEquality(a, b);
    OneInCommon(KeyOf(a), KeyOf(b));
    CollectedMore(t, acc, a);
  }

  lemma {:induction false} OneInCommon(a: Key, b: Key)
    ensures multiset{a} * multiset{b} == if a == b then multiset{a} else multiset{}
  {}

  lemma {:induction false} SomeOperand(t: BinOp, e: Expr)
    requires NoConstOperand(e) && e != Leaf(Unit(t))
    ensures Operands(t, e) != multiset{}
  {
    if IsOp(t, e) {
      SomeOperand(t, e.left);
    }
  }

  /** The test succeeds exactly when every operand of the transformed negation is an operand of `e2`. */
  lemma {:induction false} ContradictsExactly(e1: Expr, e2: Expr)
    requires e1.Bin?
    requires var d := Dual(e1.op);
      && NoConstOperand(Transform(Not(e1))) && Transform(Not(e1)).Bin?
      && NoConstOperand(e2) && e2 != Leaf(Zero(d))
    ensures var d := Dual(e1.op);
      Contradicts(e1, e2) <==> Operands(d, Transform(Not(e1))) <= Operands(d, e2)
  {
    var d, neg := Dual(e1.op), Transform(Not(e1));
    ConstFreeIsPartlyCancelled(d, neg);
    ConstFreeIsPartlyCancelled(d, e2);
    ExtractIsCancel(d, None, neg, e2);
    CancelEqIsDifference(d, neg, e2);
    var (acc, a1, b1) := ExtractEq(d, None, neg, e2);
    YnOfPartlyCancelled(d, a1);
    SomeOperand(d, neg);
    SubsetIsEmptyDifference(Operands(d, neg), Operands(d, e2));
  }

  lemma {:induction false} SubsetIsEmptyDifference(a: multiset<Key>, b: multiset<Key>)
    ensures a <= b <==> a - b == multiset{}
  {
    if a - b == multiset{} {
      forall k ensures a[k] <= b[k] {
        assert (a - b)[k] == 0;
      }
    }
  }
}
