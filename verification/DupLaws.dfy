/** What expr_eliminate_dups leaves nowhere, told by the operands themselves. */
module DupLaws {
  import opened Exprs
  import opened Transforms
  import opened ExprEquality
  import opened ExprKeys
  import opened Joins
  import opened Slots
  import opened DupElimination

  /** Both operands speak of one boolean or tristate symbol, and a shorter spelling says both together. */
  ghost predicate Redundant(t: BinOp, a: Expr, b: Expr) {
    exists s: Symbol, x: Literal, y: Literal ::
      && (s.Type() == Boolean || s.Type() == Tri) && x != y
      && a == Spelled(s, x) && b == Spelled(s, y) && Shortens(t, s.Type() == Tri, x, y)
  }

  /** No operand of a spine is equal to another or redundant with it, on the root's spine and inside operands. */
  ghost predicate Terse(e: Expr)
    decreases Size(e)
  {
    e.Bin? ==>
      forall p: Slot, q: Slot | IsOperand(e.op, e, p) && IsOperand(e.op, e, q) && p != q ::
        && !ExprEq(At(e.op, e, p), At(e.op, e, q))
        && !Redundant(e.op, At(e.op, e, p), At(e.op, e, q))
        && (p != [] ==> Terse(At(e.op, e, p)))
  }

  /** Whatever it is given, expr_eliminate_dups leaves no two operands that are equal or redundant. */
  lemma {:induction false} DupFreeIsTerse(e: Expr)
    ensures Terse(DupFree(e))
  {
    DupFreeKeeps(e);
    JoinFreeIsTerse(DupFree(e));
  }

  lemma {:induction false} JoinFreeIsTerse(e: Expr)
    requires FreeOfJoins(e)
    ensures Terse(e)
    decreases Size(e)
  {
    if e.Bin? {
      var t := e.op;
      forall p: Slot, q: Slot | IsOperand(t, e, p) && IsOperand(t, e, q) && p != q
        ensures !ExprEq(At(t, e, p), At(t, e, q)) && !Redundant(t, At(t, e, p), At(t, e, q))
        ensures p != [] ==> Terse(At(t, e, p))
      {
        var a, b := At(t, e, p), At(t, e, q);
        assert NoJoinLeft(t, e, [], []) && [] <= p && [] <= q;
        NotJoined(t, a, b);
        if p != [] {
          JoinFreeIsTerse(a);
        }
      }
    }
  }

  lemma {:induction false} NotJoined(t: BinOp, a: Expr, b: Expr)
    requires Join(t, a, b).None?
    ensures !ExprEq(a, b) && !Redundant(t, a, b)
  {
    if Redundant(t, a, b) {
      var s: Symbol, x: Literal, y: Literal :| (s.Type() == Boolean || s.Type() == Tri) && x != y
        && a == Spelled(s, x) && b == Spelled(s, y) && Shortens(t, s.Type() == Tri, x, y);
      JoinDecides(t, s, x, y);
    }
  }

  /**
   * Nor an operand whose negation has all its operands in another place of the spine, where no constants
   * are among them.
   */
  ghost predicate Opposed(a: Expr, b: Expr) {
    && a.Bin?
    && var d, neg := Dual(a.op), Transform(Not(a));
    && neg.Bin? && NoConstOperand(neg) && NoConstOperand(b) && b != Leaf(Zero(d))
    && Operands(d, neg) <= Operands(d, b)
  }

  ghost predicate Unopposed(e: Expr)
    decreases Size(e)
  {
    e.Bin? ==>
      forall p: Slot, q: Slot | IsOperand(e.op, e, p) && OnSpine(e.op, e, q) && p != q ::
        && !Opposed(At(e.op, e, p), At(e.op, e, q))
        && (p != [] ==> Unopposed(At(e.op, e, p)))
  }

  lemma {:induction false} DupFreeIsUnopposed(e: Expr)
    ensures Unopposed(DupFree(e))
  {
    DupFreeKeeps(e);
    ContradictionFreeIsUnopposed(DupFree(e));
  }

  lemma {:induction false} ContradictionFreeIsUnopposed(e: Expr)
    requires FreeOfContradictions(e)
    ensures Unopposed(e)
    decreases Size(e)
  {
    if e.Bin? {
      var t := e.op;
      forall p: Slot, q: Slot | IsOperand(t, e, p) && OnSpine(t, e, q) && p != q
        ensures !Opposed(At(t, e, p), At(t, e, q))
        ensures p != [] ==> Unopposed(At(t, e, p))
      {
        var a, b := At(t, e, p), At(t, e, q);
        assert NoContradictionLeft(t, e, [], []) && [] <= p && [] <= q;
        if Opposed(a, b) {
          ContradictsExactly(a, b);
        }
        if p != [] && a.Bin? {
          ContradictionFreeIsUnopposed(a);
        }
      }
    }
  }
}
