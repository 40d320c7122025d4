/** Which entries belong below the one before them, told by what their conditions mention. */
module AdoptionLaws {
  import opened Options
  import opened Exprs
  import opened Transforms
  import opened ExprEquality
  import opened ExprKeys
  import opened Slots
  import opened SymbolValues
  import opened MenuAdoption
  import opened DupElimination
  import opened DupLaws

  /** The operand can only hold while the symbol is not n. */
  predicate AsksFor(x: Expr, s: Symbol) {
    x == Leaf(s) || x == Cmp(Equal, s, SYM_YES) || x == Cmp(Equal, s, SYM_MOD) || x == Cmp(Unequal, s, SYM_NO)
  }

  /** expr_depends_symbol finds such an operand of the outermost AND. */
  lemma {:induction false} DependsExactly(e: Expr, s: Symbol)
    ensures DependsSymbol(e, s) <==> exists q: Slot :: IsOperand(AndOp, e, q) && AsksFor(At(AndOp, e, q), s)
  {
    if DependsSymbol(e, s) {
      var q := AskingSlot(e, s);
      assert IsOperand(AndOp, e, q);
    }
    forall q: Slot | IsOperand(AndOp, e, q) && AsksFor(At(AndOp, e, q), s) ensures DependsSymbol(e, s) {
      AskedDepends(e, s, q);
    }
  }

  lemma {:induction false} AskingSlot(e: Expr, s: Symbol) returns (q: Slot)
    requires DependsSymbol(e, s)
    ensures IsOperand(AndOp, e, q) && AsksFor(At(AndOp, e, q), s)
  {
    q := [];
    if e.Bin? {
      var side := !DependsSymbol(e.left, s);
      q := AskingSlot(Child(e, side), s);
      assert ([side] + q)[1..] == q;
      q := [side] + q;
    }
  }

  lemma {:induction false} AskedDepends(e: Expr, s: Symbol, q: Slot)
    requires IsOperand(AndOp, e, q) && AsksFor(At(AndOp, e, q), s)
    ensures DependsSymbol(e, s)
  {
    if q != [] {
      AskedDepends(Child(e, q[0]), s, q[1..]);
    }
  }

  lemma {:induction false} ContainsExactly(e: Expr, s: Symbol)
    ensures ContainsSymbol(e, s) <==> s in ExprSyms(e)
  {
    match e
    case Leaf(_) =>
    case Cmp(_, _, _) =>
    case Not(a) => ContainsExactly(a, s);
    case Bin(_, l, r) =>
      ContainsExactly(l, s);
      ContainsExactly(r, s);
  }

  /**
   * An entry belongs below another only if its condition mentions that one's symbol.  It does if an operand of
   * the outermost AND of its condition asks for the symbol; and if the condition mentions it and, in the form in
   * which conditions are compared, is an AND without constants, exactly if that has all the operands of the
   * other's prompt condition.
   */
  lemma {:induction false} BelongsExactly(dep: Expr, s: Symbol, base: Option<Expr>)
    ensures BelongsTo(Some(dep), s, base) ==> s in ExprSyms(dep)
    ensures (exists q: Slot :: IsOperand(AndOp, dep, q) && AsksFor(At(AndOp, dep, q), s)) ==>
      BelongsTo(Some(dep), s, base)
    ensures var (x, y) := (Compared(Some(dep)), Compared(base));
      s in ExprSyms(dep) && (!exists q: Slot :: IsOperand(AndOp, dep, q) && AsksFor(At(AndOp, dep, q), s))
      && IsOp(AndOp, x) && NoConstOperand(x) && NoConstOperand(y) && y != E_NO ==>
        (BelongsTo(Some(dep), s, base) <==> Operands(AndOp, y) <= Operands(AndOp, x))
  {
    DependsExactly(dep, s);
    ContainsExactly(dep, s);
    if DependsSymbol(dep, s) {
      DependsMentions(dep, s);
    }
    var x, y := Compared(Some(dep)), Compared(base);
    if IsOp(AndOp, x) && NoConstOperand(x) && NoConstOperand(y) && y != E_NO {
      AllOperandsCancelled(x, y);
    }
  }

  lemma {:induction false} DependsMentions(e: Expr, s: Symbol)
    requires DependsSymbol(e, s)
    ensures ContainsSymbol(e, s)
  {
    if e.Bin? {
      if DependsSymbol(e.left, s) {
        DependsMentions(e.left, s);
      } else {
        DependsMentions(e.right, s);
      }
    }
  }

  /** What is left of `y` is y exactly when every operand of it is one of `x`. */
  lemma {:induction false} AllOperandsCancelled(x: Expr, y: Expr)
    requires IsOp(AndOp, x) && NoConstOperand(x) && NoConstOperand(y) && y != E_NO
    ensures EliminateEq(x, y).1 == E_YES <==> Operands(AndOp, y) <= Operands(AndOp, x)
  {
    var (x1, y1) := CancelEq(AndOp, x, y);
    FirstPass(x, y);
    if y1.Bin? && !IsOp(y1.op, x1) {
      NothingCancelled(AndOp, x, y);
      OrLeavesNoYes(x, y);
    }
  }

  lemma {:induction false} FirstPass(x: Expr, y: Expr)
    requires IsOp(AndOp, x) && NoConstOperand(x) && NoConstOperand(y) && y != E_NO
    ensures var (x1, y1) := CancelEq(AndOp, x, y);
      && (EliminateYn(y1) == E_YES <==> Operands(AndOp, y) <= Operands(AndOp, x))
      && IsOp(AndOp, x1)
      && (IsOp(OrOp, y1) ==> !(Operands(AndOp, y) <= Operands(AndOp, x)))
  {
    ConstFreeIsPartlyCancelled(AndOp, x);
    ConstFreeIsPartlyCancelled(AndOp, y);
    CancelEqIsDifference(AndOp, x, y);
    var y1 := CancelEq(AndOp, x, y).1;
    YnOfPartlyCancelled(AndOp, y1);
    SubsetIsEmptyDifference(Operands(AndOp, y), Operands(AndOp, x));
    if IsOp(OrOp, y1) {
      assert KeyOf(y1) in Operands(AndOp, y1);
    }
  }

  /** A single operand is cancelled or stays, and then so does the other tree. */
  lemma {:induction false} NothingCancelled(t: BinOp, x: Expr, y: Expr)
    requires !IsOp(t, y)
    ensures CancelEq(t, x, y) == (x, y) || CancelEq(t, x, y).1 == Leaf(Unit(t))
  {
    if IsOp(t, x) {
      NothingCancelled(t, x.left, y);
      NothingCancelled(t, x.right, CancelEq(t, x.left, y).1);
    }
  }

  lemma {:induction false} OrLeavesNoYes(x: Expr, y: Expr)
    requires IsOp(OrOp, y) && NoConstOperand(y) && !IsOp(OrOp, x) && NoConstOperand(x) && x != E_YES
    ensures EliminateYn(CancelEq(OrOp, x, y).1) != E_YES
  {
    ConstFreeIsPartlyCancelled(OrOp, x);
    ConstFreeIsPartlyCancelled(OrOp, y);
    CancelEqIsDifference(OrOp, x, y);
    YnOfPartlyCancelled(OrOp, CancelEq(OrOp, x, y).1);
  }

  /** What is compared is simplified: no operand is left that another one of its spine makes redundant. */
  lemma {:induction false} ComparedIsTerse(e: Option<Expr>)
    ensures Terse(Compared(e)) && Unopposed(Compared(e))
  {
    DupFreeIsTerse(Transform(CompareNoOpt(e, Unequal)));
    DupFreeIsUnopposed(Transform(CompareNoOpt(e, Unequal)));
  }
}
