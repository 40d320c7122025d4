/** What expr_eliminate_dups makes of an expression that is m. */
module DupMods {
  import opened Tristates
  import opened Exprs
  import opened Transforms
  import opened Joins
  import opened Slots
  import opened DupElimination

  /** The value that decides a `t` node alone. */
  function Deciding(t: BinOp): Tristate { if t == AndOp then NO else YES }

  /** What the operands of a spine but one are worth together. */
  function Others(t: BinOp, e: Expr, p: Slot, env: Env): Tristate
    requires OnSpine(t, e, p)
  {
    Calc(Put(t, e, p, Leaf(Unit(t))), env)
  }

  lemma {:induction false} PutValue(t: BinOp, e: Expr, p: Slot, x: Expr, env: Env)
    requires OnSpine(t, e, p) && env.Valid()
    ensures Calc(Put(t, e, p, x), env) == OpVal(t, Others(t, e, p, env), Calc(x, env))
  {
    if p != [] {
      PutValue(t, Child(e, p[0]), p[1..], x, env);
      BesideValue(t, Others(t, Child(e, p[0]), p[1..], env), Calc(x, env), Calc(Child(e, !p[0]), env));
    }
  }

  lemma {:induction false} BesideValue(t: BinOp, o: Tristate, x: Tristate, s: Tristate)
    ensures OpVal(t, OpVal(t, o, x), s) == OpVal(t, OpVal(t, o, s), x)
    ensures OpVal(t, s, OpVal(t, o, x)) == OpVal(t, OpVal(t, s, o), x)
  {}

  // ----- one pass -----------------------------------------------------------------

  /**
   * The value that expr_eliminate_dups2 leaves of a tree that is m.  It is m until a step changes it, and
   * that no later step undoes.
   */
  function ModAfter(t: BinOp, e: Expr, p1: Slot, p2: Slot, env: Env): Tristate
    requires IsOp(t, e) && OnSpine(t, e, p1) && OnSpine(t, e, p2)
    decreases Size(e), SpineNodes(t, At(t, e, p1)) + SpineNodes(t, At(t, e, p2)), 1
  {
    if IsOp(t, At(t, e, p1)) then
      Descend(t, e, p1, false);
      Descend(t, e, p1, true);
      var v := ModAfter(t, e, p1 + [false], p2, env);
      var a := CancelPass(t, e, p1 + [false], p2).0;
      SameSpineSlots(t, e, a, p1 + [true]);
      SameSpineSlots(t, e, a, p2);
      if v != MOD then v else ModAfter(t, a, p1 + [true], p2, env)
    else
      var v := if IsOp(t, At(t, e, p2)) then ModAfterBelow(t, e, p1, p2, env) else MOD;
      if v != MOD || p1 == p2 then v
      else
        SameSpineRefl(t, e);
        var b := if IsOp(t, At(t, e, p2)) then CancelBelow(t, e, p1, p2).0 else e;
        SameSpineSlots(t, e, b, p1);
        SameSpineSlots(t, e, b, p2);
        ModAfterStep(t, b, p1, p2, env)
  }

  function ModAfterBelow(t: BinOp, e: Expr, p1: Slot, p2: Slot, env: Env): Tristate
    requires IsOp(t, e) && IsOperand(t, e, p1) && OnSpine(t, e, p2) && IsOp(t, At(t, e, p2))
    decreases Size(e), SpineNodes(t, At(t, e, p1)) + SpineNodes(t, At(t, e, p2)), 0
  {
    Descend(t, e, p2, false);
    Descend(t, e, p2, true);
    var v := ModAfter(t, e, p1, p2 + [false], env);
    var a := CancelPass(t, e, p1, p2 + [false]).0;
    SameSpineSlots(t, e, a, p1);
    SameSpineSlots(t, e, a, p2 + [true]);
    if v != MOD then v else ModAfter(t, a, p1, p2 + [true], env)
  }

  /**
   * One step.  A plain operand is left alone.  If the operand, cleaned up inside, contradicts what the second
   * slot holds, the whole tree becomes the constant that decides the spine.  Otherwise it is worth what the
   * other operands and what is left of this one are: an operand that is m may have lost it inside.
   */
  function ModAfterStep(t: BinOp, e: Expr, p1: Slot, p2: Slot, env: Env): Tristate
    requires IsOp(t, e) && IsOperand(t, e, p1) && OnSpine(t, e, p2) && p1 != p2
    decreases Size(e), SpineNodes(t, At(t, e, p1)) + SpineNodes(t, At(t, e, p2)), 0
  {
    var e1 := At(t, e, p1);
    if !e1.Bin? then MOD
    else if Fires(t, e, p1, p2) then Deciding(t)
    else if Calc(e1, env) != MOD then MOD
    else OpVal(t, Others(t, e, p1, env), ModAfter(e1.op, e1, [], [], env))
  }

  /** The guard of the step: an operand, cleaned up inside, contradicts what the second slot holds. */
  predicate Fires(t: BinOp, e: Expr, p1: Slot, p2: Slot)
    requires IsOp(t, e) && IsOperand(t, e, p1) && OnSpine(t, e, p2) && p1 != p2 && At(t, e, p1).Bin?
  {
    var e1 := At(t, e, p1);
    var x := CancelPass(e1.op, e1, [], []).0;
    InnerWrite(t, e, p1, x);
    SameSpineSlots(t, e, Put(t, e, p1, x), p2);
    Contradicts(x, At(t, Put(t, e, p1, x), p2))
  }

  lemma {:induction false} ModAfterPass(t: BinOp, e: Expr, p1: Slot, p2: Slot, env: Env)
    requires IsOp(t, e) && OnSpine(t, e, p1) && OnSpine(t, e, p2) && env.Valid() && Calc(e, env) == MOD
    ensures Calc(CancelPass(t, e, p1, p2).0, env) == ModAfter(t, e, p1, p2, env)
    decreases Size(e), SpineNodes(t, At(t, e, p1)) + SpineNodes(t, At(t, e, p2)), 1
  {
    if IsOp(t, At(t, e, p1)) {
      Descend(t, e, p1, false);
      Descend(t, e, p1, true);
      var a := CancelPass(t, e, p1 + [false], p2).0;
      ModAfterPass(t, e, p1 + [false], p2, env);
      SameSpineSlots(t, e, a, p1 + [true]);
      SameSpineSlots(t, e, a, p2);
      ModAfterNext(t, a, p1 + [true], p2, env);
    } else {
      SameSpineRefl(t, e);
      var b := if IsOp(t, At(t, e, p2)) then CancelBelow(t, e, p1, p2).0 else e;
      if IsOp(t, At(t, e, p2)) {
        ModAfterPassBelow(t, e, p1, p2, env);
      }
      if p1 != p2 {
        SameSpineSlots(t, e, b, p1);
        SameSpineSlots(t, e, b, p2);
        if Calc(b, env) == MOD {
          ModAfterOperand(t, b, p1, p2, env);
        } else {
          CancelOperandKeeps(t, b, p1, p2);
          assert Keeps(Calc(b, env), Calc(CancelOperand(t, b, p1, p2).0, env));
        }
      }
    }
  }

  /** The second of two passes. */
  lemma {:induction false} ModAfterNext(t: BinOp, a: Expr, p1: Slot, p2: Slot, env: Env)
    requires IsOp(t, a) && OnSpine(t, a, p1) && OnSpine(t, a, p2) && env.Valid()
    ensures Calc(CancelPass(t, a, p1, p2).0, env) ==
      if Calc(a, env) != MOD then Calc(a, env) else ModAfter(t, a, p1, p2, env)
    decreases Size(a), SpineNodes(t, At(t, a, p1)) + SpineNodes(t, At(t, a, p2)), 2
  {
    if Calc(a, env) == MOD {
      ModAfterPass(t, a, p1, p2, env);
    } else {
      CancelPassKeeps(t, a, p1, p2);
      assert Keeps(Calc(a, env), Calc(CancelPass(t, a, p1, p2).0, env));
    }
  }

  lemma {:induction false} ModAfterPassBelow(t: BinOp, e: Expr, p1: Slot, p2: Slot, env: Env)
    requires IsOp(t, e) && IsOperand(t, e, p1) && OnSpine(t, e, p2) && IsOp(t, At(t, e, p2))
    requires env.Valid() && Calc(e, env) == MOD
    ensures Calc(CancelBelow(t, e, p1, p2).0, env) == ModAfterBelow(t, e, p1, p2, env)
    decreases Size(e), SpineNodes(t, At(t, e, p1)) + SpineNodes(t, At(t, e, p2)), 0
  {
    Descend(t, e, p2, false);
    Descend(t, e, p2, true);
    var a := CancelPass(t, e, p1, p2 + [false]).0;
    ModAfterPass(t, e, p1, p2 + [false], env);
    SameSpineSlots(t, e, a, p1);
    SameSpineSlots(t, e, a, p2 + [true]);
    ModAfterNext(t, a, p1, p2 + [true], env);
  }

  lemma {:induction false} ModAfterOperand(t: BinOp, e: Expr, p1: Slot, p2: Slot, env: Env)
    requires IsOp(t, e) && IsOperand(t, e, p1) && OnSpine(t, e, p2) && p1 != p2
    requires env.Valid() && Calc(e, env) == MOD
    ensures Calc(CancelOperand(t, e, p1, p2).0, env) == ModAfterStep(t, e, p1, p2, env)
    decreases Size(e), SpineNodes(t, At(t, e, p1)) + SpineNodes(t, At(t, e, p2)), 0
  {
    var e1 := At(t, e, p1);
    if e1.Bin? {
      var x := CancelPass(e1.op, e1, [], []).0;
      ModAfterNext(e1.op, e1, [], [], env);
      InnerWrite(t, e, p1, x);
      var a := Put(t, e, p1, x);
      PutBack(t, e, p1);
      PutValue(t, e, p1, e1, env);
      PutValue(t, e, p1, x, env);
      SameSpineSlots(t, e, a, p1);
      PutValue(t, a, p1, Leaf(Zero(t)), env);
    }
  }

  // ----- the whole loop -------------------------------------------------------------

  /** The value that expr_eliminate_dups leaves of an expression that is m. */
  function ModResult(e: Expr, env: Env): Tristate
    decreases Size(e)
  {
    if !e.Bin? then MOD
    else
      var a := JoinPass(e.op, e, [], []).0;
      var v := ModAfter(e.op, a, [], [], env);
      var (b, n) := Round(e);
      RoundKeeps(e);
      EliminateYnNormal(b);
      if v != MOD || n == 0 then v else ModResult(EliminateYn(b), env)
  }

  /** So y and n are kept, and m if and only if no step of any round takes it away. */
  lemma {:induction false} DupFreeExactly(e: Expr, env: Env)
    requires env.Valid()
    ensures Calc(DupFree(e), env) == if Calc(e, env) == MOD then ModResult(e, env) else Calc(e, env)
    decreases Size(e)
  {
    DupFreeKeeps(e);
    if Calc(e, env) != MOD {
      assert Keeps(Calc(e, env), Calc(DupFree(e), env));
    } else if e.Bin? {
      var a := JoinPass(e.op, e, [], []).0;
      JoinPassKeeps(e.op, e, [], []);
      ModAfterPass(e.op, a, [], [], env);
      var (b, n) := Round(e);
      RoundKeeps(e);
      if n > 0 {
        EliminateYnNormal(b);
        EliminateYnValue(b, env);
        DupFreeExactly(EliminateYn(b), env);
      }
    }
  }

  // ----- steps on the root's own spine -------------------------------------------------

  /** Some step of the pass fires on the spine itself, not only inside its operands. */
  predicate FiresOnSpine(t: BinOp, e: Expr, p1: Slot, p2: Slot)
    requires IsOp(t, e) && OnSpine(t, e, p1) && OnSpine(t, e, p2)
    decreases Size(e), SpineNodes(t, At(t, e, p1)) + SpineNodes(t, At(t, e, p2)), 1
  {
    if IsOp(t, At(t, e, p1)) then
      Descend(t, e, p1, false);
      Descend(t, e, p1, true);
      var a := CancelPass(t, e, p1 + [false], p2).0;
      SameSpineSlots(t, e, a, p1 + [true]);
      SameSpineSlots(t, e, a, p2);
      FiresOnSpine(t, e, p1 + [false], p2) || FiresOnSpine(t, a, p1 + [true], p2)
    else
      SameSpineRefl(t, e);
      var b := if IsOp(t, At(t, e, p2)) then CancelBelow(t, e, p1, p2).0 else e;
      SameSpineSlots(t, e, b, p1);
      SameSpineSlots(t, e, b, p2);
      || (IsOp(t, At(t, e, p2)) && FiresBelow(t, e, p1, p2))
      || (p1 != p2 && At(t, b, p1).Bin? && Fires(t, b, p1, p2))
  }

  predicate FiresBelow(t: BinOp, e: Expr, p1: Slot, p2: Slot)
    requires IsOp(t, e) && IsOperand(t, e, p1) && OnSpine(t, e, p2) && IsOp(t, At(t, e, p2))
    decreases Size(e), SpineNodes(t, At(t, e, p1)) + SpineNodes(t, At(t, e, p2)), 0
  {
    Descend(t, e, p2, false);
    Descend(t, e, p2, true);
    var a := CancelPass(t, e, p1, p2 + [false]).0;
    SameSpineSlots(t, e, a, p1);
    SameSpineSlots(t, e, a, p2 + [true]);
    FiresOnSpine(t, e, p1, p2 + [false]) || FiresOnSpine(t, a, p1, p2 + [true])
  }

  /** An operand of the spine is the constant that decides it. */
  predicate HasZero(t: BinOp, e: Expr) {
    if IsOp(t, e) then HasZero(t, e.left) || HasZero(t, e.right) else e == Leaf(Zero(t))
  }

  lemma {:induction false} ZeroDecides(t: BinOp, e: Expr)
    requires HasZero(t, e)
    ensures EliminateYn(e) == Leaf(Zero(t))
  {
    if IsOp(t, e) {
      if HasZero(t, e.left) {
        ZeroDecides(t, e.left);
      } else {
        ZeroDecides(t, e.right);
      }
    }
  }

  lemma {:induction false} PutZero(t: BinOp, e: Expr, p: Slot)
    requires OnSpine(t, e, p)
    ensures HasZero(t, Put(t, e, p, Leaf(Zero(t))))
  {
    if p != [] {
      PutZero(t, Child(e, p[0]), p[1..]);
    }
  }

  lemma {:induction false} PutKeepsZero(t: BinOp, e: Expr, p: Slot, x: Expr)
    requires IsOperand(t, e, p) && At(t, e, p).Bin? && HasZero(t, e)
    ensures HasZero(t, Put(t, e, p, x))
  {
    if p != [] && HasZero(t, Child(e, p[0])) {
      PutKeepsZero(t, Child(e, p[0]), p[1..], x);
    }
  }

  /** A step that fires leaves that constant, and no other step removes it. */
  lemma {:induction false} FiredHasZero(t: BinOp, e: Expr, p1: Slot, p2: Slot)
    requires IsOp(t, e) && OnSpine(t, e, p1) && OnSpine(t, e, p2)
    ensures var (r, n) := CancelPass(t, e, p1, p2);
      && (FiresOnSpine(t, e, p1, p2) ==> HasZero(t, r) && n > 0)
      && (HasZero(t, e) ==> HasZero(t, r))
    decreases Size(e), SpineNodes(t, At(t, e, p1)) + SpineNodes(t, At(t, e, p2)), 1
  {
    if IsOp(t, At(t, e, p1)) {
      Descend(t, e, p1, false);
      Descend(t, e, p1, true);
      var a := CancelPass(t, e, p1 + [false], p2).0;
      FiredHasZero(t, e, p1 + [false], p2);
      SameSpineSlots(t, e, a, p1 + [true]);
      SameSpineSlots(t, e, a, p2);
      FiredHasZero(t, a, p1 + [true], p2);
    } else {
      SameSpineRefl(t, e);
      var b := if IsOp(t, At(t, e, p2)) then CancelBelow(t, e, p1, p2).0 else e;
      if IsOp(t, At(t, e, p2)) {
        FiredBelowHasZero(t, e, p1, p2);
      }
      SameSpineSlots(t, e, b, p1);
      SameSpineSlots(t, e, b, p2);
      if p1 != p2 {
        FiredStepHasZero(t, b, p1, p2);
      }
    }
  }

  lemma {:induction false} FiredBelowHasZero(t: BinOp, e: Expr, p1: Slot, p2: Slot)
    requires IsOp(t, e) && IsOperand(t, e, p1) && OnSpine(t, e, p2) && IsOp(t, At(t, e, p2))
    ensures var (r, n) := CancelBelow(t, e, p1, p2);
      && (FiresBelow(t, e, p1, p2) ==> HasZero(t, r) && n > 0)
      && (HasZero(t, e) ==> HasZero(t, r))
    decreases Size(e), SpineNodes(t, At(t, e, p1)) + SpineNodes(t, At(t, e, p2)), 0
  {
    Descend(t, e, p2, false);
    Descend(t, e, p2, true);
    var a := CancelPass(t, e, p1, p2 + [false]).0;
    FiredHasZero(t, e, p1, p2 + [false]);
    SameSpineSlots(t, e, a, p1);
    SameSpineSlots(t, e, a, p2 + [true]);
    FiredHasZero(t, a, p1, p2 + [true]);
  }

  lemma {:induction false} FiredStepHasZero(t: BinOp, e: Expr, p1: Slot, p2: Slot)
    requires IsOp(t, e) && IsOperand(t, e, p1) && OnSpine(t, e, p2) && p1 != p2
    ensures var (r, n) := CancelOperand(t, e, p1, p2);
      && (At(t, e, p1).Bin? && Fires(t, e, p1, p2) ==> HasZero(t, r) && n > 0)
      && (HasZero(t, e) ==> HasZero(t, r))
  {
    var e1 := At(t, e, p1);
    if e1.Bin? {
      var x := CancelPass(e1.op, e1, [], []).0;
      InnerWrite(t, e, p1, x);
      var a := Put(t, e, p1, x);
      SameSpineSlots(t, e, a, p1);
      PutZero(t, a, p1);
      if HasZero(t, e) {
        PutKeepsZero(t, e, p1, x);
      }
    }
  }

  /**
   * If a step of the first round fires on the root's own spine, expr_eliminate_dups makes the constant of
   * the whole expression, whatever else it holds.
   */
  lemma {:induction false} RootFires(e: Expr)
    requires e.Bin? && FiresOnSpine(e.op, JoinPass(e.op, e, [], []).0, [], [])
    ensures DupFree(e) == Leaf(Zero(e.op))
  {
    FiredHasZero(e.op, JoinPass(e.op, e, [], []).0, [], []);
    ZeroDecides(e.op, Round(e).0);
    assert Round(Leaf(Zero(e.op))) == (Leaf(Zero(e.op)), 0);
  }
}
