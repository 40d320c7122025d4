/** expr_eliminate_dups: pairwise joining through two slots that start out as the same slot. */
module DupElimination {
  import opened Options
  import opened Tristates
  import opened Exprs
  import opened Transforms
  import opened Joins
  import opened Slots

  /**
   * No join is left between different operands below the slots p1 and p2, nor inside the operands
   * of the first slot.
   */
  ghost predicate NoJoinLeft(t: BinOp, e: Expr, p1: Slot, p2: Slot)
    decreases Size(e), 0
  {
    forall q1: Slot, q2: Slot | IsOperand(t, e, q1) && IsOperand(t, e, q2) && p1 <= q1 && p2 <= q2 && q1 != q2 ::
      && Join(t, At(t, e, q1), At(t, e, q2)).None?
      && (q1 != [] ==> FreeOfJoins(At(t, e, q1)))
  }

  /** No two operands of any AND/OR spine of the tree can be joined, in either order. */
  ghost predicate FreeOfJoins(e: Expr)
    decreases Size(e), 1
  {
    e.Bin? ==> NoJoinLeft(e.op, e, [], [])
  }

  lemma {:induction false} ProperExtension(t: BinOp, e: Expr, p: Slot, q: Slot)
    requires OnSpine(t, e, p) && IsOp(t, At(t, e, p)) && IsOperand(t, e, q) && p <= q
    ensures p + [false] <= q || p + [true] <= q
  {
    assert q == p + q[|p|..];
    assert |p| == |q| ==> q == p;
    assert q[..|p| + 1] == p + [q[|p|]];
    assert q[|p|] == false || q[|p|] == true;
  }

  lemma {:induction false} NoJoinLeftSplitFirst(t: BinOp, e: Expr, p1: Slot, p2: Slot)
    requires OnSpine(t, e, p1) && IsOp(t, At(t, e, p1))
    requires NoJoinLeft(t, e, p1 + [false], p2) && NoJoinLeft(t, e, p1 + [true], p2)
    ensures NoJoinLeft(t, e, p1, p2)
  {
    forall q1: Slot, q2: Slot | IsOperand(t, e, q1) && IsOperand(t, e, q2) && p1 <= q1 && p2 <= q2 && q1 != q2
      ensures Join(t, At(t, e, q1), At(t, e, q2)).None? && (q1 != [] ==> FreeOfJoins(At(t, e, q1)))
    {
      ProperExtension(t, e, p1, q1);
    }
  }

  lemma {:induction false} NoJoinLeftSplitSecond(t: BinOp, e: Expr, p1: Slot, p2: Slot)
    requires OnSpine(t, e, p2) && IsOp(t, At(t, e, p2))
    requires NoJoinLeft(t, e, p1, p2 + [false]) && NoJoinLeft(t, e, p1, p2 + [true])
    ensures NoJoinLeft(t, e, p1, p2)
  {
    forall q1: Slot, q2: Slot | IsOperand(t, e, q1) && IsOperand(t, e, q2) && p1 <= q1 && p2 <= q2 && q1 != q2
      ensures Join(t, At(t, e, q1), At(t, e, q2)).None? && (q1 != [] ==> FreeOfJoins(At(t, e, q1)))
    {
      ProperExtension(t, e, p2, q2);
    }
  }

  /**
   * What expr_eliminate_dups1 makes of the tree through two of its slots, and how often it counts up
   * trans_count.
   */
  function JoinPass(t: BinOp, e: Expr, p1: Slot, p2: Slot): (r: (Expr, nat))
    requires IsOp(t, e) && OnSpine(t, e, p1) && OnSpine(t, e, p2)
    ensures SameSpine(t, e, r.0) && Size(r.0) <= Size(e)
    decreases Size(e), SpineNodes(t, At(t, e, p1)) + SpineNodes(t, At(t, e, p2)), 1
  {
    SameSpineRefl(t, e);
    if IsOp(t, At(t, e, p1)) then
      Descend(t, e, p1, false);
      Descend(t, e, p1, true);
      var (a, m) := JoinPass(t, e, p1 + [false], p2);
      SameSpineSlots(t, e, a, p1 + [true]);
      SameSpineSlots(t, e, a, p2);
      var (b, n) := JoinPass(t, a, p1 + [true], p2);
      SameSpineTrans(t, e, a, b);
      (b, m + n)
    else if IsOp(t, At(t, e, p2)) then
      Descend(t, e, p2, false);
      Descend(t, e, p2, true);
      var (a, m) := JoinPass(t, e, p1, p2 + [false]);
      SameSpineSlots(t, e, a, p1);
      SameSpineSlots(t, e, a, p2 + [true]);
      var (b, n) := JoinPass(t, a, p1, p2 + [true]);
      SameSpineTrans(t, e, a, b);
      (b, m + n)
    else if p1 == p2 then (e, 0)
    else JoinOperands(t, e, p1, p2)
  }

  /** Two different operands: the first one is cleaned up inside, then the two are joined if they can be. */
  function JoinOperands(t: BinOp, e: Expr, p1: Slot, p2: Slot): (r: (Expr, nat))
    requires IsOp(t, e) && IsOperand(t, e, p1) && IsOperand(t, e, p2) && p1 != p2
    ensures SameSpine(t, e, r.0) && Size(r.0) <= Size(e)
    decreases Size(e), SpineNodes(t, At(t, e, p1)) + SpineNodes(t, At(t, e, p2)), 0
  {
    var e1 := At(t, e, p1);
    var (x, n) := if e1.Bin? then JoinPass(e1.op, e1, [], []) else (e1, 0);
    InnerWrite(t, e, p1, x);
    PutElsewhere(t, e, p1, x, p2);
    var a := Put(t, e, p1, x);
    var joined := Join(t, x, At(t, a, p2));
    if joined.None? then (a, n)
    else
      MergeWrite(t, a, p1, p2, joined.value);
      var b := Put(t, Put(t, a, p1, Leaf(Unit(t))), p2, joined.value);
      SameSpineTrans(t, e, a, b);
      (b, n + 1)
  }

  /** The value stays; a pass that counted nothing found nothing to join, one that did left a constant operand. */
  lemma {:induction false} JoinPassKeeps(t: BinOp, e: Expr, p1: Slot, p2: Slot)
    requires IsOp(t, e) && OnSpine(t, e, p1) && OnSpine(t, e, p2)
    ensures var (r, n) := JoinPass(t, e, p1, p2);
      && SameValue(e, r) && NotsKept(e, r)
      && (n == 0 ==> r == e && NoJoinLeft(t, e, p1, p2))
      && (n > 0 ==> !YnFree(r))
    decreases Size(e), SpineNodes(t, At(t, e, p1)) + SpineNodes(t, At(t, e, p2)), 1
  {
    if IsOp(t, At(t, e, p1)) {
      Descend(t, e, p1, false);
      Descend(t, e, p1, true);
      var (a, m) := JoinPass(t, e, p1 + [false], p2);
      JoinPassKeeps(t, e, p1 + [false], p2);
      SameSpineSlots(t, e, a, p1 + [true]);
      SameSpineSlots(t, e, a, p2);
      JoinPassKeeps(t, a, p1 + [true], p2);
      if JoinPass(t, e, p1, p2).1 == 0 {
        NoJoinLeftSplitFirst(t, e, p1, p2);
      }
    } else if IsOp(t, At(t, e, p2)) {
      Descend(t, e, p2, false);
      Descend(t, e, p2, true);
      var (a, m) := JoinPass(t, e, p1, p2 + [false]);
      JoinPassKeeps(t, e, p1, p2 + [false]);
      SameSpineSlots(t, e, a, p1);
      SameSpineSlots(t, e, a, p2 + [true]);
      JoinPassKeeps(t, a, p1, p2 + [true]);
      if JoinPass(t, e, p1, p2).1 == 0 {
        NoJoinLeftSplitSecond(t, e, p1, p2);
      }
    } else if p1 == p2 {
      OnlyOperandsBelow(t, e, p1, p2);
    } else {
      JoinOperandsKeeps(t, e, p1, p2);
    }
  }

  lemma {:induction false} JoinOperandsKeeps(t: BinOp, e: Expr, p1: Slot, p2: Slot)
    requires IsOp(t, e) && IsOperand(t, e, p1) && IsOperand(t, e, p2) && p1 != p2
    ensures var (r, n) := JoinOperands(t, e, p1, p2);
      && SameValue(e, r) && NotsKept(e, r)
      && (n == 0 ==> r == e && NoJoinLeft(t, e, p1, p2))
      && (n > 0 ==> !YnFree(r))
    decreases Size(e), SpineNodes(t, At(t, e, p1)) + SpineNodes(t, At(t, e, p2)), 0
  {
    var e1 := At(t, e, p1);
    var (x, n) := if e1.Bin? then JoinPass(e1.op, e1, [], []) else (e1, 0);
    if e1.Bin? {
      JoinPassKeeps(e1.op, e1, [], []);
    }
    InnerWrite(t, e, p1, x);
    PutElsewhere(t, e, p1, x, p2);
    var a := Put(t, e, p1, x);
    if n > 0 {
      NotYnFreeBelow(t, a, p1);
    }
    var joined := Join(t, x, At(t, a, p2));
    if joined.Some? {
      MergeWrite(t, a, p1, p2, joined.value);
    } else if n == 0 {
      OnlyOperandsBelow(t, e, p1, p2);
    }
  }

  /** expr_eliminate_dups1; `count` is the global trans_count. */
  method Dups1(t: BinOp, e: Expr, p1: Slot, p2: Slot, count: nat) returns (r: Expr, count': nat)
    requires IsOp(t, e) && OnSpine(t, e, p1) && OnSpine(t, e, p2)
    ensures r == JoinPass(t, e, p1, p2).0 && count' == count + JoinPass(t, e, p1, p2).1
    decreases Size(e), SpineNodes(t, At(t, e, p1)) + SpineNodes(t, At(t, e, p2)), 1
  {
    r, count' := e, count;
    if IsOp(t, At(t, e, p1)) {
      Descend(t, e, p1, false);
      Descend(t, e, p1, true);
      r, count' := Dups1(t, e, p1 + [false], p2, count);
      SameSpineSlots(t, e, r, p1 + [true]);
      SameSpineSlots(t, e, r, p2);
      r, count' := Dups1(t, r, p1 + [true], p2, count');
      return;
    }
    if IsOp(t, At(t, e, p2)) {
      Descend(t, e, p2, false);
      Descend(t, e, p2, true);
      r, count' := Dups1(t, e, p1, p2 + [false], count);
      SameSpineSlots(t, e, r, p1);
      SameSpineSlots(t, e, r, p2 + [true]);
      r, count' := Dups1(t, r, p1, p2 + [true], count');
      return;
    }
    if p1 != p2 {
      r, count' := Dups1Operands(t, e, p1, p2, count);
    }
  }

  /** Its last part, for two different operands. */
  method Dups1Operands(t: BinOp, e: Expr, p1: Slot, p2: Slot, count: nat) returns (r: Expr, count': nat)
    requires IsOp(t, e) && IsOperand(t, e, p1) && IsOperand(t, e, p2) && p1 != p2
    ensures r == JoinOperands(t, e, p1, p2).0 && count' == count + JoinOperands(t, e, p1, p2).1
    decreases Size(e), SpineNodes(t, At(t, e, p1)) + SpineNodes(t, At(t, e, p2)), 0
  {
    count' := count;
    var e1 := At(t, e, p1);
    if e1.Bin? {
      e1, count' := Dups1(e1.op, e1, [], [], count);
    }
    InnerWrite(t, e, p1, e1);
    PutElsewhere(t, e, p1, e1, p2);
    r := Put(t, e, p1, e1);
    var e2 := At(t, r, p2);
    var joined := Join(t, e1, e2);
    if joined.Some? {
      MergeWrite(t, r, p1, p2, joined.value);
      r := Put(t, r, p1, Leaf(Unit(t)));
      r := Put(t, r, p2, joined.value);
      count' := count' + 1;
    }
  }

  /** Below two operand slots there is only the pair itself. */
  lemma {:induction false} OnlyOperandsBelow(t: BinOp, e: Expr, p1: Slot, p2: Slot)
    requires IsOperand(t, e, p1) && IsOperand(t, e, p2)
    requires p1 != p2 ==> Join(t, At(t, e, p1), At(t, e, p2)).None? && (p1 != [] ==> FreeOfJoins(At(t, e, p1)))
    ensures NoJoinLeft(t, e, p1, p2)
  {
    forall q1: Slot, q2: Slot | IsOperand(t, e, q1) && IsOperand(t, e, q2) && p1 <= q1 && p2 <= q2 && q1 != q2
      ensures Join(t, At(t, e, q1), At(t, e, q2)).None? && (q1 != [] ==> FreeOfJoins(At(t, e, q1)))
    {
      OperandHasNoExtension(t, e, p1, q1);
      OperandHasNoExtension(t, e, p2, q2);
    }
  }

  /** Rewriting inside an operand. */
  lemma {:induction false} InnerWrite(t: BinOp, e: Expr, p: Slot, x: Expr)
    requires IsOperand(t, e, p) && !IsOp(t, x) && Size(x) <= Size(At(t, e, p))
    ensures var r := Put(t, e, p, x);
      && SameSpine(t, e, r) && Size(r) <= Size(e)
      && OnSpine(t, r, p) && At(t, r, p) == x
      && (x == At(t, e, p) ==> r == e)
      && (SameValue(At(t, e, p), x) ==> SameValue(e, r))
      && (KeepsValue(At(t, e, p), x) ==> KeepsValue(e, r))
      && (NotsKept(At(t, e, p), x) ==> NotsKept(e, r))
  {
    if NotAtSymbols(e) {
      SlotNots(t, e, p, x);
    }
    PutOperand(t, e, p, x);
    var r := Put(t, e, p, x);
    if x == At(t, e, p) {
      PutBack(t, e, p);
    }
    if SameValue(At(t, e, p), x) {
      forall env: Env | env.Valid() ensures Calc(e, env) == Calc(r, env) {
        PutSame(t, e, p, x, env);
      }
    }
    if KeepsValue(At(t, e, p), x) {
      forall env: Env | env.Valid() ensures Keeps(Calc(e, env), Calc(r, env)) {
        PutKeeps(t, e, p, x, env);
      }
    }
  }

  lemma {:induction false} PutBack(t: BinOp, e: Expr, p: Slot)
    requires OnSpine(t, e, p)
    ensures Put(t, e, p, At(t, e, p)) == e
  {
    if p != [] {
      PutBack(t, Child(e, p[0]), p[1..]);
    }
  }

  /** The two writes of a successful join. */
  lemma {:induction false} MergeWrite(t: BinOp, e: Expr, p1: Slot, p2: Slot, x: Expr)
    requires IsOp(t, e) && IsOperand(t, e, p1) && IsOperand(t, e, p2) && p1 != p2
    requires Join(t, At(t, e, p1), At(t, e, p2)) == Some(x)
    ensures OnSpine(t, Put(t, e, p1, Leaf(Unit(t))), p2)
    ensures var r := Put(t, Put(t, e, p1, Leaf(Unit(t))), p2, x);
      SameSpine(t, e, r) && SameValue(e, r) && NotsKept(e, r) && Size(r) <= Size(e) && !YnFree(r)
  {
    MergeNots(t, e, p1, p2, x);
    var u := Leaf(Unit(t));
    var mid := Put(t, e, p1, u);
    JoinShape(t, At(t, e, p1), At(t, e, p2));
    PutOperand(t, e, p1, u);
    PutElsewhere(t, e, p1, u, p2);
    PutOperand(t, mid, p2, x);
    PutElsewhere(t, mid, p2, x, p1);
    var r := Put(t, mid, p2, x);
    SameSpineTrans(t, e, mid, r);
    ConstOperandNotYnFree(t, r, p1);
    forall env: Env | env.Valid() ensures Calc(e, env) == Calc(r, env) {
      JoinValue(t, At(t, e, p1), At(t, e, p2), env);
      MergeOperands(t, e, p1, p2, x, env);
    }
  }

  lemma {:induction false} MergeNots(t: BinOp, e: Expr, p1: Slot, p2: Slot, x: Expr)
    requires IsOperand(t, e, p1) && IsOperand(t, e, p2) && p1 != p2
    requires Join(t, At(t, e, p1), At(t, e, p2)) == Some(x)
    ensures var mid := Put(t, e, p1, Leaf(Unit(t)));
      OnSpine(t, mid, p2) && NotsKept(e, Put(t, mid, p2, x))
  {
    var mid := Put(t, e, p1, Leaf(Unit(t)));
    PutElsewhere(t, e, p1, Leaf(Unit(t)), p2);
    if NotAtSymbols(e) {
      SlotNots(t, e, p1, Leaf(Unit(t)));
      SlotNots(t, e, p2, x);
      SlotNots(t, mid, p2, x);
    }
  }

  // ----- expr_eliminate_dups2 ------------------------------------------------

  /** No operand below p1 is contradicted by a spine node below p2, nor anything inside the operands. */
  ghost predicate NoContradictionLeft(t: BinOp, e: Expr, p1: Slot, p2: Slot)
    decreases Size(e), 0
  {
    forall q1: Slot, q2: Slot | IsOperand(t, e, q1) && OnSpine(t, e, q2) && p1 <= q1 && p2 <= q2 && q1 != q2 ::
      At(t, e, q1).Bin? ==>
        && !Contradicts(At(t, e, q1), At(t, e, q2))
        && (q1 != [] ==> FreeOfContradictions(At(t, e, q1)))
  }

  ghost predicate FreeOfContradictions(e: Expr)
    decreases Size(e), 1
  {
    e.Bin? ==> NoContradictionLeft(e.op, e, [], [])
  }

  lemma {:induction false} ContradictionSplitFirst(t: BinOp, e: Expr, p1: Slot, p2: Slot)
    requires OnSpine(t, e, p1) && IsOp(t, At(t, e, p1))
    requires NoContradictionLeft(t, e, p1 + [false], p2) && NoContradictionLeft(t, e, p1 + [true], p2)
    ensures NoContradictionLeft(t, e, p1, p2)
  {
    forall q1: Slot, q2: Slot | IsOperand(t, e, q1) && OnSpine(t, e, q2) && p1 <= q1 && p2 <= q2 && q1 != q2 &&
      At(t, e, q1).Bin?
      ensures !Contradicts(At(t, e, q1), At(t, e, q2)) && (q1 != [] ==> FreeOfContradictions(At(t, e, q1)))
    {
      ProperExtension(t, e, p1, q1);
    }
  }

  /** The second slot's own node together with everything below it. */
  lemma {:induction false} ContradictionSplitSecond(t: BinOp, e: Expr, p1: Slot, p2: Slot)
    requires IsOperand(t, e, p1) && OnSpine(t, e, p2) && p1 != p2
    requires IsOp(t, At(t, e, p2)) ==>
      NoContradictionLeft(t, e, p1, p2 + [false]) && NoContradictionLeft(t, e, p1, p2 + [true])
    requires At(t, e, p1).Bin? ==>
      !Contradicts(At(t, e, p1), At(t, e, p2)) && (p1 != [] ==> FreeOfContradictions(At(t, e, p1)))
    ensures NoContradictionLeft(t, e, p1, p2)
  {
    forall q1: Slot, q2: Slot | IsOperand(t, e, q1) && OnSpine(t, e, q2) && p1 <= q1 && p2 <= q2 && q1 != q2 &&
      At(t, e, q1).Bin?
      ensures !Contradicts(At(t, e, q1), At(t, e, q2)) && (q1 != [] ==> FreeOfContradictions(At(t, e, q1)))
    {
      OperandHasNoExtension(t, e, p1, q1);
      NodeOrBelow(t, e, p2, q2);
      if p2 + [false] <= q2 {
        assert NoContradictionLeft(t, e, p1, p2 + [false]);
      } else if p2 + [true] <= q2 {
        assert NoContradictionLeft(t, e, p1, p2 + [true]);
      }
    }
  }

  lemma {:induction false} NodeOrBelow(t: BinOp, e: Expr, p: Slot, q: Slot)
    requires OnSpine(t, e, p) && OnSpine(t, e, q) && p <= q
    ensures p == q || (IsOp(t, At(t, e, p)) && (p + [false] <= q || p + [true] <= q))
  {
    assert q == p + q[|p|..];
    if IsOperand(t, e, p) {
      OperandHasNoExtension(t, e, p, q);
    } else if |p| < |q| {
      assert q[..|p| + 1] == p + [q[|p|]];
      assert q[|p|] == false || q[|p|] == true;
    }
  }

  lemma {:induction false} SameOperandSlot(t: BinOp, e: Expr, p: Slot)
    requires IsOperand(t, e, p)
    ensures NoContradictionLeft(t, e, p, p)
  {
    forall q: Slot | OnSpine(t, e, q) && p <= q ensures q == p {
      OperandHasNoExtension(t, e, p, q);
    }
  }

  /** The write that expr_eliminate_dups2 makes: the contradicted operand becomes the spine's zero. */
  lemma {:induction false} ZeroWrite(t: BinOp, e: Expr, p1: Slot, p2: Slot)
    requires IsOp(t, e) && IsOperand(t, e, p1) && OnSpine(t, e, p2)
    requires At(t, e, p1).Bin? && Contradicts(At(t, e, p1), At(t, e, p2))
    ensures var r := Put(t, e, p1, Leaf(Zero(t)));
      && SameSpine(t, e, r) && KeepsValue(e, r) && NotsKept(e, r) && Size(r) <= Size(e) && !YnFree(r)
  {
    var z := Leaf(Zero(t));
    if NotAtSymbols(e) {
      SlotNots(t, e, p1, z);
    }
    var r := Put(t, e, p1, z);
    PutOperand(t, e, p1, z);
    ConstOperandNotYnFree(t, r, p1);
    forall env: Env | env.Valid() ensures Keeps(Calc(e, env), Calc(r, env)) {
      ContradictsBounds(At(t, e, p1), At(t, e, p2), env);
      SlotBounds(t, e, p1, env);
      SlotBounds(t, e, p2, env);
      PutBounds(t, e, p1, z, env);
    }
  }

  /** What expr_eliminate_dups2 makes of the tree.  After the second slot's spine it also tries the whole slot. */
  function CancelPass(t: BinOp, e: Expr, p1: Slot, p2: Slot): (r: (Expr, nat))
    requires IsOp(t, e) && OnSpine(t, e, p1) && OnSpine(t, e, p2)
    ensures SameSpine(t, e, r.0) && Size(r.0) <= Size(e)
    decreases Size(e), SpineNodes(t, At(t, e, p1)) + SpineNodes(t, At(t, e, p2)), 1
  {
    SameSpineRefl(t, e);
    if IsOp(t, At(t, e, p1)) then
      Descend(t, e, p1, false);
      Descend(t, e, p1, true);
      var (a, m) := CancelPass(t, e, p1 + [false], p2);
      SameSpineSlots(t, e, a, p1 + [true]);
      SameSpineSlots(t, e, a, p2);
      var (b, n) := CancelPass(t, a, p1 + [true], p2);
      SameSpineTrans(t, e, a, b);
      (b, m + n)
    else
      var (b, n) := if IsOp(t, At(t, e, p2)) then CancelBelow(t, e, p1, p2) else (e, 0);
      if p1 == p2 then (b, n)
      else
        SameSpineSlots(t, e, b, p1);
        SameSpineSlots(t, e, b, p2);
        var (c, k) := CancelOperand(t, b, p1, p2);
        SameSpineTrans(t, e, b, c);
        (c, n + k)
  }

  /** The operands below the second slot, one after the other. */
  function CancelBelow(t: BinOp, e: Expr, p1: Slot, p2: Slot): (r: (Expr, nat))
    requires IsOp(t, e) && IsOperand(t, e, p1) && OnSpine(t, e, p2) && IsOp(t, At(t, e, p2))
    ensures SameSpine(t, e, r.0) && Size(r.0) <= Size(e)
    decreases Size(e), SpineNodes(t, At(t, e, p1)) + SpineNodes(t, At(t, e, p2)), 0
  {
    Descend(t, e, p2, false);
    Descend(t, e, p2, true);
    var (a, m) := CancelPass(t, e, p1, p2 + [false]);
    SameSpineSlots(t, e, a, p1);
    SameSpineSlots(t, e, a, p2 + [true]);
    var (b, n) := CancelPass(t, a, p1, p2 + [true]);
    SameSpineTrans(t, e, a, b);
    (b, m + n)
  }

  /** Its switch on e1->type: clean the operand up inside, then test it against the second slot. */
  function CancelOperand(t: BinOp, e: Expr, p1: Slot, p2: Slot): (r: (Expr, nat))
    requires IsOp(t, e) && IsOperand(t, e, p1) && OnSpine(t, e, p2) && p1 != p2
    ensures SameSpine(t, e, r.0) && Size(r.0) <= Size(e)
    decreases Size(e), SpineNodes(t, At(t, e, p1)) + SpineNodes(t, At(t, e, p2)), 0
  {
    SameSpineRefl(t, e);
    var e1 := At(t, e, p1);
    if !e1.Bin? then (e, 0)
    else
      var (x, n) := CancelPass(e1.op, e1, [], []);
      InnerWrite(t, e, p1, x);
      var a := Put(t, e, p1, x);
      SameSpineSlots(t, e, a, p2);
      if Contradicts(x, At(t, a, p2)) then
        ZeroWrite(t, a, p1, p2);
        var b := Put(t, a, p1, Leaf(Zero(t)));
        SameSpineTrans(t, e, a, b);
        (b, n + 1)
      else (a, n)
  }

  /** The same properties as for the first pass, except that only y and n are sure to keep their value. */
  lemma {:induction false} CancelPassKeeps(t: BinOp, e: Expr, p1: Slot, p2: Slot)
    requires IsOp(t, e) && OnSpine(t, e, p1) && OnSpine(t, e, p2)
    ensures var (r, n) := CancelPass(t, e, p1, p2);
      && KeepsValue(e, r) && NotsKept(e, r)
      && (n == 0 ==> r == e && NoContradictionLeft(t, e, p1, p2))
      && (n > 0 ==> !YnFree(r))
    decreases Size(e), SpineNodes(t, At(t, e, p1)) + SpineNodes(t, At(t, e, p2)), 1
  {
    if IsOp(t, At(t, e, p1)) {
      Descend(t, e, p1, false);
      Descend(t, e, p1, true);
      var (a, m) := CancelPass(t, e, p1 + [false], p2);
      CancelPassKeeps(t, e, p1 + [false], p2);
      SameSpineSlots(t, e, a, p1 + [true]);
      SameSpineSlots(t, e, a, p2);
      CancelPassKeeps(t, a, p1 + [true], p2);
      if CancelPass(t, e, p1, p2).1 == 0 {
        ContradictionSplitFirst(t, e, p1, p2);
      }
    } else {
      var (b, n) := if IsOp(t, At(t, e, p2)) then CancelBelow(t, e, p1, p2) else (e, 0);
      if IsOp(t, At(t, e, p2)) {
        CancelBelowKeeps(t, e, p1, p2);
      } else {
        SameSpineRefl(t, e);
      }
      if p1 == p2 {
        SameOperandSlot(t, e, p1);
      } else {
        SameSpineSlots(t, e, b, p1);
        SameSpineSlots(t, e, b, p2);
        CancelOperandKeeps(t, b, p1, p2);
        if CancelPass(t, e, p1, p2).1 == 0 {
          ContradictionSplitSecond(t, e, p1, p2);
        }
      }
    }
  }

  lemma {:induction false} CancelBelowKeeps(t: BinOp, e: Expr, p1: Slot, p2: Slot)
    requires IsOp(t, e) && IsOperand(t, e, p1) && OnSpine(t, e, p2) && IsOp(t, At(t, e, p2))
    ensures OnSpine(t, e, p2 + [false]) && OnSpine(t, e, p2 + [true])
    ensures var (r, n) := CancelBelow(t, e, p1, p2);
      && KeepsValue(e, r) && NotsKept(e, r)
      && (n == 0 ==>
        r == e && NoContradictionLeft(t, e, p1, p2 + [false]) && NoContradictionLeft(t, e, p1, p2 + [true]))
      && (n > 0 ==> !YnFree(r))
    decreases Size(e), SpineNodes(t, At(t, e, p1)) + SpineNodes(t, At(t, e, p2)), 0
  {
    Descend(t, e, p2, false);
    Descend(t, e, p2, true);
    var (a, m) := CancelPass(t, e, p1, p2 + [false]);
    CancelPassKeeps(t, e, p1, p2 + [false]);
    SameSpineSlots(t, e, a, p1);
    SameSpineSlots(t, e, a, p2 + [true]);
    CancelPassKeeps(t, a, p1, p2 + [true]);
  }

  lemma {:induction false} CancelOperandKeeps(t: BinOp, e: Expr, p1: Slot, p2: Slot)
    requires IsOp(t, e) && IsOperand(t, e, p1) && OnSpine(t, e, p2) && p1 != p2
    ensures var (r, n) := CancelOperand(t, e, p1, p2);
      && KeepsValue(e, r) && NotsKept(e, r)
      && (n == 0 ==> r == e)
      && (n == 0 && At(t, e, p1).Bin? ==>
            !Contradicts(At(t, e, p1), At(t, e, p2)) && FreeOfContradictions(At(t, e, p1)))
      && (n > 0 ==> !YnFree(r))
    decreases Size(e), SpineNodes(t, At(t, e, p1)) + SpineNodes(t, At(t, e, p2)), 0
  {
    var e1 := At(t, e, p1);
    if e1.Bin? {
      var (x, n) := CancelPass(e1.op, e1, [], []);
      CancelPassKeeps(e1.op, e1, [], []);
      InnerWrite(t, e, p1, x);
      var a := Put(t, e, p1, x);
      SameSpineSlots(t, e, a, p2);
      if n > 0 {
        NotYnFreeBelow(t, a, p1);
      }
      if Contradicts(x, At(t, a, p2)) {
        ZeroWrite(t, a, p1, p2);
      }
    }
  }

  /** expr_eliminate_dups2 */
  method Dups2(t: BinOp, e: Expr, p1: Slot, p2: Slot, count: nat) returns (r: Expr, count': nat)
    requires IsOp(t, e) && OnSpine(t, e, p1) && OnSpine(t, e, p2)
    ensures r == CancelPass(t, e, p1, p2).0 && count' == count + CancelPass(t, e, p1, p2).1
    decreases Size(e), SpineNodes(t, At(t, e, p1)) + SpineNodes(t, At(t, e, p2)), 1
  {
    r, count' := e, count;
    if IsOp(t, At(t, e, p1)) {
      Descend(t, e, p1, false);
      Descend(t, e, p1, true);
      r, count' := Dups2(t, e, p1 + [false], p2, count);
      SameSpineSlots(t, e, r, p1 + [true]);
      SameSpineSlots(t, e, r, p2);
      r, count' := Dups2(t, r, p1 + [true], p2, count');
      return;
    }
    SameSpineRefl(t, e);
    if IsOp(t, At(t, e, p2)) {
      r, count' := Dups2Below(t, e, p1, p2, count);
    }
    if p1 == p2 {
      return;
    }
    SameSpineSlots(t, e, r, p1);
    SameSpineSlots(t, e, r, p2);
    r, count' := Dups2Operand(t, r, p1, p2, count');
  }

  /** Its two calls for the operands below the second slot. */
  method Dups2Below(t: BinOp, e: Expr, p1: Slot, p2: Slot, count: nat) returns (r: Expr, count': nat)
    requires IsOp(t, e) && IsOperand(t, e, p1) && OnSpine(t, e, p2) && IsOp(t, At(t, e, p2))
    ensures r == CancelBelow(t, e, p1, p2).0 && count' == count + CancelBelow(t, e, p1, p2).1
    decreases Size(e), SpineNodes(t, At(t, e, p1)) + SpineNodes(t, At(t, e, p2)), 0
  {
    Descend(t, e, p2, false);
    Descend(t, e, p2, true);
    r, count' := Dups2(t, e, p1, p2 + [false], count);
    SameSpineSlots(t, e, r, p1);
    SameSpineSlots(t, e, r, p2 + [true]);
    r, count' := Dups2(t, r, p1, p2 + [true], count');
  }

  /** Its switch on e1->type. */
  method Dups2Operand(t: BinOp, e: Expr, p1: Slot, p2: Slot, count: nat) returns (r: Expr, count': nat)
    requires IsOp(t, e) && IsOperand(t, e, p1) && OnSpine(t, e, p2) && p1 != p2
    ensures r == CancelOperand(t, e, p1, p2).0 && count' == count + CancelOperand(t, e, p1, p2).1
    decreases Size(e), SpineNodes(t, At(t, e, p1)) + SpineNodes(t, At(t, e, p2)), 0
  {
    r, count' := e, count;
    var e1 := At(t, e, p1);
    if e1.Bin? {
      e1, count' := Dups2(e1.op, e1, [], [], count);
      InnerWrite(t, e, p1, e1);
      r := Put(t, e, p1, e1);
      SameSpineSlots(t, e, r, p2);
      if Contradicts(e1, At(t, r, p2)) {
        r := Put(t, r, p1, Leaf(Unit(e1.op)));
        count' := count' + 1;
      }
    }
  }

  // ----- expr_eliminate_dups --------------------------------------------------

  /** One round: both passes over the whole tree. */
  function Round(e: Expr): (r: (Expr, nat))
    ensures Size(r.0) <= Size(e)
  {
    if !e.Bin? then (e, 0)
    else
      var (a, m) := JoinPass(e.op, e, [], []);
      var (b, n) := CancelPass(e.op, a, [], []);
      (b, m + n)
  }

  /** What is left when a round finds nothing more. */
  function DupFree(e: Expr): (r: Expr)
    decreases Size(e)
  {
    var (a, n) := Round(e);
    RoundKeeps(e);
    if n == 0 then a
    else
      EliminateYnNormal(a);
      DupFree(EliminateYn(a))
  }

  lemma {:induction false} RoundKeeps(e: Expr)
    ensures var (r, n) := Round(e);
      && KeepsValue(e, r) && NotsKept(e, r)
      && (n == 0 ==> r == e && FreeOfJoins(e) && FreeOfContradictions(e))
      && (n > 0 ==> !YnFree(r))
  {
    if e.Bin? {
      var (a, m) := JoinPass(e.op, e, [], []);
      JoinPassKeeps(e.op, e, [], []);
      CancelPassKeeps(e.op, a, [], []);
    }
  }

  /**
   * Whatever evaluates to y or n keeps its value on every assignment.  The result is a fixpoint: no two
   * operands can be joined, none contradicts another, and doing it again changes nothing.
   */
  lemma {:induction false} DupFreeKeeps(e: Expr)
    ensures KeepsValue(e, DupFree(e)) && NotsKept(e, DupFree(e))
    ensures DupFree(e) == e || YnFree(DupFree(e))
    ensures FreeOfJoins(DupFree(e)) && FreeOfContradictions(DupFree(e))
    ensures Size(DupFree(e)) <= Size(e)
    ensures Round(DupFree(e)) == (DupFree(e), 0) && DupFree(DupFree(e)) == DupFree(e)
    decreases Size(e)
  {
    var (a, n) := Round(e);
    RoundKeeps(e);
    if n > 0 {
      EliminateYnNormal(a);
      EliminateYnKeeps(a);
      DupFreeKeeps(EliminateYn(a));
      KeepsTrans(e, a, EliminateYn(a), DupFree(e));
    }
  }

  lemma {:induction false} KeepsTrans(a: Expr, b: Expr, c: Expr, d: Expr)
    requires KeepsValue(a, b) && SameValue(b, c) && KeepsValue(c, d)
    ensures KeepsValue(a, d)
  {}

  /**
   * expr_eliminate_dups.  It terminates because every round that changes something leaves a constant
   * operand, so that expr_eliminate_yn makes the tree smaller.
   */
  method EliminateDups(e0: Expr) returns (e: Expr)
    ensures e == DupFree(e0)
  {
    e := e0;
    while true
      invariant DupFree(e) == DupFree(e0)
      decreases Size(e)
    {
      var count := 0;
      RoundKeeps(e);
      if e.Bin? {
        e, count := Dups1(e.op, e, [], [], count);
        e, count := Dups2(e.op, e, [], [], count);
      }
      if count == 0 {
        break;
      }
      EliminateYnNormal(e);
      e := EliminateYn(e);
    }
  }

  lemma {:induction false} EliminateYnKeeps(e: Expr)
    ensures SameValue(e, EliminateYn(e)) && NotsKept(e, EliminateYn(e))
  {
    if NotAtSymbols(e) {
      EliminateYnNots(e);
    }
    forall env: Env | env.Valid() ensures Calc(e, env) == Calc(EliminateYn(e), env) {
      EliminateYnValue(e, env);
    }
  }

  lemma {:induction false} EliminateYnNots(e: Expr)
    requires NotAtSymbols(e)
    ensures NotAtSymbols(EliminateYn(e))
  {
    if e.Bin? {
      EliminateYnNots(e.left);
      EliminateYnNots(e.right);
    }
  }

  // ----- where the value can change ------------------------------------------

  /** Every bare symbol operand outside comparisons is y or n under the assignment. */
  predicate OperandsTwoValued(e: Expr, env: Env) {
    match e
    case Leaf(s) => env.tri(s) != MOD
    case Cmp(_, _, _) => true
    case Not(a) => OperandsTwoValued(a, env)
    case Bin(_, l, r) => OperandsTwoValued(l, env) && OperandsTwoValued(r, env)
  }

  lemma {:induction false} TwoValuedIsNotMod(e: Expr, env: Env)
    requires OperandsTwoValued(e, env)
    ensures Calc(e, env) != MOD
  {
    match e
    case Leaf(_) =>
    case Cmp(_, _, _) =>
    case Not(a) => TwoValuedIsNotMod(a, env);
    case Bin(_, a, b) =>
      TwoValuedIsNotMod(a, env);
      TwoValuedIsNotMod(b, env);
  }

  /** With two-valued operands nothing evaluates to m, so expr_eliminate_dups keeps the value exactly. */
  lemma {:induction false} TwoValuedIsKept(e: Expr, env: Env)
    requires env.Valid() && OperandsTwoValued(e, env)
    ensures Calc(DupFree(e), env) == Calc(e, env)
  {
    TwoValuedIsNotMod(e, env);
    DupFreeKeeps(e);
    assert Keeps(Calc(e, env), Calc(DupFree(e), env));
  }

  /**
   * One cancelling step replaces "operand joined with what contradicts it" by the zero of the spine.
   * That is exact on an assignment if and only if the two are not both m there.
   */
  lemma {:induction false} CancelStepExact(e1: Expr, e2: Expr, env: Env)
    requires env.Valid() && e1.Bin? && Contradicts(e1, e2)
    ensures var t := Dual(e1.op);
      (OpVal(t, Calc(e1, env), Calc(e2, env)) == Calc(Leaf(Zero(t)), env)) <==>
      !(Calc(e1, env) == MOD && Calc(e2, env) == MOD)
  {
    ContradictsBounds(e1, e2, env);
  }
}
