/**
 * `struct expr **` slots into one tree.  A slot is the path from the root; two slots alias exactly
 * when their paths are equal, and writing through one is seen through every slot above it.
 */
module Slots {
  import opened Tristates
  import opened Exprs
  import opened Transforms

  /** false is &e->left.expr, true is &e->right.expr. */
  type Slot = seq<bool>

  function Child(e: Expr, side: bool): (c: Expr)
    requires e.Bin?
    ensures Size(c) < Size(e)
  {
    if side then e.right else e.left
  }

  /** Every node strictly above the slot is a `t` node. */
  predicate OnSpine(t: BinOp, e: Expr, p: Slot) {
    p != [] ==> IsOp(t, e) && OnSpine(t, Child(e, p[0]), p[1..])
  }

  /** Reading through a slot. */
  function At(t: BinOp, e: Expr, p: Slot): (x: Expr)
    requires OnSpine(t, e, p)
    ensures Size(x) <= Size(e)
    ensures p != [] ==> Size(x) < Size(e)
  {
    if p == [] then e else At(t, Child(e, p[0]), p[1..])
  }

  /** Writing through a slot. */
  function Put(t: BinOp, e: Expr, p: Slot, x: Expr): Expr
    requires OnSpine(t, e, p)
  {
    if p == [] then x
    else if p[0] then Bin(t, e.left, Put(t, e.right, p[1..], x))
    else Bin(t, Put(t, e.left, p[1..], x), e.right)
  }

  /** The slot holds an operand of the `t`-spine, not a node of it. */
  predicate IsOperand(t: BinOp, e: Expr, p: Slot) {
    OnSpine(t, e, p) && !IsOp(t, At(t, e, p))
  }

  /** The same `t` nodes in the same places. */
  predicate SameSpine(t: BinOp, a: Expr, b: Expr) {
    && (IsOp(t, a) <==> IsOp(t, b))
    && (IsOp(t, a) ==> SameSpine(t, a.left, b.left) && SameSpine(t, a.right, b.right))
  }

  function SpineNodes(t: BinOp, e: Expr): nat {
    if IsOp(t, e) then 1 + SpineNodes(t, e.left) + SpineNodes(t, e.right) else 0
  }

  lemma {:induction false} SameSpineRefl(t: BinOp, a: Expr)
    ensures SameSpine(t, a, a)
  {
    if IsOp(t, a) {
      SameSpineRefl(t, a.left);
      SameSpineRefl(t, a.right);
    }
  }

  lemma {:induction false} SameSpineTrans(t: BinOp, a: Expr, b: Expr, c: Expr)
    requires SameSpine(t, a, b) && SameSpine(t, b, c)
    ensures SameSpine(t, a, c)
  {
    if IsOp(t, a) {
      SameSpineTrans(t, a.left, b.left, c.left);
      SameSpineTrans(t, a.right, b.right, c.right);
    }
  }

  lemma {:induction false} SameSpineSlots(t: BinOp, a: Expr, b: Expr, p: Slot)
    requires SameSpine(t, a, b) && OnSpine(t, a, p)
    ensures OnSpine(t, b, p)
    ensures SameSpine(t, At(t, a, p), At(t, b, p))
    ensures SpineNodes(t, At(t, a, p)) == SpineNodes(t, At(t, b, p))
  {
    if p != [] {
      SameSpineSlots(t, Child(a, p[0]), Child(b, p[0]), p[1..]);
    } else if IsOp(t, a) {
      SameSpineSlots(t, a.left, b.left, []);
      SameSpineSlots(t, a.right, b.right, []);
    }
  }

  lemma {:induction false} Descend(t: BinOp, e: Expr, p: Slot, side: bool)
    requires OnSpine(t, e, p) && IsOp(t, At(t, e, p))
    ensures OnSpine(t, e, p + [side])
    ensures At(t, e, p + [side]) == Child(At(t, e, p), side)
  {
    if p == [] {
      assert (p + [side])[1..] == [];
    } else {
      assert (p + [side])[1..] == p[1..] + [side];
      Descend(t, Child(e, p[0]), p[1..], side);
    }
  }

  /** An operand slot is not extended by any other slot of the spine. */
  lemma {:induction false} OperandHasNoExtension(t: BinOp, e: Expr, p: Slot, q: Slot)
    requires IsOperand(t, e, p) && OnSpine(t, e, q) && p <= q
    ensures p == q
  {
    if p != [] {
      assert p[1..] <= q[1..];
      OperandHasNoExtension(t, Child(e, p[0]), p[1..], q[1..]);
      assert p == [p[0]] + p[1..] && q == [q[0]] + q[1..];
    }
  }

  /** Writing an operand: the spine stays, other operands stay, the size changes by the difference. */
  lemma {:induction false} PutOperand(t: BinOp, e: Expr, p: Slot, x: Expr)
    requires IsOperand(t, e, p) && !IsOp(t, x)
    ensures SameSpine(t, e, Put(t, e, p, x))
    ensures OnSpine(t, Put(t, e, p, x), p) && At(t, Put(t, e, p, x), p) == x
    ensures Size(Put(t, e, p, x)) == Size(e) - Size(At(t, e, p)) + Size(x)
  {
    if p != [] {
      PutOperand(t, Child(e, p[0]), p[1..], x);
      SameSpineRefl(t, Child(e, !p[0]));
    }
  }

  lemma {:induction false} PutElsewhere(t: BinOp, e: Expr, p: Slot, x: Expr, q: Slot)
    requires IsOperand(t, e, p) && IsOperand(t, e, q) && p != q && !IsOp(t, x)
    ensures OnSpine(t, Put(t, e, p, x), q) && At(t, Put(t, e, p, x), q) == At(t, e, q)
  {
    if p == [] {
      OperandHasNoExtension(t, e, p, q);
    } else if q == [] {
      OperandHasNoExtension(t, e, q, p);
    } else if p[0] == q[0] {
      assert p == [p[0]] + p[1..] && q == [q[0]] + q[1..];
      PutElsewhere(t, Child(e, p[0]), p[1..], x, q[1..]);
    }
  }

  /** A constant in an operand slot makes the tree shrink under expr_eliminate_yn. */
  lemma {:induction false} ConstOperandNotYnFree(t: BinOp, e: Expr, p: Slot)
    requires OnSpine(t, e, p) && p != [] && (At(t, e, p) == E_YES || At(t, e, p) == E_NO)
    ensures !YnFree(e)
  {
    if |p| > 1 {
      ConstOperandNotYnFree(t, Child(e, p[0]), p[1..]);
    }
  }

  lemma {:induction false} NotYnFreeBelow(t: BinOp, e: Expr, p: Slot)
    requires OnSpine(t, e, p) && !YnFree(At(t, e, p))
    ensures !YnFree(e)
  {
    if p != [] {
      NotYnFreeBelow(t, Child(e, p[0]), p[1..]);
    }
  }

  /** Where NOT stands only above symbols, reading and writing through a slot keeps it so. */
  lemma {:induction false} SlotNots(t: BinOp, e: Expr, p: Slot, x: Expr)
    requires OnSpine(t, e, p) && NotAtSymbols(e)
    ensures NotAtSymbols(At(t, e, p))
    ensures NotAtSymbols(x) ==> NotAtSymbols(Put(t, e, p, x))
  {
    if p != [] {
      SlotNots(t, Child(e, p[0]), p[1..], x);
    }
  }

  predicate NotsKept(a: Expr, b: Expr) { NotAtSymbols(a) ==> NotAtSymbols(b) }

  // ----- values --------------------------------------------------------------

  /** Equal on every assignment, m included. */
  ghost predicate SameValue(a: Expr, b: Expr) {
    forall env: Env :: env.Valid() ==> Calc(a, env) == Calc(b, env)
  }

  /** y and n are kept; only m may turn into something else. */
  predicate Keeps(v: Tristate, w: Tristate) { v != MOD ==> w == v }

  ghost predicate KeepsValue(a: Expr, b: Expr) {
    forall env: Env :: env.Valid() ==> Keeps(Calc(a, env), Calc(b, env))
  }

  /** Every spine node and operand is below the root under AND and above it under OR. */
  lemma {:induction false} SlotBounds(t: BinOp, e: Expr, p: Slot, env: Env)
    requires OnSpine(t, e, p)
    ensures OpVal(t, Calc(e, env), Calc(At(t, e, p), env)) == Calc(e, env)
  {
    if p != [] {
      SlotBounds(t, Child(e, p[0]), p[1..], env);
    }
  }

  /** Exchange law: what a write takes away from the root is the old operand, what it adds the new one. */
  lemma {:induction false} PutExchange(t: BinOp, e: Expr, p: Slot, x: Expr, env: Env)
    requires OnSpine(t, e, p)
    ensures OpVal(t, Calc(Put(t, e, p, x), env), Calc(At(t, e, p), env)) == OpVal(t, Calc(e, env), Calc(x, env))
  {
    if p != [] {
      var c, s := Child(e, p[0]), Child(e, !p[0]);
      var c' := Put(t, c, p[1..], x);
      PutExchange(t, c, p[1..], x, env);
      ExchangeBeside(t, Calc(c, env), Calc(c', env), Calc(At(t, c, p[1..]), env), Calc(x, env), Calc(s, env));
    }
  }

  lemma {:induction false} ExchangeBeside(t: BinOp, c: Tristate, c': Tristate, a: Tristate, x: Tristate, s: Tristate)
    requires OpVal(t, c', a) == OpVal(t, c, x)
    ensures OpVal(t, OpVal(t, c', s), a) == OpVal(t, OpVal(t, c, s), x)
    ensures OpVal(t, OpVal(t, s, c'), a) == OpVal(t, OpVal(t, s, c), x)
  {}

  lemma {:induction false} PutSame(t: BinOp, e: Expr, p: Slot, x: Expr, env: Env)
    requires OnSpine(t, e, p) && Calc(At(t, e, p), env) == Calc(x, env)
    ensures Calc(Put(t, e, p, x), env) == Calc(e, env)
  {
    if p != [] {
      PutSame(t, Child(e, p[0]), p[1..], x, env);
    }
  }

  lemma {:induction false} PutKeeps(t: BinOp, e: Expr, p: Slot, x: Expr, env: Env)
    requires OnSpine(t, e, p) && Keeps(Calc(At(t, e, p), env), Calc(x, env))
    ensures Keeps(Calc(e, env), Calc(Put(t, e, p, x), env))
  {
    if p != [] {
      PutKeeps(t, Child(e, p[0]), p[1..], x, env);
    }
  }

  /** Moving an operand's value into another slot of the same spine keeps the value of the tree. */
  lemma {:induction false} MergeOperands(t: BinOp, e: Expr, p: Slot, q: Slot, x: Expr, env: Env)
    requires IsOperand(t, e, p) && IsOperand(t, e, q) && p != q && env.Valid()
    requires OnSpine(t, Put(t, e, p, Leaf(Unit(t))), q)
    requires Calc(x, env) == OpVal(t, Calc(At(t, e, p), env), Calc(At(t, e, q), env))
    ensures Calc(Put(t, Put(t, e, p, Leaf(Unit(t))), q, x), env) == Calc(e, env)
  {
    if p == [] {
      OperandHasNoExtension(t, e, p, q);
    } else if q == [] {
      OperandHasNoExtension(t, e, q, p);
    } else if p[0] == q[0] {
      assert p == [p[0]] + p[1..] && q == [q[0]] + q[1..];
      MergeOperands(t, Child(e, p[0]), p[1..], q[1..], x, env);
    } else {
      MergeApart(t, Child(e, p[0]), p[1..], Child(e, q[0]), q[1..], x, env);
    }
  }

  /** The two operands lie in different subtrees. */
  lemma {:induction false} MergeApart(t: BinOp, f: Expr, p: Slot, g: Expr, q: Slot, x: Expr, env: Env)
    requires OnSpine(t, f, p) && OnSpine(t, g, q) && env.Valid()
    requires Calc(x, env) == OpVal(t, Calc(At(t, f, p), env), Calc(At(t, g, q), env))
    ensures var f', g' := Put(t, f, p, Leaf(Unit(t))), Put(t, g, q, x);
      && OpVal(t, Calc(f', env), Calc(g', env)) == OpVal(t, Calc(f, env), Calc(g, env))
      && OpVal(t, Calc(g', env), Calc(f', env)) == OpVal(t, Calc(g, env), Calc(f, env))
  {
    var u := Leaf(Unit(t));
    PutExchange(t, f, p, u, env);
    PutExchange(t, g, q, x, env);
    SlotBounds(t, f, p, env);
    SlotBounds(t, g, q, env);
    SlotBounds(t, Put(t, g, q, x), [], env);
    PutBounds(t, g, q, x, env);
    MergeArithmetic(t, Calc(f, env), Calc(Put(t, f, p, u), env), Calc(At(t, f, p), env),
                    Calc(g, env), Calc(Put(t, g, q, x), env), Calc(At(t, g, q), env));
  }

  lemma {:induction false} PutBounds(t: BinOp, e: Expr, p: Slot, x: Expr, env: Env)
    requires OnSpine(t, e, p)
    ensures OpVal(t, Calc(Put(t, e, p, x), env), Calc(x, env)) == Calc(Put(t, e, p, x), env)
  {
    if p != [] {
      PutBounds(t, Child(e, p[0]), p[1..], x, env);
    }
  }

  lemma {:induction false} MergeArithmetic(t: BinOp, f: Tristate, f': Tristate, a: Tristate, g: Tristate,
      g': Tristate, b: Tristate)
    requires OpVal(t, f', a) == f && OpVal(t, g', b) == OpVal(t, g, OpVal(t, a, b))
    requires OpVal(t, f, a) == f && OpVal(t, g, b) == g && OpVal(t, g', OpVal(t, a, b)) == g'
    ensures OpVal(t, f', g') == OpVal(t, f, g)
    ensures OpVal(t, g', f') == OpVal(t, g, f)
  {}
}
