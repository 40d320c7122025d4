/** struct expr nodes in memory: the rewriting functions that work in place, proved against the functions on trees. */
module ExprNodes {
  import opened Exprs
  import opened Transforms
  import opened ExprEquality

  datatype Kind = SymbolK | NotK | OpK(op: BinOp) | CmpK(cmp: CmpOp)

  /** struct expr; the two unions are a node pointer and a symbol pointer each. */
  class ExprNode {
    var kind: Kind
    var left: ExprNode?
    var right: ExprNode?
    var lsym: Symbol
    var rsym: Symbol
    /** The tree that hangs here, and the nodes it is made of. */
    ghost var tree: Expr
    ghost var repr: set<ExprNode>

    ghost predicate Valid()
      reads this, repr
      decreases repr
    {
      && this in repr
      && match tree
         case Leaf(s) => kind == SymbolK && lsym == s
         case Cmp(c, l, r) => kind == CmpK(c) && lsym == l && rsym == r
         case Not(a) =>
           && kind == NotK && left != null && left in repr && left.repr <= repr && this !in left.repr
           && left.Valid() && left.tree == a
         case Bin(op, l, r) =>
           && kind == OpK(op)
           && left != null && left in repr && left.repr <= repr && this !in left.repr
           && right != null && right in repr && right.repr <= repr && this !in right.repr
           && left.repr !! right.repr && left.Valid() && right.Valid() && left.tree == l && right.tree == r
    }

    /** expr_alloc_symbol */
    constructor Sym(s: Symbol)
      ensures Valid() && fresh(repr) && tree == Leaf(s)
    {
      kind, left, right, lsym, rsym := SymbolK, null, null, s, SYM_NO;
      tree, repr := Leaf(s), {this};
    }

    /** expr_alloc_comp */
    constructor Comp(c: CmpOp, l: Symbol, r: Symbol)
      ensures Valid() && fresh(repr) && tree == Cmp(c, l, r)
    {
      kind, left, right, lsym, rsym := CmpK(c), null, null, l, r;
      tree, repr := Cmp(c, l, r), {this};
    }

    /** expr_alloc_one(E_NOT, e) */
    constructor Negate(e: ExprNode)
      requires e.Valid()
      ensures Valid() && fresh(repr - e.repr) && tree == Not(e.tree) && repr == {this} + e.repr
    {
      kind, left, right, lsym, rsym := NotK, e, null, SYM_NO, SYM_NO;
      tree, repr := Not(e.tree), {this} + e.repr;
    }

    /** expr_alloc_two */
    constructor Two(op: BinOp, l: ExprNode, r: ExprNode)
      requires l.Valid() && r.Valid() && l.repr !! r.repr
      ensures Valid() && fresh(repr - l.repr - r.repr) && tree == Bin(op, l.tree, r.tree)
    {
      kind, left, right, lsym, rsym := OpK(op), l, r, SYM_NO, SYM_NO;
      tree, repr := Bin(op, l.tree, r.tree), {this} + l.repr + r.repr;
    }
  }

  /** expr_copy */
  method Copy(e: ExprNode) returns (r: ExprNode)
    requires e.Valid()
    ensures r.Valid() && fresh(r.repr) && r.tree == e.tree
    decreases e.tree
  {
    if e.kind == SymbolK {
      r := new ExprNode.Sym(e.lsym);
    } else if e.kind.CmpK? {
      r := new ExprNode.Comp(e.kind.cmp, e.lsym, e.rsym);
    } else if e.kind == NotK {
      var a := Copy(e.left);
      r := new ExprNode.Negate(a);
    } else {
      var a := Copy(e.left);
      var b := Copy(e.right);
      r := new ExprNode.Two(e.kind.op, a, b);
    }
  }

  /** `*e = *other`: the node takes over what the other one is. */
  method Become(e: ExprNode, other: ExprNode)
    requires other.Valid() && e !in other.repr && e in e.repr
    modifies e
    ensures e.Valid() && e.tree == other.tree && e.repr == {e} + (other.repr - {other})
  {
    e.kind, e.left, e.right, e.lsym, e.rsym := other.kind, other.left, other.right, other.lsym, other.rsym;
    e.tree, e.repr := other.tree, {e} + (other.repr - {other});
  }

  /** The operands of an AND/OR node are stored. */
  method SetOperands(e: ExprNode, op: BinOp, l: ExprNode, r: ExprNode)
    requires l.Valid() && r.Valid() && l.repr !! r.repr && e !in l.repr && e !in r.repr
    modifies e
    ensures e.Valid() && e.tree == Bin(op, l.tree, r.tree) && e.repr == {e} + l.repr + r.repr
  {
    e.kind, e.left, e.right := OpK(op), l, r;
    e.tree, e.repr := Bin(op, l.tree, r.tree), {e} + l.repr + r.repr;
    assert l.Valid();
    assert r.Valid();
  }

  /** The operand of a NOT is stored. */
  method SetOperand(e: ExprNode, a: ExprNode)
    requires a.Valid() && e !in a.repr
    modifies e
    ensures e.Valid() && e.tree == Not(a.tree) && e.repr == {e} + a.repr
  {
    e.kind, e.left, e.right := NotK, a, null;
    e.tree, e.repr := Not(a.tree), {e} + a.repr;
  }

  /** The node turns into a symbol. */
  method BecomeSym(e: ExprNode, s: Symbol)
    modifies e
    ensures e.Valid() && e.tree == Leaf(s) && e.repr == {e}
  {
    e.kind, e.lsym, e.right := SymbolK, s, null;
    e.tree, e.repr := Leaf(s), {e};
  }

  /** expr_eliminate_yn */
  method EliminateYnInPlace(e: ExprNode)
    requires e.Valid()
    modifies e.repr
    ensures e.Valid() && e.tree == EliminateYn(old(e.tree)) && e.repr <= old(e.repr)
    decreases e.tree
  {
    if e.kind.OpK? {
      var t := e.kind.op;
      var l, r := e.left, e.right;
      EliminateYnInPlace(l);
      EliminateYnInPlace(r);
      e.tree := Bin(t, l.tree, r.tree);
      if l.kind == SymbolK && l.lsym == Zero(t) {
        BecomeSym(e, Zero(t));
      } else if l.kind == SymbolK && l.lsym == Unit(t) {
        Become(e, r);
      } else if r.kind == SymbolK && r.lsym == Zero(t) {
        BecomeSym(e, Zero(t));
      } else if r.kind == SymbolK && r.lsym == Unit(t) {
        Become(e, l);
      }
    }
  }

  /** expr_trans_bool */
  method TransBoolInPlace(e: ExprNode)
    requires e.Valid()
    modifies e.repr
    ensures e.Valid() && e.tree == TransBool(old(e.tree)) && e.repr <= old(e.repr)
    decreases e.tree
  {
    match e.kind
    case SymbolK =>
    case NotK =>
      TransBoolInPlace(e.left);
      e.tree := Not(e.left.tree);
    case OpK(t) =>
      TransBoolInPlace(e.left);
      TransBoolInPlace(e.right);
      e.tree := Bin(t, e.left.tree, e.right.tree);
    case CmpK(c) =>
      if c == Unequal && e.lsym.Type() == Tri && e.rsym == SYM_NO {
        BecomeSym(e, e.lsym);
      }
  }

  // ----- expr_transform ------------------------------------------------------------

  /** The comparison cases: a boolean symbol compared with y, m or n. */
  method TransformCmpInPlace(e: ExprNode)
    requires e.Valid() && e.tree.Cmp?
    modifies e
    ensures e.Valid() && e.tree == TransformCmp(old(e.tree.cmp), old(e.tree.lhs), old(e.tree.rhs))
    ensures fresh(e.repr - old(e.repr))
  {
    var c, l, r := e.kind.cmp, e.lsym, e.rsym;
    if l.Type() == Boolean {
      if (r == SYM_NO && c == Equal) || (r == SYM_YES && c == Unequal) {
        var a := new ExprNode.Sym(l);
        e.kind, e.left := NotK, a;
        e.tree, e.repr := Not(a.tree), {e} + a.repr;
      } else if r == SYM_MOD {
        BecomeSym(e, if c == Equal then SYM_NO else SYM_YES);
      } else if r == SYM_NO || r == SYM_YES {
        BecomeSym(e, l);
      }
    }
  }

  /** What expr_transform makes of NOT above an operand that is already transformed. */
  function TransformNot(x: Expr): Expr {
    match x
    case Not(b) => Transform(b)
    case Cmp(c, l, r) => Cmp(Flip(c), l, r)
    case Bin(t, l, r) => Transform(DeMorgan(t, l, r))
    case Leaf(s) => NegateSym(s)
  }

  /** expr_transform.  A NOT may be replaced by its operand, so the caller stores the result. */
  method TransformInPlace(e: ExprNode) returns (r: ExprNode)
    requires e.Valid()
    modifies e.repr
    ensures r.Valid() && r.tree == Transform(old(e.tree)) && fresh(r.repr - old(e.repr))
    decreases Weight(e.tree), 1
  {
    r := e;
    if e.kind.CmpK? {
      TransformCmpInPlace(e);
    } else if e.kind.OpK? {
      var a := TransformInPlace(e.left);
      var b := TransformInPlace(e.right);
      SetOperands(e, e.kind.op, a, b);
    } else if e.kind == NotK {
      var a := TransformInPlace(e.left);
      SetOperand(e, a);
      r := TransformNotInPlace(e);
    }
  }

  /** The E_NOT case. */
  method TransformNotInPlace(e: ExprNode) returns (r: ExprNode)
    requires e.Valid() && e.tree.Not?
    modifies e.repr
    ensures r.Valid() && r.tree == TransformNot(old(e.tree.arg)) && fresh(r.repr - old(e.repr))
    decreases Weight(e.tree), 0
  {
    var a := e.left;
    r := e;
    if a.kind == NotK {
      assert Weight(e.tree) == 2 * (2 * Weight(a.left.tree)) by {
        assert e.tree == Not(Not(a.left.tree)) && Weight(Not(a.left.tree)) == 2 * Weight(a.left.tree);
      }
      r := TransformInPlace(a.left);
    } else if a.kind.CmpK? {
      r := a;
      r.kind := CmpK(Flip(a.kind.cmp));
      r.tree := Cmp(r.kind.cmp, r.lsym, r.rsym);
    } else if a.kind.OpK? {
      PushNot(e);
      r := TransformInPlace(e);
    } else if IsTriConst(a.lsym) {
      r := a;
      BecomeSym(r, if a.lsym == SYM_YES then SYM_NO else if a.lsym == SYM_NO then SYM_YES else SYM_MOD);
    }
  }

  /** !(a || b) -> !a && !b, reusing both nodes and allocating one. */
  method PushNot(e: ExprNode)
    requires e.Valid() && e.tree.Not? && e.tree.arg.Bin?
    modifies e, e.left
    ensures e.Valid() && fresh(e.repr - old(e.repr))
    ensures var b := old(e.tree.arg); e.tree == DeMorgan(b.op, b.left, b.right)
  {
    var a := e.left;
    var t := a.kind.op;
    var l, r := a.left, a.right;
    var nr := new ExprNode.Negate(r);
    SetOperand(a, l);
    SetOperands(e, Dual(t), a, nr);
  }

  // ----- expr_eq and expr_eliminate_eq ----------------------------------------------

  /** __expr_eliminate_eq: the operands found in both trees become neutral constants. */
  method CancelEqInPlace(t: BinOp, a: ExprNode, b: ExprNode) returns (a': ExprNode, b': ExprNode)
    requires a.Valid() && b.Valid() && a.repr !! b.repr
    modifies a.repr, b.repr
    ensures a'.Valid() && b'.Valid() && a'.repr !! b'.repr
    ensures fresh(a'.repr - old(a.repr)) && fresh(b'.repr - old(b.repr))
    ensures (a'.tree, b'.tree) == CancelEq(t, old(a.tree), old(b.tree))
    decreases Size(a.tree) + Size(b.tree), if IsOp(t, a.tree) || IsOp(t, b.tree) then 2 else 7
  {
    if a.kind == OpK(t) {
      a', b' := CancelBelowFirst(t, a, b);
    } else if b.kind == OpK(t) {
      a', b' := CancelBelowSecond(t, a, b);
    } else {
      a', b' := CancelOperands(t, a, b);
    }
  }

  method CancelBelowFirst(t: BinOp, a: ExprNode, b: ExprNode) returns (a': ExprNode, b': ExprNode)
    requires a.Valid() && b.Valid() && a.repr !! b.repr && IsOp(t, a.tree)
    modifies a.repr, b.repr
    ensures a'.Valid() && b'.Valid() && a'.repr !! b'.repr
    ensures fresh(a'.repr - old(a.repr)) && fresh(b'.repr - old(b.repr))
    ensures (a'.tree, b'.tree) == CancelEq(t, old(a.tree), old(b.tree))
    decreases Size(a.tree) + Size(b.tree), 1
  {
    assert Size(a.tree) == 1 + Size(a.left.tree) + Size(a.right.tree);
    var l, r;
    l, r, b' := CancelFirstPair(t, a.left, a.right, b);
    SetOperands(a, t, l, r);
    a' := a;
  }

  method CancelBelowSecond(t: BinOp, a: ExprNode, b: ExprNode) returns (a': ExprNode, b': ExprNode)
    requires a.Valid() && b.Valid() && a.repr !! b.repr && !IsOp(t, a.tree) && IsOp(t, b.tree)
    modifies a.repr, b.repr
    ensures a'.Valid() && b'.Valid() && a'.repr !! b'.repr
    ensures fresh(a'.repr - old(a.repr)) && fresh(b'.repr - old(b.repr))
    ensures (a'.tree, b'.tree) == CancelEq(t, old(a.tree), old(b.tree))
    decreases Size(a.tree) + Size(b.tree), 1
  {
    assert Size(b.tree) == 1 + Size(b.left.tree) + Size(b.right.tree);
    var l, r;
    a', l, r := CancelSecondPair(t, a, b.left, b.right);
    SetOperands(b, t, l, r);
    b' := b;
  }

  /** Both operands of a spine node in the first slot, one after the other, against the second slot. */
  method CancelFirstPair(t: BinOp, x: ExprNode, y: ExprNode, b: ExprNode)
      returns (x': ExprNode, y': ExprNode, b': ExprNode)
    requires x.Valid() && y.Valid() && b.Valid() && x.repr !! y.repr && x.repr !! b.repr && y.repr !! b.repr
    modifies x.repr, y.repr, b.repr
    ensures x'.Valid() && y'.Valid() && b'.Valid() && x'.repr !! y'.repr && x'.repr !! b'.repr && y'.repr !! b'.repr
    ensures fresh(x'.repr - old(x.repr)) && fresh(y'.repr - old(y.repr)) && fresh(b'.repr - old(b.repr))
    ensures (Bin(t, x'.tree, y'.tree), b'.tree) == CancelEq(t, Bin(t, old(x.tree), old(y.tree)), old(b.tree))
    decreases 1 + Size(x.tree) + Size(y.tree) + Size(b.tree), 0
  {
    ghost var all := Bin(t, x.tree, y.tree);
    assert Size(all) == 1 + Size(x.tree) + Size(y.tree);
    x', b' := CancelEqInPlace(t, x, b);
    y', b' := CancelEqInPlace(t, y, b');
  }

  /** The same for a spine node in the second slot. */
  method CancelSecondPair(t: BinOp, a: ExprNode, x: ExprNode, y: ExprNode)
      returns (a': ExprNode, x': ExprNode, y': ExprNode)
    requires x.Valid() && y.Valid() && a.Valid() && x.repr !! y.repr && x.repr !! a.repr && y.repr !! a.repr
    requires !IsOp(t, a.tree)
    modifies x.repr, y.repr, a.repr
    ensures x'.Valid() && y'.Valid() && a'.Valid() && x'.repr !! y'.repr && x'.repr !! a'.repr && y'.repr !! a'.repr
    ensures fresh(x'.repr - old(x.repr)) && fresh(y'.repr - old(y.repr)) && fresh(a'.repr - old(a.repr))
    ensures (a'.tree, Bin(t, x'.tree, y'.tree)) == CancelEq(t, old(a.tree), Bin(t, old(x.tree), old(y.tree)))
    decreases 1 + Size(x.tree) + Size(y.tree) + Size(a.tree), 0
  {
    ghost var all := Bin(t, x.tree, y.tree);
    assert Size(all) == 1 + Size(x.tree) + Size(y.tree);
    a', x' := CancelEqInPlace(t, a, x);
    a', y' := CancelEqInPlace(t, a', y);
  }

  /** Two operands: equal ones are replaced, but the same y or the same n is left alone. */
  method CancelOperands(t: BinOp, a: ExprNode, b: ExprNode) returns (a': ExprNode, b': ExprNode)
    requires a.Valid() && b.Valid() && a.repr !! b.repr && !IsOp(t, a.tree) && !IsOp(t, b.tree)
    ensures a'.Valid() && b'.Valid() && a'.repr !! b'.repr
    ensures fresh(a'.repr - a.repr) && fresh(b'.repr - b.repr)
    ensures (a'.tree, b'.tree) == CancelEq(t, a.tree, b.tree)
    decreases Size(a.tree) + Size(b.tree), 6
  {
    a', b' := a, b;
    if !(a.kind == SymbolK && b.kind == SymbolK && a.lsym == b.lsym && (a.lsym == SYM_YES || a.lsym == SYM_NO)) {
      var same := ExprEqCheck(a, b);
      if same {
        a' := new ExprNode.Sym(Unit(t));
        b' := new ExprNode.Sym(Unit(t));
      }
    }
  }

  /** expr_eliminate_eq */
  method EliminateEqInPlace(a: ExprNode, b: ExprNode) returns (a': ExprNode, b': ExprNode)
    requires a.Valid() && b.Valid() && a.repr !! b.repr
    modifies a.repr, b.repr
    ensures a'.Valid() && b'.Valid() && a'.repr !! b'.repr
    ensures fresh(a'.repr - old(a.repr)) && fresh(b'.repr - old(b.repr))
    ensures (a'.tree, b'.tree) == EliminateEq(old(a.tree), old(b.tree))
    decreases Size(a.tree) + Size(b.tree), 4
  {
    a', b' := CancelPassesInPlace(a, b);
    EliminateYnInPlace(a');
    EliminateYnInPlace(b');
  }

  /** Its one or two passes, first for the operator of the first tree, then for that of the second. */
  method CancelPassesInPlace(a: ExprNode, b: ExprNode) returns (a': ExprNode, b': ExprNode)
    requires a.Valid() && b.Valid() && a.repr !! b.repr
    modifies a.repr, b.repr
    ensures a'.Valid() && b'.Valid() && a'.repr !! b'.repr
    ensures fresh(a'.repr - old(a.repr)) && fresh(b'.repr - old(b.repr))
    ensures (a'.tree, b'.tree) == CancelPasses(old(a.tree), old(b.tree))
    decreases Size(a.tree) + Size(b.tree), 3
  {
    a', b' := a, b;
    if a'.kind.OpK? {
      a', b' := CancelEqInPlace(a'.kind.op, a', b');
    }
    if b'.kind.OpK? && a'.kind != b'.kind {
      a', b' := CancelEqInPlace(b'.kind.op, a', b');
    }
  }

  /** expr_eq works on copies, so nothing that was there before is changed. */
  method ExprEqCheck(a: ExprNode, b: ExprNode) returns (same: bool)
    requires a.Valid() && b.Valid()
    ensures same == ExprEq(a.tree, b.tree)
    decreases Size(a.tree) + Size(b.tree), 5
  {
    if a.kind != b.kind {
      return false;
    }
    if a.kind.CmpK? {
      return a.lsym == b.lsym && a.rsym == b.rsym;
    } else if a.kind == SymbolK {
      return a.lsym == b.lsym;
    } else if a.kind == NotK {
      same := ExprEqCheck(a.left, b.left);
    } else {
      var x := Copy(a);
      var y := Copy(b);
      x, y := EliminateEqInPlace(x, y);
      same := x.kind == SymbolK && y.kind == SymbolK && x.lsym == y.lsym;
    }
  }
}
