/** expr_join_or, expr_join_and and the cancelling test of expr_eliminate_dups2. */
module Joins {
  import opened Options
  import opened Tristates
  import opened Exprs
  import opened Transforms
  import opened ExprEquality

  /** The symbol that the first operand of a join is about, as `sym1` in the source. */
  function FirstSym(e: Expr): Option<Symbol> {
    match e
    case Leaf(s) => Some(s)
    case Cmp(_, l, _) => Some(l)
    case Not(Leaf(s)) => Some(s)
    case Not(Cmp(_, l, _)) => Some(l)
    case _ => None
  }

  /** `sym2`: under NOT only a symbol is accepted here. */
  function SecondSym(e: Expr): Option<Symbol> {
    match e
    case Leaf(s) => Some(s)
    case Cmp(_, l, _) => Some(l)
    case Not(Leaf(s)) => Some(s)
    case _ => None
  }

  /** The early exits: both operands are about one boolean or tristate symbol. */
  predicate SameSubject(e1: Expr, e2: Expr) {
    && FirstSym(e1).Some? && FirstSym(e1) == SecondSym(e2)
    && (FirstSym(e1).value.Type() == Boolean || FirstSym(e1).value.Type() == Tri)
  }

  /** Both are comparisons of kind `c`, one with `x` and the other with `y`. */
  predicate ComparedWith(e1: Expr, e2: Expr, c: CmpOp, x: Symbol, y: Symbol) {
    && e1.Cmp? && e2.Cmp? && e1.cmp == c && e2.cmp == c
    && ((e1.rhs == x && e2.rhs == y) || (e1.rhs == y && e2.rhs == x))
  }

  /** One is the bare symbol, the other a comparison of kind `c` with `x`. */
  predicate BareAnd(e1: Expr, e2: Expr, c: CmpOp, x: Symbol) {
    || (e1.Leaf? && e2.Cmp? && e2.cmp == c && e2.rhs == x)
    || (e2.Leaf? && e1.Cmp? && e1.cmp == c && e1.rhs == x)
  }

  function JoinOr(e1: Expr, e2: Expr): Option<Expr> {
    if ExprEq(e1, e2) then Some(e1)
    else if !SameSubject(e1, e2) then None
    else
      var s := FirstSym(e1).value;
      if s.Type() == Tri then
        if ComparedWith(e1, e2, Equal, SYM_YES, SYM_MOD) then Some(Cmp(Unequal, s, SYM_NO))
        else if ComparedWith(e1, e2, Equal, SYM_YES, SYM_NO) then Some(Cmp(Unequal, s, SYM_MOD))
        else if ComparedWith(e1, e2, Equal, SYM_MOD, SYM_NO) then Some(Cmp(Unequal, s, SYM_YES))
        else None
      else if (e1 == Not(Leaf(s)) && e2.Leaf?) || (e2 == Not(Leaf(s)) && e1.Leaf?) then Some(E_YES)
      else None
  }

  /** `(a = b) && (a != c)` for constants b and c. */
  function EqualButNot(s: Symbol, b: Symbol, c: Symbol): Option<Expr> {
    if b.Const? && c.Const? then Some(if b != c then Cmp(Equal, s, b) else E_NO) else None
  }

  function JoinAnd(e1: Expr, e2: Expr): Option<Expr> {
    if ExprEq(e1, e2) then Some(e1)
    else if !SameSubject(e1, e2) then None
    else
      var s := FirstSym(e1).value;
      if BareAnd(e1, e2, Equal, SYM_YES) then Some(Cmp(Equal, s, SYM_YES))
      else if BareAnd(e1, e2, Unequal, SYM_NO) then Some(Leaf(s))
      else if BareAnd(e1, e2, Unequal, SYM_MOD) then Some(Cmp(Equal, s, SYM_YES))
      else if s.Type() != Tri then None
      else if e1.Cmp? && e2.Cmp? && e1.cmp == Equal && e2.cmp == Unequal && e1.rhs.Const? && e2.rhs.Const? then
        EqualButNot(s, e1.rhs, e2.rhs)
      else if e1.Cmp? && e2.Cmp? && e1.cmp == Unequal && e2.cmp == Equal && e1.rhs.Const? && e2.rhs.Const? then
        EqualButNot(s, e2.rhs, e1.rhs)
      else if ComparedWith(e1, e2, Unequal, SYM_YES, SYM_NO) then Some(Cmp(Equal, s, SYM_MOD))
      else if ComparedWith(e1, e2, Unequal, SYM_YES, SYM_MOD) then Some(Cmp(Equal, s, SYM_NO))
      else if ComparedWith(e1, e2, Unequal, SYM_MOD, SYM_NO) then Some(Cmp(Equal, s, SYM_YES))
      else None
  }

  function Join(t: BinOp, e1: Expr, e2: Expr): Option<Expr> {
    if t == AndOp then JoinAnd(e1, e2) else JoinOr(e1, e2)
  }

  /** A join is worth exactly its two operands together, on all three values. */
  lemma {:induction false} JoinValue(t: BinOp, e1: Expr, e2: Expr, env: Env)
    requires env.Valid() && Join(t, e1, e2).Some?
    ensures Calc(Join(t, e1, e2).value, env) == OpVal(t, Calc(e1, env), Calc(e2, env))
  {
    if ExprEq(e1, e2) {
      ExprEqSound(e1, e2, env);
    } else if t == OrOp {
      JoinOrValue(e1, e2, env);
    } else {
      JoinAndValue(e1, e2, env);
    }
  }

  lemma {:induction false} JoinOrValue(e1: Expr, e2: Expr, env: Env)
    requires env.Valid() && !ExprEq(e1, e2) && JoinOr(e1, e2).Some?
    ensures Calc(JoinOr(e1, e2).value, env) == Max(Calc(e1, env), Calc(e2, env))
  {
    var s := FirstSym(e1).value;
    if s.Type() == Tri {
      assert e1.Cmp? && e2.Cmp? && e1.lhs == s && e2.lhs == s;
    } else {
      assert env.tri(s) != MOD;
    }
  }

  lemma {:induction false} JoinAndValue(e1: Expr, e2: Expr, env: Env)
    requires env.Valid() && !ExprEq(e1, e2) && JoinAnd(e1, e2).Some?
    ensures Calc(JoinAnd(e1, e2).value, env) == Min(Calc(e1, env), Calc(e2, env))
  {
    var s := FirstSym(e1).value;
    if e1.Leaf? || e2.Leaf? {
      BareAndValue(e1, e2, env);
    } else {
      ComparedAndValue(e1, e2, env);
    }
  }

  lemma {:induction false} BareAndValue(e1: Expr, e2: Expr, env: Env)
    requires env.Valid() && !ExprEq(e1, e2) && JoinAnd(e1, e2).Some? && (e1.Leaf? || e2.Leaf?)
    ensures Calc(JoinAnd(e1, e2).value, env) == Min(Calc(e1, env), Calc(e2, env))
  {
    var s := FirstSym(e1).value;
    assert env.str(s) == TriName(env.tri(s));
    assert env.str(SYM_YES) == "y" && env.str(SYM_MOD) == "m" && env.str(SYM_NO) == "n";
  }

  lemma {:induction false} ComparedAndValue(e1: Expr, e2: Expr, env: Env)
    requires env.Valid() && !ExprEq(e1, e2) && JoinAnd(e1, e2).Some? && !e1.Leaf? && !e2.Leaf?
    ensures Calc(JoinAnd(e1, e2).value, env) == Min(Calc(e1, env), Calc(e2, env))
  {
    var s := FirstSym(e1).value;
    assert e1.Cmp? && e2.Cmp? && e1.lhs == s && e2.lhs == s;
    assert env.str(s) == TriName(env.tri(s));
    assert env.str(SYM_YES) == "y" && env.str(SYM_MOD) == "m" && env.str(SYM_NO) == "n";
    assert e1.rhs.Const? ==> env.str(e1.rhs) == e1.rhs.text;
    assert e2.rhs.Const? ==> env.str(e2.rhs) == e2.rhs.text;
  }

  /** What an operand says about one symbol: it alone, its negation, or a comparison. */
  datatype Literal = Bare | Negated | Is(cmp: CmpOp, with: Symbol)

  /** The operand that says so. */
  function Spelled(s: Symbol, l: Literal): Expr {
    match l
    case Bare => Leaf(s)
    case Negated => Not(Leaf(s))
    case Is(c, x) => Cmp(c, s, x)
  }

  /** Either way round. */
  predicate EitherWay(a: Literal, b: Literal, x: Literal, y: Literal) { (a == x && b == y) || (a == y && b == x) }

  /** `a || b` and `a && b` have a shorter spelling that the source knows; `tri` tells a tristate symbol. */
  predicate Shortens(t: BinOp, tri: bool, a: Literal, b: Literal) {
    match t
    case OrOp =>
      if tri then a.Is? && b.Is? && a.cmp == b.cmp == Equal && IsTriConst(a.with) && IsTriConst(b.with)
      else EitherWay(a, b, Bare, Negated)
    case AndOp =>
      || EitherWay(a, b, Bare, Is(Equal, SYM_YES))
      || EitherWay(a, b, Bare, Is(Unequal, SYM_NO))
      || EitherWay(a, b, Bare, Is(Unequal, SYM_MOD))
      || (tri && a.Is? && b.Is? && a.cmp != b.cmp && a.with.Const? && b.with.Const?)
      || (tri && a.Is? && b.Is? && a.cmp == b.cmp == Unequal && IsTriConst(a.with) && IsTriConst(b.with))
  }

  /** Which two different things said of one boolean or tristate symbol are joined, in both directions. */
  lemma {:induction false} JoinDecides(t: BinOp, s: Symbol, a: Literal, b: Literal)
    requires (s.Type() == Boolean || s.Type() == Tri) && a != b
    ensures Join(t, Spelled(s, a), Spelled(s, b)).Some? <==> Shortens(t, s.Type() == Tri, a, b)
  {
    assert !ExprEq(Spelled(s, a), Spelled(s, b));
  }

  /** Nothing else is joined but equal operands, which always are. */
  lemma {:induction false} JoinOnly(t: BinOp, e1: Expr, e2: Expr) returns (s: Symbol, a: Literal, b: Literal)
    ensures ExprEq(e1, e2) ==> Join(t, e1, e2) == Some(e1)
    ensures Join(t, e1, e2).Some? && !ExprEq(e1, e2) ==>
      (s.Type() == Boolean || s.Type() == Tri) && e1 == Spelled(s, a) && e2 == Spelled(s, b) && a != b
  {
    s, a, b := SYM_YES, Bare, Bare;
    if Join(t, e1, e2).Some? && !ExprEq(e1, e2) {
      s := FirstSym(e1).value;
      a, b := SaidOf(e1), SaidOf(e2);
    }
  }

  function SaidOf(e: Expr): Literal {
    match e
    case Cmp(c, _, x) => Is(c, x)
    case Leaf(_) => Bare
    case _ => Negated
  }

  /** A join never makes the tree larger and never brings in an operand of the spine's own operator. */
  lemma {:induction false} JoinShape(t: BinOp, e1: Expr, e2: Expr)
    requires Join(t, e1, e2).Some? && !IsOp(t, e1)
    ensures 1 + Size(Join(t, e1, e2).value) <= Size(e1) + Size(e2)
    ensures !IsOp(t, Join(t, e1, e2).value)
  {}

  // ----- expr_extract_eq -----------------------------------------------------

  /** expr_extract_eq: move operands found in both trees to `acc`, leaving neutral constants. */
  function ExtractEq(t: BinOp, acc: Option<Expr>, a: Expr, b: Expr): (r: (Option<Expr>, Expr, Expr))
    ensures Size(r.1) <= Size(a) && Size(r.2) <= Size(b)
    decreases Size(a) + Size(b)
  {
    if IsOp(t, a) then
      var (c1, l, b1) := ExtractEq(t, acc, a.left, b);
      var (c2, r, b2) := ExtractEq(t, c1, a.right, b1);
      (c2, Bin(t, l, r), b2)
    else if IsOp(t, b) then
      var (c1, a1, l) := ExtractEq(t, acc, a, b.left);
      var (c2, a2, r) := ExtractEq(t, c1, a1, b.right);
      (c2, a2, Bin(t, l, r))
    else if ExprEq(a, b) then
      (Some(if acc.Some? then Bin(t, acc.value, a) else a), Leaf(Unit(t)), Leaf(Unit(t)))
    else (acc, a, b)
  }

  /** The value of `acc`, NULL counting as the neutral element of `t`. */
  function AccValue(t: BinOp, acc: Option<Expr>, env: Env): Tristate {
    if acc.None? then OpUnit(t) else Calc(acc.value, env)
  }

  /** Joining the extracted part back on gives each tree its old value (with an empty start). */
  lemma {:induction false} ExtractEqValue(t: BinOp, acc: Option<Expr>, a: Expr, b: Expr, env: Env) returns (c: Tristate)
    requires env.Valid()
    ensures var (acc', a', b') := ExtractEq(t, acc, a, b);
      && AccValue(t, acc', env) == OpVal(t, AccValue(t, acc, env), c)
      && Calc(a, env) == OpVal(t, Calc(a', env), c)
      && Calc(b, env) == OpVal(t, Calc(b', env), c)
    decreases Size(a) + Size(b)
  {
    if IsOp(t, a) {
      var (acc1, l, b1) := ExtractEq(t, acc, a.left, b);
      var (acc2, r, b2) := ExtractEq(t, acc1, a.right, b1);
      assert ExtractEq(t, acc, a, b) == (acc2, Bin(t, l, r), b2);
      var c1 := ExtractEqValue(t, acc, a.left, b, env);
      var c2 := ExtractEqValue(t, acc1, a.right, b1, env);
      c := OpVal(t, c1, c2);
      ExtractSplit(t, Calc(a.left, env), Calc(l, env), c1, Calc(a.right, env), Calc(r, env), c2);
      ExtractChain(t, Calc(b, env), Calc(b1, env), Calc(b2, env), c1, c2);
      ExtractChain'(t, AccValue(t, acc, env), AccValue(t, acc1, env), AccValue(t, acc2, env), c1, c2);
    } else if IsOp(t, b) {
      var (acc1, a1, l) := ExtractEq(t, acc, a, b.left);
      var (acc2, a2, r) := ExtractEq(t, acc1, a1, b.right);
      assert ExtractEq(t, acc, a, b) == (acc2, a2, Bin(t, l, r));
      var c1 := ExtractEqValue(t, acc, a, b.left, env);
      var c2 := ExtractEqValue(t, acc1, a1, b.right, env);
      c := OpVal(t, c1, c2);
      ExtractSplit(t, Calc(b.left, env), Calc(l, env), c1, Calc(b.right, env), Calc(r, env), c2);
      ExtractChain(t, Calc(a, env), Calc(a1, env), Calc(a2, env), c1, c2);
      ExtractChain'(t, AccValue(t, acc, env), AccValue(t, acc1, env), AccValue(t, acc2, env), c1, c2);
    } else if ExprEq(a, b) {
      ExprEqSound(a, b, env);
      c := Calc(a, env);
    } else {
      c := OpUnit(t);
    }
  }

  lemma {:induction false} ExtractSplit(t: BinOp, l: Tristate, l': Tristate, c1: Tristate, r: Tristate, r': Tristate,
      c2: Tristate)
    requires l == OpVal(t, l', c1) && r == OpVal(t, r', c2)
    ensures OpVal(t, l, r) == OpVal(t, OpVal(t, l', r'), OpVal(t, c1, c2))
  {}

  lemma {:induction false} ExtractChain(t: BinOp, b: Tristate, b1: Tristate, b2: Tristate, c1: Tristate, c2: Tristate)
    requires b == OpVal(t, b1, c1) && b1 == OpVal(t, b2, c2)
    ensures b == OpVal(t, b2, OpVal(t, c1, c2))
  {}

  lemma {:induction false} ExtractChain'(t: BinOp, a: Tristate, a1: Tristate, a2: Tristate, c1: Tristate, c2: Tristate)
    requires a1 == OpVal(t, a, c1) && a2 == OpVal(t, a1, c2)
    ensures a2 == OpVal(t, a, OpVal(t, c1, c2))
  {}

  // ----- the test of expr_eliminate_dups2 -------------------------------------

  /** expr_extract_eq_and and expr_extract_eq_or. */
  function ExtractEqYn(t: BinOp, a: Expr, b: Expr): (Option<Expr>, Expr, Expr) {
    var (acc, a1, b1) := ExtractEq(t, None, a, b);
    if acc.Some? then (acc, EliminateYn(a1), EliminateYn(b1)) else (acc, a1, b1)
  }

  /** `!e1`, transformed, is wholly contained in `e2`: the condition of expr_eliminate_dups2. */
  predicate Contradicts(e1: Expr, e2: Expr)
    requires e1.Bin?
  {
    var d := Dual(e1.op);
    ExtractEqYn(d, Transform(Not(e1)), e2).1 == Leaf(Unit(d))
  }

  lemma {:induction false} AbsorbBounds(d: BinOp, b: Tristate, c: Tristate)
    ensures OpVal(d, OpUnit(d), c) == c
    ensures d == AndOp ==> OpVal(d, b, c) <= c
    ensures d == OrOp ==> OpVal(d, b, c) >= c
  {}

  /** The negation of `e1` bounds `e2`, from above under AND and from below under OR. */
  lemma {:induction false} ContradictsBounds(e1: Expr, e2: Expr, env: Env)
    requires env.Valid() && e1.Bin? && Contradicts(e1, e2)
    ensures e1.op == OrOp ==> Calc(e2, env) <= Neg(Calc(e1, env))
    ensures e1.op == AndOp ==> Calc(e2, env) >= Neg(Calc(e1, env))
  {
    var d, neg := Dual(e1.op), Transform(Not(e1));
    TransformValue(Not(e1), env);
    assert Calc(neg, env) == Neg(Calc(e1, env));
    var (acc, a1, b1) := ExtractEq(d, None, neg, e2);
    var c := ExtractEqValue(d, None, neg, e2, env);
    EliminateYnValue(a1, env);
    assert Calc(a1, env) == OpUnit(d);
    AbsorbBounds(d, Calc(b1, env), c);
  }
}
