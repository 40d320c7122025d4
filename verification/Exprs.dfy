/** Three-valued logic and the dependency expressions of build-tools/kconfig/expr.h. */
module Tristates {
  /** enum tristate { no, mod, yes } with its C ordering and arithmetic. */
  type Tristate = x: int | 0 <= x <= 2

  const NO: Tristate := 0
  const MOD: Tristate := 1
  const YES: Tristate := 2

  /** EXPR_AND, EXPR_OR and EXPR_NOT. */
  function Min(a: Tristate, b: Tristate): Tristate { if a < b then a else b }

  function Max(a: Tristate, b: Tristate): Tristate { if a > b then a else b }

  function Neg(a: Tristate): Tristate { 2 - a }

  /** The one-letter spelling that sym_get_string_value gives. */
  function TriName(t: Tristate): string {
    if t == NO then "n" else if t == MOD then "m" else "y"
  }
}

module Exprs {
  import opened Options
  import opened Tristates

  datatype SymType = Unknown | Boolean | Tri | Int | Hex | Str | Other

  /**
   * Identity and static attributes of a struct symbol; C's pointer equality is `==` here.
   * A SYMBOL_CONST symbol is found again by its name (sym_lookup), so the name is its identity, and
   * "y", "m", "n" always name symbol_yes, symbol_mod, symbol_no.  A choice symbol has no name.
   */
  datatype Symbol =
    | Const(text: string)
    | Config(id: nat, name: Option<string>, symType: SymType)
  {
    function Type(): SymType { if Const? then Unknown else symType }
  }

  const SYM_YES := Const("y")
  const SYM_MOD := Const("m")
  const SYM_NO := Const("n")

  predicate IsTriConst(s: Symbol) { s == SYM_YES || s == SYM_MOD || s == SYM_NO }

  datatype BinOp = AndOp | OrOp
  datatype CmpOp = Equal | Unequal

  /** struct expr without E_LIST and E_RANGE: E_SYMBOL, E_NOT, E_AND/E_OR, E_EQUAL/E_UNEQUAL. */
  datatype Expr =
    | Leaf(sym: Symbol)
    | Not(arg: Expr)
    | Bin(op: BinOp, left: Expr, right: Expr)
    | Cmp(cmp: CmpOp, lhs: Symbol, rhs: Symbol)

  const E_YES := Leaf(SYM_YES)
  const E_NO := Leaf(SYM_NO)

  /** e->type == type, for the two operators the rewriter passes as `type`. */
  predicate IsOp(t: BinOp, e: Expr) { e.Bin? && e.op == t }

  /** The constant that is neutral for an operator. */
  function Unit(t: BinOp): Symbol { if t == AndOp then SYM_YES else SYM_NO }

  function Zero(t: BinOp): Symbol { if t == AndOp then SYM_NO else SYM_YES }

  function Dual(t: BinOp): BinOp { if t == AndOp then OrOp else AndOp }

  function OpVal(t: BinOp, a: Tristate, b: Tristate): Tristate {
    if t == AndOp then Min(a, b) else Max(a, b)
  }

  function OpUnit(t: BinOp): Tristate { if t == AndOp then YES else NO }

  /** One assignment of values to all symbols: curr.tri and the string sym_get_string_value returns. */
  datatype Env = Env(tri: Symbol -> Tristate, str: Symbol -> string)
  {
    /** What sym_calc_value guarantees of every assignment it produces. */
    ghost predicate Valid() {
      && (forall t {:trigger str(Const(t))} :: str(Const(t)) == t)
      && tri(SYM_YES) == YES && tri(SYM_MOD) == MOD && tri(SYM_NO) == NO
      && (forall s: Symbol :: s.Type() == Boolean ==> tri(s) != MOD)
      && (forall s: Symbol :: s.Type() == Boolean || s.Type() == Tri ==> str(s) == TriName(tri(s)))
    }
  }

  /** expr_calc_value on an assignment that is already calculated. */
  function Calc(e: Expr, env: Env): Tristate {
    match e
    case Leaf(s) => env.tri(s)
    case Not(a) => Neg(Calc(a, env))
    case Bin(op, l, r) => OpVal(op, Calc(l, env), Calc(r, env))
    case Cmp(c, l, r) => if (env.str(l) == env.str(r)) == (c == Equal) then YES else NO
  }

  /** Number of struct expr nodes. */
  function Size(e: Expr): nat {
    match e
    case Leaf(_) => 1
    case Not(a) => 1 + Size(a)
    case Bin(_, l, r) => 1 + Size(l) + Size(r)
    case Cmp(_, _, _) => 1
  }

  /** A NULL struct expr pointer stands for y (expr_calc_value, expr_is_yes). */
  function CalcOpt(e: Option<Expr>, env: Env): Tristate {
    if e.None? then YES else Calc(e.value, env)
  }

  /** expr_alloc_and. */
  function AllocAnd(a: Option<Expr>, b: Option<Expr>): Option<Expr> {
    if a.None? then b else if b.None? then a else Some(Bin(AndOp, a.value, b.value))
  }

  /** expr_alloc_or: a NULL operand is dropped, although NULL means y elsewhere. */
  function AllocOr(a: Option<Expr>, b: Option<Expr>): Option<Expr> {
    if a.None? then b else if b.None? then a else Some(Bin(OrOp, a.value, b.value))
  }
}
