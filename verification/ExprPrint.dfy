/** expr_print: a printer that drops grouping and most parentheses, and why it is still unambiguous. */
module ExprPrinting {
  import opened Options
  import opened Tristates
  import opened Exprs

  datatype ExprType = TNone | TOr | TAnd | TNot | TEqual | TUnequal | TList | TSymbol | TRange

  function TypeOf(e: Expr): ExprType {
    match e
    case Leaf(_) => TSymbol
    case Not(_) => TNot
    case Bin(t, _, _) => if t == AndOp then TAnd else TOr
    case Cmp(c, _, _) => if c == Equal then TEqual else TUnequal
  }

  /** expr_compare_type, a switch that falls through from every case to the next. */
  function CompareType(t1: ExprType, t2: ExprType): int {
    if t1 == t2 then 0
    else if (t1.TEqual? || t1.TUnequal?) && t2.TNot? then 1
    else if (t1.TEqual? || t1.TUnequal? || t1.TNot?) && t2.TAnd? then 1
    else if (t1.TEqual? || t1.TUnequal? || t1.TNot? || t1.TAnd?) && t2.TOr? then 1
    else if (t1.TEqual? || t1.TUnequal? || t1.TNot? || t1.TAnd? || t1.TOr?) && t2.TList? then 1
    else if (t1.TEqual? || t1.TUnequal? || t1.TNot? || t1.TAnd? || t1.TOr? || t1.TList?) && t2.TNone? then 1
    else -1
  }

  /** One call of the print callback: the symbol argument (NULL is None) and the text. */
  datatype Token = Token(sym: Option<Symbol>, text: string)

  const OPEN := Token(None, "(")
  const CLOSE := Token(None, ")")
  const NOT := Token(None, "!")
  const AND := Token(None, " && ")
  const OR := Token(None, " || ")
  const EQ := Token(None, "=")
  const NE := Token(None, "!=")
  const CHOICE := Token(None, "<choice>")

  function Name(s: Symbol): Option<string> { if s.Const? then Some(s.text) else s.name }

  /** A bare symbol or the left side of a comparison. */
  function SymToken(s: Symbol): Token {
    if Name(s).Some? then Token(Some(s), Name(s).value) else CHOICE
  }

  /** The right side of a comparison is printed by name without a test for NULL. */
  predicate Printable(e: Expr) {
    match e
    case Leaf(_) => true
    case Not(a) => Printable(a)
    case Bin(_, l, r) => Printable(l) && Printable(r)
    case Cmp(_, _, r) => Name(r).Some?
  }

  function Print(e: Expr, prev: ExprType): (r: seq<Token>)
    requires Printable(e)
    ensures |r| >= 1
    decreases e
  {
    var body :=
      match e
      case Leaf(s) => [SymToken(s)]
      case Not(a) => [NOT] + Print(a, TNot)
      case Cmp(c, l, r) => [SymToken(l), if c == Equal then EQ else NE, Token(Some(r), Name(r).value)]
      case Bin(AndOp, l, r) => Print(l, TAnd) + [AND] + Print(r, TAnd)
      case Bin(OrOp, l, r) => Print(l, TOr) + [OR] + Print(r, TOr);
    if CompareType(prev, TypeOf(e)) > 0 then [OPEN] + body + [CLOSE] else body
  }

  // ----- one reading of token sequences ---------------------------------------

  type Parse = Option<(Tristate, seq<Token>)>

  /** What every "<choice>" is worth: the tristate and the string of the nameless symbols. */
  datatype ChoiceValue = ChoiceValue(tri: Tristate, str: string)

  function ReadTri(t: Token, env: Env, ch: ChoiceValue): Tristate {
    if t.sym.Some? then env.tri(t.sym.value) else ch.tri
  }

  function ReadStr(t: Token, env: Env, ch: ChoiceValue): string {
    if t.sym.Some? then env.str(t.sym.value) else ch.str
  }

  function ReadOr(ts: seq<Token>, env: Env, ch: ChoiceValue): (r: Parse)
    ensures r.Some? ==> |r.value.1| < |ts|
    decreases |ts|, 2
  {
    var first := ReadAnd(ts, env, ch);
    if first.None? then None
    else
      var (v, rest) := first.value;
      if rest == [] || rest[0] != OR then first
      else
        var more := ReadOr(rest[1..], env, ch);
        if more.None? then None else Some((Max(v, more.value.0), more.value.1))
  }

  function ReadAnd(ts: seq<Token>, env: Env, ch: ChoiceValue): (r: Parse)
    ensures r.Some? ==> |r.value.1| < |ts|
    decreases |ts|, 1
  {
    var first := ReadUnary(ts, env, ch);
    if first.None? then None
    else
      var (v, rest) := first.value;
      if rest == [] || rest[0] != AND then first
      else
        var more := ReadAnd(rest[1..], env, ch);
        if more.None? then None else Some((Min(v, more.value.0), more.value.1))
  }

  function ReadUnary(ts: seq<Token>, env: Env, ch: ChoiceValue): (r: Parse)
    ensures r.Some? ==> |r.value.1| < |ts|
    decreases |ts|, 0
  {
    if ts == [] then None
    else if ts[0] == NOT then
      var arg := ReadUnary(ts[1..], env, ch);
      if arg.None? then None else Some((Neg(arg.value.0), arg.value.1))
    else if ts[0] == OPEN then
      var inner := ReadOr(ts[1..], env, ch);
      if inner.None? || inner.value.1 == [] || inner.value.1[0] != CLOSE then None
      else Some((inner.value.0, inner.value.1[1..]))
    else if |ts| >= 3 && (ts[1] == EQ || ts[1] == NE) then
      var same := ReadStr(ts[0], env, ch) == ReadStr(ts[2], env, ch);
      Some((if same == (ts[1] == EQ) then YES else NO, ts[3..]))
    else Some((ReadTri(ts[0], env, ch), ts[1..]))
  }

  // ----- the reading of a printed expression is its value -----------------------

  ghost predicate ChoicesAgree(env: Env, ch: ChoiceValue) {
    forall s: Symbol :: Name(s).None? ==> env.tri(s) == ch.tri && env.str(s) == ch.str
  }

  predicate EndsOr(rest: seq<Token>) { rest == [] || rest[0] == CLOSE }

  predicate EndsAnd(rest: seq<Token>) { EndsOr(rest) || rest[0] == OR }

  predicate EndsUnary(rest: seq<Token>) { EndsAnd(rest) || rest[0] == AND }

  lemma {:induction false} UnaryReads(e: Expr, rest: seq<Token>, env: Env, ch: ChoiceValue)
    requires Printable(e) && ChoicesAgree(env, ch) && EndsUnary(rest)
    ensures ReadUnary(Print(e, TNot) + rest, env, ch) == Some((Calc(e, env), rest))
    decreases e, 0
  {
    var ts := Print(e, TNot) + rest;
    match e
    case Leaf(s) =>
      assert ts[1..] == rest;
    case Cmp(_, _, _) =>
      assert ts[3..] == rest;
    case Not(a) =>
      assert ts[1..] == Print(a, TNot) + rest;
      UnaryReads(a, rest, env, ch);
    case Bin(t, _, _) =>
      var inner := Print(e, TypeOf(e)) + ([CLOSE] + rest);
      assert ts[1..] == inner;
      OrReads'(e, [CLOSE] + rest, env, ch);
      InBrackets(ts, Calc(e, env), rest, env, ch);
  }

  lemma {:induction false} InBrackets(ts: seq<Token>, v: Tristate, rest: seq<Token>, env: Env, ch: ChoiceValue)
    requires ts != [] && ts[0] == OPEN && ReadOr(ts[1..], env, ch) == Some((v, [CLOSE] + rest))
    ensures ReadUnary(ts, env, ch) == Some((v, rest))
  {
    assert ([CLOSE] + rest)[1..] == rest;
  }

  /** An operand of AND (or a whole conjunction) followed by something that ends it. */
  lemma {:induction false} AndReads(e: Expr, rest: seq<Token>, env: Env, ch: ChoiceValue)
    requires Printable(e) && ChoicesAgree(env, ch) && EndsAnd(rest)
    ensures ReadAnd(Print(e, TAnd) + rest, env, ch) == Some((Calc(e, env), rest))
    decreases e, 3
  {
    if e.Bin? && e.op == AndOp {
      var tail := Print(e.right, TAnd) + rest;
      assert Print(e, TAnd) + rest == Print(e.left, TAnd) + [AND] + tail;
      AndReads(e.right, rest, env, ch);
      AndChainReads(e.left, tail, env, ch);
    } else {
      assert Print(e, TAnd) == Print(e, TNot);
      UnaryReads(e, rest, env, ch);
    }
  }

  lemma {:induction false} AndStep(ts: seq<Token>, v: Tristate, tail: seq<Token>, env: Env, ch: ChoiceValue)
    requires ReadUnary(ts, env, ch) == Some((v, [AND] + tail)) && ReadAnd(tail, env, ch).Some?
    ensures var (w, rest) := ReadAnd(tail, env, ch).value; ReadAnd(ts, env, ch) == Some((Min(v, w), rest))
  {
    assert ([AND] + tail)[1..] == tail;
  }

  lemma {:induction false} OrStep(ts: seq<Token>, v: Tristate, tail: seq<Token>, env: Env, ch: ChoiceValue)
    requires ReadAnd(ts, env, ch) == Some((v, [OR] + tail)) && ReadOr(tail, env, ch).Some?
    ensures var (w, rest) := ReadOr(tail, env, ch).value; ReadOr(ts, env, ch) == Some((Max(v, w), rest))
  {
    assert ([OR] + tail)[1..] == tail;
  }

  lemma {:induction false} AndChainReads(e: Expr, tail: seq<Token>, env: Env, ch: ChoiceValue)
    requires Printable(e) && ChoicesAgree(env, ch) && ReadAnd(tail, env, ch).Some?
    ensures var (v, rest) := ReadAnd(tail, env, ch).value;
      ReadAnd(Print(e, TAnd) + [AND] + tail, env, ch) == Some((Min(Calc(e, env), v), rest))
    decreases e, 3
  {
    var ts := Print(e, TAnd) + [AND] + tail;
    if e.Bin? && e.op == AndOp {
      var mid := Print(e.right, TAnd) + [AND] + tail;
      assert ts == Print(e.left, TAnd) + [AND] + mid;
      AndChainReads(e.right, tail, env, ch);
      AndChainReads(e.left, mid, env, ch);
    } else {
      assert ts == Print(e, TNot) + ([AND] + tail);
      UnaryReads(e, [AND] + tail, env, ch);
      AndStep(ts, Calc(e, env), tail, env, ch);
    }
  }

  lemma {:induction false} OrReads(e: Expr, rest: seq<Token>, env: Env, ch: ChoiceValue)
    requires Printable(e) && ChoicesAgree(env, ch) && EndsOr(rest)
    ensures ReadOr(Print(e, TOr) + rest, env, ch) == Some((Calc(e, env), rest))
    decreases e, 4
  {
    if e.Bin? {
      assert Print(e, TOr) == Print(e, TypeOf(e));
      OrReads'(e, rest, env, ch);
    } else {
      assert Print(e, TOr) == Print(e, TAnd);
      AndReads(e, rest, env, ch);
    }
  }

  /** A parenthesised or outermost AND/OR expression. */
  lemma {:induction false} OrReads'(e: Expr, rest: seq<Token>, env: Env, ch: ChoiceValue)
    requires Printable(e) && e.Bin? && ChoicesAgree(env, ch) && EndsOr(rest)
    ensures ReadOr(Print(e, TypeOf(e)) + rest, env, ch) == Some((Calc(e, env), rest))
    decreases e, -1
  {
    if e.op == OrOp {
      var tail := Print(e.right, TOr) + rest;
      assert Print(e, TypeOf(e)) + rest == Print(e.left, TOr) + [OR] + tail;
      OrReads(e.right, rest, env, ch);
      OrChainReads(e.left, tail, env, ch);
    } else {
      var tail := Print(e.right, TAnd) + rest;
      assert Print(e, TypeOf(e)) + rest == Print(e.left, TAnd) + [AND] + tail;
      AndReads(e.right, rest, env, ch);
      AndChainReads(e.left, tail, env, ch);
    }
  }

  lemma {:induction false} OrChainReads(e: Expr, tail: seq<Token>, env: Env, ch: ChoiceValue)
    requires Printable(e) && ChoicesAgree(env, ch) && ReadOr(tail, env, ch).Some?
    ensures var (v, rest) := ReadOr(tail, env, ch).value;
      ReadOr(Print(e, TOr) + [OR] + tail, env, ch) == Some((Max(Calc(e, env), v), rest))
    decreases e, 4
  {
    var ts := Print(e, TOr) + [OR] + tail;
    if e.Bin? && e.op == OrOp {
      var mid := Print(e.right, TOr) + [OR] + tail;
      assert ts == Print(e.left, TOr) + [OR] + mid;
      OrChainReads(e.right, tail, env, ch);
      OrChainReads(e.left, mid, env, ch);
    } else {
      assert Print(e, TOr) == Print(e, TAnd);
      assert ts == Print(e, TAnd) + ([OR] + tail);
      AndReads(e, [OR] + tail, env, ch);
      OrStep(ts, Calc(e, env), tail, env, ch);
    }
  }

  /** expr_print as called from outside, on a pointer that may be NULL. */
  function PrintTop(e: Option<Expr>): seq<Token>
    requires e.Some? ==> Printable(e.value)
  {
    if e.None? then [Token(None, "y")] else Print(e.value, TNone)
  }

  lemma {:induction false} OutermostReads(e: Expr, env: Env, ch: ChoiceValue)
    requires Printable(e) && ChoicesAgree(env, ch)
    ensures ReadOr(PrintTop(Some(e)), env, ch) == Some((Calc(e, env), []))
    ensures PrintTop(Some(e)) != PrintTop(None)
  {
    assert Print(e, TNone) == Print(e, TOr);
    assert Print(e, TOr) + [] == Print(e, TOr);
    OrReads(e, [], env, ch);
  }

  /**
   * Two expressions that print the same tokens have the same value under every assignment that does
   * not tell nameless symbols apart.
   */
  lemma {:induction false} PrintUnambiguous(a: Option<Expr>, b: Option<Expr>, env: Env, ch: ChoiceValue)
    requires (a.Some? ==> Printable(a.value)) && (b.Some? ==> Printable(b.value)) && ChoicesAgree(env, ch)
    requires PrintTop(a) == PrintTop(b)
    ensures CalcOpt(a, env) == CalcOpt(b, env)
  {
    if a.Some? {
      OutermostReads(a.value, env, ch);
    }
    if b.Some? {
      OutermostReads(b.value, env, ch);
    }
  }

  /** Equal print means equal value on this assignment. */
  ghost predicate PrintsUnambiguously(env: Env) {
    forall a, b | Printable(a) && Printable(b) && PrintTop(Some(a)) == PrintTop(Some(b)) :: Calc(a, env) == Calc(b, env)
  }

  ghost predicate ChoicesAlike(env: Env) {
    forall s1, s2 | Name(s1).None? && Name(s2).None? :: env.tri(s1) == env.tri(s2) && env.str(s1) == env.str(s2)
  }

  lemma {:induction false} UnambiguousNeedsAlike(env: Env, s1: Symbol, s2: Symbol)
    requires env.Valid() && PrintsUnambiguously(env) && Name(s1).None? && Name(s2).None?
    ensures env.tri(s1) == env.tri(s2) && env.str(s1) == env.str(s2)
  {
    var a, b := Leaf(s1), Leaf(s2);
    assert PrintTop(Some(a)) == PrintTop(Some(b)) && Calc(a, env) == Calc(b, env);
    var r := Const(env.str(s1));
    var c, d := Cmp(Equal, s1, r), Cmp(Equal, s2, r);
    assert PrintTop(Some(c)) == PrintTop(Some(d)) && Calc(c, env) == Calc(d, env);
  }

  /** The condition is exact: printing is unambiguous on an assignment if and only if it does not tell them apart. */
  lemma {:induction false} UnambiguousExactly(env: Env)
    requires env.Valid()
    ensures PrintsUnambiguously(env) <==> ChoicesAlike(env)
  {
    if PrintsUnambiguously(env) {
      forall s1, s2 | Name(s1).None? && Name(s2).None?
        ensures env.tri(s1) == env.tri(s2) && env.str(s1) == env.str(s2)
      {
        UnambiguousNeedsAlike(env, s1, s2);
      }
    }
    if ChoicesAlike(env) {
      var s := Config(0, None, Boolean);
      var ch := ChoiceValue(env.tri(s), env.str(s));
      assert Name(s).None?;
      forall a, b | Printable(a) && Printable(b) && PrintTop(Some(a)) == PrintTop(Some(b))
        ensures Calc(a, env) == Calc(b, env)
      {
        PrintUnambiguous(Some(a), Some(b), env, ch);
      }
    }
  }
}
