/** What sym_calc_value computes: the values of an acyclic, choice-free set of symbols. */
module SymbolValues {
  import opened Options
  import opened Tristates
  import opened Exprs

  /**
   * enum prop_type as far as calculation and sym_check_deps look at it.  A prompt is a property with a
   * text; Relation stands for P_CHOICE, P_SELECT, P_BUILD_SELECT and P_BUILD_DEPENDS.
   */
  datatype Prop =
    | Prompt(visible: Option<Expr>)
    | Default(visible: Option<Expr>, expr: Expr)
    | Range(visible: Option<Expr>, lo: Symbol, hi: Symbol)
    | Relation(visible: Option<Expr>)
    | Other(visible: Option<Expr>)

  /** struct symbol_value: curr or def[S_DEF_USER]. */
  datatype Val = Val(tri: Tristate, str: string)

  /** What the Kconfig files and the user say about a symbol; `user` is Some when SYMBOL_DEF_USER is set. */
  datatype Info = Info(props: seq<Prop>, revDep: Option<Expr>, user: Option<Val>, auto: bool)

  const NO_INFO := Info([], None, None, false)

  /** strtol and the two sprintf calls of sym_validate_range. */
  datatype Numbers = Numbers(strtol: (string, int) -> int, format: (SymType, int) -> string)

  ghost function ExprSyms(e: Expr): set<Symbol> {
    match e
    case Leaf(s) => {s}
    case Not(a) => ExprSyms(a)
    case Bin(_, l, r) => ExprSyms(l) + ExprSyms(r)
    case Cmp(_, l, r) => {l, r}
  }

  ghost function OptSyms(e: Option<Expr>): set<Symbol> {
    if e.None? then {} else ExprSyms(e.value)
  }

  ghost function PropSyms(p: Prop): set<Symbol> {
    match p
    case Prompt(v) => OptSyms(v)
    case Default(v, e) => OptSyms(v) + ExprSyms(e)
    case Range(v, lo, hi) => OptSyms(v) + {lo, hi}
    case Relation(_) => {}
    case Other(_) => {}
  }

  /** The type a string is read with: sym_get_range_val overrides the base by the symbol's own type. */
  function Base(t: SymType, base: int): int {
    if t == Int then 10 else if t == Hex then 16 else base
  }

  /** All symbols with a fixed modules_val, and a rank that witnesses that no symbol depends on itself. */
  datatype Table = Table(info: map<Symbol, Info>, modulesVal: Tristate, num: Numbers, rank: Symbol -> nat)
  {
    function InfoOf(s: Symbol): Info { if s in info then info[s] else NO_INFO }

    /** Every symbol that calculating `s` may ask for. */
    ghost function Deps(s: Symbol): set<Symbol> {
      OptSyms(InfoOf(s).revDep) + set p, d | p in InfoOf(s).props && d in PropSyms(p) :: d
    }

    ghost predicate Ranked() {
      forall s: Symbol, d: Symbol {:trigger d in Deps(s)} :: d in Deps(s) ==> rank(d) < rank(s)
    }

    ghost predicate Below(e: Expr, n: nat) { forall d | d in ExprSyms(e) :: rank(d) < n }

    ghost predicate BelowOpt(e: Option<Expr>, n: nat) { forall d | d in OptSyms(e) :: rank(d) < n }

    ghost predicate PropBelow(p: Prop, n: nat) { forall d | d in PropSyms(p) :: rank(d) < n }

    /** sym_get_type: a tristate counts as boolean without modules. */
    function EffType(s: Symbol): SymType {
      if s.Type() == Tri && modulesVal == NO then Boolean else s.Type()
    }

    function StringOf(s: Symbol, v: Val): string {
      if s.Type() == Boolean || s.Type() == Tri then TriName(v.tri) else v.str
    }

    lemma {:induction false} PropsBelow(s: Symbol)
      requires Ranked()
      ensures BelowOpt(InfoOf(s).revDep, rank(s))
      ensures forall i | 0 <= i < |InfoOf(s).props| :: PropBelow(InfoOf(s).props[i], rank(s))
    {
      forall d | d in OptSyms(InfoOf(s).revDep) ensures rank(d) < rank(s) {
        assert d in Deps(s);
      }
      forall i, d | 0 <= i < |InfoOf(s).props| && d in PropSyms(InfoOf(s).props[i]) ensures rank(d) < rank(s) {
        assert InfoOf(s).props[i] in InfoOf(s).props;
        assert d in Deps(s);
      }
    }

    // ----- the recursive definition -------------------------------------------

    /** expr_calc_value over symbols of rank below `n`. */
    ghost function Eval(e: Expr, n: nat): Tristate
      requires Ranked() && Below(e, n)
      decreases n, 0, e
    {
      match e
      case Leaf(s) => assert s in ExprSyms(e); Value(s).tri
      case Not(a) => Neg(Eval(a, n))
      case Bin(t, l, r) =>
        assert Below(l, n) && Below(r, n);
        OpVal(t, Eval(l, n), Eval(r, n))
      case Cmp(c, l, r) =>
        assert l in ExprSyms(e) && r in ExprSyms(e);
        if (StringOf(l, Value(l)) == StringOf(r, Value(r))) == (c == Equal) then YES else NO
    }

    ghost function EvalOpt(e: Option<Expr>, n: nat): Tristate
      requires Ranked() && BelowOpt(e, n)
      decreases n, 1
    {
      if e.None? then YES else assert Below(e.value, n); Eval(e.value, n)
    }

    ghost predicate PropsAllBelow(props: seq<Prop>, n: nat) {
      forall i | 0 <= i < |props| :: PropBelow(props[i], n)
    }

    /** The largest visibility of the prompts. */
    ghost function PromptMax(props: seq<Prop>, n: nat): Tristate
      requires Ranked() && PropsAllBelow(props, n)
      decreases n, 2, |props|
    {
      if props == [] then NO
      else
        var p := props[|props| - 1];
        assert PropBelow(p, n);
        assert PropsAllBelow(props[..|props| - 1], n);
        var before := PromptMax(props[..|props| - 1], n);
        if p.Prompt? then
          assert BelowOpt(p.visible, n);
          Max(before, EvalOpt(p.visible, n))
        else before
    }

    /** sym_calc_visibility: sym->visible. */
    ghost function Visible(s: Symbol): Tristate
      requires Ranked()
      decreases rank(s), 3
    {
      PropsBelow(s);
      var tri := PromptMax(InfoOf(s).props, rank(s));
      if tri == MOD && (s.Type() != Tri || modulesVal == NO) then YES else tri
    }

    /** sym_calc_visibility: sym->rev_dep.tri, where a NULL expression means n. */
    ghost function Selected(s: Symbol): Tristate
      requires Ranked()
      decreases rank(s), 3
    {
      PropsBelow(s);
      var rd := InfoOf(s).revDep;
      var tri := if rd.None? then NO else EvalOpt(rd, rank(s));
      if tri == MOD && EffType(s) == Boolean then YES else tri
    }

    /** sym_get_default_prop and sym_get_range_prop: the first property of a kind that is visible, or the length. */
    ghost function FirstVisible(props: seq<Prop>, from: nat, wantDefault: bool, n: nat): (k: nat)
      requires Ranked() && PropsAllBelow(props, n) && from <= |props|
      ensures from <= k <= |props|
      ensures k < |props| ==> if wantDefault then props[k].Default? else props[k].Range?
      decreases n, 2, |props| - from
    {
      if from == |props| then from
      else
        var p := props[from];
        assert PropBelow(p, n);
        if wantDefault && p.Default? && (assert BelowOpt(p.visible, n); EvalOpt(p.visible, n) != NO) then from
        else if !wantDefault && p.Range? && (assert BelowOpt(p.visible, n); EvalOpt(p.visible, n) != NO) then from
        else FirstVisible(props, from + 1, wantDefault, n)
    }

    /** The value of a boolean or tristate symbol: the user's or a default, raised to what selects it. */
    ghost function TriValue(s: Symbol): Tristate
      requires Ranked() && (s.Type() == Boolean || s.Type() == Tri)
      decreases rank(s), 4
    {
      PropsBelow(s);
      var props, n := InfoOf(s).props, rank(s);
      var user := InfoOf(s).user;
      var own :=
        if Visible(s) != NO && user.Some? then Min(user.value.tri, Visible(s))
        else
          var k := FirstVisible(props, 0, true, n);
          if k == |props| then NO
          else
            assert PropBelow(props[k], n);
            assert BelowOpt(props[k].visible, n) && Below(props[k].expr, n);
            Min(Eval(props[k].expr, n), EvalOpt(props[k].visible, n));
      var tri := Max(own, Selected(s));
      if tri == MOD && EffType(s) == Boolean then YES else tri
    }

    ghost function StrValue(s: Symbol): string
      requires Ranked()
      decreases rank(s), 4
    {
      PropsBelow(s);
      var props, n := InfoOf(s).props, rank(s);
      if Visible(s) != NO && InfoOf(s).user.Some? then InfoOf(s).user.value.str
      else
        var k := FirstVisible(props, 0, true, n);
        if k == |props| || !props[k].expr.Leaf? then ""
        else
          assert PropBelow(props[k], n) && props[k].expr.sym in ExprSyms(props[k].expr);
          Value(props[k].expr.sym).str
    }

    /** sym_validate_range on a calculated string. */
    ghost function Clamp(s: Symbol, str: string): string
      requires Ranked()
      decreases rank(s), 4
    {
      if s.Type() != Int && s.Type() != Hex then str
      else
        PropsBelow(s);
        var props, n := InfoOf(s).props, rank(s);
        var k := FirstVisible(props, 0, false, n);
        if k == |props| then str
        else
          assert PropBelow(props[k], n);
          var base := Base(s.Type(), 0);
          var (lo, hi) := (props[k].lo, props[k].hi);
          var v := num.strtol(str, base);
          var l := num.strtol(Value(lo).str, Base(lo.Type(), base));
          var h := num.strtol(Value(hi).str, Base(hi.Type(), base));
          if v < l then num.format(s.Type(), l) else if v > h then num.format(s.Type(), h) else str
    }

    /** sym->curr after sym_calc_value. */
    ghost function Value(s: Symbol): Val
      requires Ranked()
      decreases rank(s), 5
    {
      if s.Const? then Val(if s == SYM_YES then YES else if s == SYM_MOD then MOD else NO, s.text)
      else
        match s.Type()
        case Boolean => Val(TriValue(s), "n")
        case Tri => Val(TriValue(s), "n")
        case Int => Val(NO, Clamp(s, StrValue(s)))
        case Hex => Val(NO, Clamp(s, StrValue(s)))
        case Str => Val(NO, StrValue(s))
        case _ => Val(NO, if s.name.Some? then s.name.value else "")
    }

    /** SYMBOL_WRITE after sym_calc_value. */
    ghost predicate Written(s: Symbol)
      requires Ranked()
    {
      PropsBelow(s);
      var props, n := InfoOf(s).props, rank(s);
      var k := FirstVisible(props, 0, true, n);
      && !InfoOf(s).auto
      && (match s.Type()
          case Boolean => Visible(s) != NO || Selected(s) != NO || k < |props|
          case Tri => Visible(s) != NO || Selected(s) != NO || k < |props|
          case Int => Visible(s) != NO || (k < |props| && props[k].expr.Leaf?)
          case Hex => Visible(s) != NO || (k < |props| && props[k].expr.Leaf?)
          case Str => Visible(s) != NO || (k < |props| && props[k].expr.Leaf?)
          case _ => false)
    }

    // ----- the assignment it defines -------------------------------------------

    ghost function Assignment(): Env
      requires Ranked()
    {
      Env(s => if Ranked() then Value(s).tri else NO, s => if Ranked() then StringOf(s, Value(s)) else "")
    }

    /** The assignment is one the expression rewriter may rely on. */
    lemma {:induction false} AssignmentValid()
      requires Ranked()
      ensures Assignment().Valid()
    {
      forall s: Symbol | s.Type() == Boolean ensures Assignment().tri(s) != MOD {
        assert EffType(s) == Boolean && Assignment().tri(s) == Value(s).tri == TriValue(s);
      }
    }

    /** The recursive value of an expression is its value under that assignment. */
    lemma {:induction false} EvalIsCalc(e: Expr, n: nat)
      requires Ranked() && Below(e, n)
      ensures Eval(e, n) == Calc(e, Assignment())
    {
      match e
      case Leaf(_) =>
      case Cmp(_, _, _) =>
      case Not(a) => EvalIsCalc(a, n);
      case Bin(_, l, r) =>
        assert Below(l, n) && Below(r, n);
        EvalIsCalc(l, n);
        EvalIsCalc(r, n);
    }
  }

  // ----- what a value depends on -----------------------------------------------

  /** Tables that may differ in what is known about symbols, but in nothing else. */
  ghost predicate Alike(t: Table, u: Table) {
    t.Ranked() && u.Ranked() && t.rank == u.rank && t.modulesVal == u.modulesVal && t.num == u.num
  }

  ghost predicate SameOn(t: Table, u: Table, done: iset<Symbol>)
    requires t.Ranked() && u.Ranked()
  {
    forall d | d in done :: t.Value(d) == u.Value(d)
  }

  predicate IsTriType(s: Symbol) { s.Type() == Boolean || s.Type() == Tri }

  predicate IsKind(p: Prop, wantDefault: bool) { if wantDefault then p.Default? else p.Range? }

  ghost predicate OptIn(e: Option<Expr>, done: iset<Symbol>) { forall d | d in OptSyms(e) :: d in done }

  ghost predicate ExprIn(e: Expr, done: iset<Symbol>) { forall d | d in ExprSyms(e) :: d in done }

  /** `done` holds what the conditions of the prompts mention. */
  ghost predicate PromptsIn(props: seq<Prop>, done: iset<Symbol>) {
    forall i | 0 <= i < |props| && props[i].Prompt? :: OptIn(props[i].visible, done)
  }

  /** `done` holds what the conditions up to the first visible property of a kind mention. */
  ghost predicate SearchIn(props: seq<Prop>, from: nat, k: nat, wantDefault: bool, done: iset<Symbol>) {
    forall i | from <= i <= k && i < |props| && IsKind(props[i], wantDefault) :: OptIn(props[i].visible, done)
  }

  /** `done` holds every symbol that the first visible default is found and read with. */
  ghost predicate DefaultIn(t: Table, s: Symbol, done: iset<Symbol>)
    requires t.Ranked()
  {
    t.PropsBelow(s);
    var props := t.InfoOf(s).props;
    var k := t.FirstVisible(props, 0, true, t.rank(s));
    && SearchIn(props, 0, k, true, done)
    && (k < |props| && (IsTriType(s) || props[k].expr.Leaf?) ==> ExprIn(props[k].expr, done))
  }

  /** The same for the range; the upper bound is only read when the lower one holds. */
  ghost predicate RangeIn(t: Table, s: Symbol, done: iset<Symbol>)
    requires t.Ranked()
  {
    t.PropsBelow(s);
    var props := t.InfoOf(s).props;
    var k := t.FirstVisible(props, 0, false, t.rank(s));
    && SearchIn(props, 0, k, false, done)
    && (k < |props| ==>
          assert t.PropBelow(props[k], t.rank(s));
          var base := Base(s.Type(), 0);
          && props[k].lo in done
          && (t.num.strtol(t.StrValue(s), base) >=
              t.num.strtol(t.Value(props[k].lo).str, Base(props[k].lo.Type(), base)) ==>
                props[k].hi in done))
  }

  /** `done` holds every symbol that calculating `s` looks at, given the values they have. */
  ghost predicate Settles(t: Table, s: Symbol, done: iset<Symbol>)
    requires t.Ranked()
  {
    && StoredIn(t, s, done)
    && (s.Type() == Int || s.Type() == Hex ==> RangeIn(t, s, done))
  }

  /** The same for everything up to sym_validate_range. */
  ghost predicate StoredIn(t: Table, s: Symbol, done: iset<Symbol>)
    requires t.Ranked()
  {
    && PromptsIn(t.InfoOf(s).props, done) && OptIn(t.InfoOf(s).revDep, done)
    && (!(t.Visible(s) != NO && t.InfoOf(s).user.Some?) ==> DefaultIn(t, s, done))
  }

  lemma {:induction false} EvalAgrees(t: Table, u: Table, e: Expr, n: nat, done: iset<Symbol>)
    requires Alike(t, u) && SameOn(t, u, done) && t.Below(e, n) && ExprIn(e, done)
    ensures u.Below(e, n) && t.Eval(e, n) == u.Eval(e, n)
  {
    match e
    case Leaf(s) => assert s in ExprSyms(e);
    case Cmp(_, l, r) => assert l in ExprSyms(e) && r in ExprSyms(e);
    case Not(a) => EvalAgrees(t, u, a, n, done);
    case Bin(_, l, r) =>
      assert t.Below(l, n) && t.Below(r, n);
      EvalAgrees(t, u, l, n, done);
      EvalAgrees(t, u, r, n, done);
  }

  lemma {:induction false} EvalOptAgrees(t: Table, u: Table, e: Option<Expr>, n: nat, done: iset<Symbol>)
    requires Alike(t, u) && SameOn(t, u, done) && t.BelowOpt(e, n) && OptIn(e, done)
    ensures u.BelowOpt(e, n) && t.EvalOpt(e, n) == u.EvalOpt(e, n)
  {
    if e.Some? {
      assert t.Below(e.value, n);
      EvalAgrees(t, u, e.value, n, done);
    }
  }

  lemma {:induction false} PromptMaxAgrees(t: Table, u: Table, props: seq<Prop>, n: nat, done: iset<Symbol>)
    requires Alike(t, u) && SameOn(t, u, done) && t.PropsAllBelow(props, n) && PromptsIn(props, done)
    ensures u.PropsAllBelow(props, n) && t.PromptMax(props, n) == u.PromptMax(props, n)
  {
    forall i | 0 <= i < |props| ensures u.PropBelow(props[i], n) {
      assert t.PropBelow(props[i], n);
    }
    if props != [] {
      var p := props[|props| - 1];
      assert t.PropBelow(p, n);
      assert t.PropsAllBelow(props[..|props| - 1], n);
      PromptMaxAgrees(t, u, props[..|props| - 1], n, done);
      if p.Prompt? {
        assert t.BelowOpt(p.visible, n);
        EvalOptAgrees(t, u, p.visible, n, done);
      }
    }
  }

  lemma {:induction false} FirstVisibleAgrees(t: Table, u: Table, props: seq<Prop>, from: nat, wantDefault: bool,
      n: nat, done: iset<Symbol>)
    requires Alike(t, u) && SameOn(t, u, done) && t.PropsAllBelow(props, n) && from <= |props|
    requires SearchIn(props, from, t.FirstVisible(props, from, wantDefault, n), wantDefault, done)
    ensures u.PropsAllBelow(props, n)
    ensures t.FirstVisible(props, from, wantDefault, n) == u.FirstVisible(props, from, wantDefault, n)
    decreases |props| - from
  {
    forall i | 0 <= i < |props| ensures u.PropBelow(props[i], n) {
      assert t.PropBelow(props[i], n);
    }
    if from < |props| {
      assert t.PropBelow(props[from], n);
      if IsKind(props[from], wantDefault) {
        assert t.BelowOpt(props[from].visible, n);
        EvalOptAgrees(t, u, props[from].visible, n, done);
      }
      if t.FirstVisible(props, from, wantDefault, n) != from {
        FirstVisibleAgrees(t, u, props, from + 1, wantDefault, n, done);
      }
    }
  }

  /** Visibility and selection only look at the conditions of the prompts and at rev_dep. */
  lemma {:induction false} VisibleAgrees(t: Table, u: Table, s: Symbol, done: iset<Symbol>)
    requires Alike(t, u) && SameOn(t, u, done) && PromptsIn(t.InfoOf(s).props, done) && OptIn(t.InfoOf(s).revDep, done)
    requires t.InfoOf(s).props == u.InfoOf(s).props && t.InfoOf(s).revDep == u.InfoOf(s).revDep
    ensures t.Visible(s) == u.Visible(s) && t.Selected(s) == u.Selected(s)
  {
    t.PropsBelow(s);
    u.PropsBelow(s);
    PromptMaxAgrees(t, u, t.InfoOf(s).props, t.rank(s), done);
    EvalOptAgrees(t, u, t.InfoOf(s).revDep, t.rank(s), done);
  }

  /** The same first visible default with the same value. */
  lemma {:induction false} DefaultAgrees(t: Table, u: Table, s: Symbol, done: iset<Symbol>)
    requires Alike(t, u) && SameOn(t, u, done) && DefaultIn(t, s, done) && t.InfoOf(s).props == u.InfoOf(s).props
    ensures var props, n := t.InfoOf(s).props, t.rank(s);
      && t.PropsAllBelow(props, n) && u.PropsAllBelow(props, n)
      && var k := t.FirstVisible(props, 0, true, n);
      && k == u.FirstVisible(props, 0, true, n)
      && (k < |props| ==>
            && t.BelowOpt(props[k].visible, n) && t.Below(props[k].expr, n)
            && u.BelowOpt(props[k].visible, n) && u.Below(props[k].expr, n)
            && t.EvalOpt(props[k].visible, n) == u.EvalOpt(props[k].visible, n)
            && (IsTriType(s) ==> t.Eval(props[k].expr, n) == u.Eval(props[k].expr, n))
            && (props[k].expr.Leaf? ==> t.Value(props[k].expr.sym) == u.Value(props[k].expr.sym)))
  {
    var props, n := t.InfoOf(s).props, t.rank(s);
    t.PropsBelow(s);
    FirstVisibleAgrees(t, u, props, 0, true, n, done);
    var k := t.FirstVisible(props, 0, true, n);
    if k < |props| {
      assert t.PropBelow(props[k], n);
      assert t.BelowOpt(props[k].visible, n) && t.Below(props[k].expr, n);
      EvalOptAgrees(t, u, props[k].visible, n, done);
      assert forall d | d in ExprSyms(props[k].expr) :: u.rank(d) < n;
      if IsTriType(s) {
        EvalAgrees(t, u, props[k].expr, n, done);
      }
      if props[k].expr.Leaf? {
        assert props[k].expr.sym in ExprSyms(props[k].expr);
      }
    }
  }

  lemma {:induction false} TriValueAgrees(t: Table, u: Table, s: Symbol, done: iset<Symbol>)
    requires Alike(t, u) && SameOn(t, u, done) && Settles(t, s, done) && t.InfoOf(s) == u.InfoOf(s) && IsTriType(s)
    ensures t.TriValue(s) == u.TriValue(s)
  {
    VisibleAgrees(t, u, s, done);
    if !(t.Visible(s) != NO && t.InfoOf(s).user.Some?) {
      DefaultAgrees(t, u, s, done);
    }
  }

  lemma {:induction false} StrValueAgrees(t: Table, u: Table, s: Symbol, done: iset<Symbol>)
    requires Alike(t, u) && SameOn(t, u, done) && Settles(t, s, done) && t.InfoOf(s) == u.InfoOf(s)
    ensures t.StrValue(s) == u.StrValue(s)
  {
    VisibleAgrees(t, u, s, done);
    if !(t.Visible(s) != NO && t.InfoOf(s).user.Some?) {
      DefaultAgrees(t, u, s, done);
    }
  }

  lemma {:induction false} ClampAgrees(t: Table, u: Table, s: Symbol, done: iset<Symbol>)
    requires Alike(t, u) && SameOn(t, u, done) && Settles(t, s, done) && t.InfoOf(s) == u.InfoOf(s)
    ensures t.Clamp(s, t.StrValue(s)) == u.Clamp(s, u.StrValue(s))
  {
    StrValueAgrees(t, u, s, done);
    if s.Type() == Int || s.Type() == Hex {
      var n, props := t.rank(s), t.InfoOf(s).props;
      t.PropsBelow(s);
      FirstVisibleAgrees(t, u, props, 0, false, n, done);
      var k := t.FirstVisible(props, 0, false, n);
      if k < |props| {
        assert t.PropBelow(props[k], n);
      }
    }
  }

  /** Everything that calculation stores about a symbol is settled by what it looks at. */
  lemma {:induction false} SettledAgrees(t: Table, u: Table, s: Symbol, done: iset<Symbol>)
    requires Alike(t, u) && SameOn(t, u, done) && Settles(t, s, done) && t.InfoOf(s) == u.InfoOf(s)
    ensures t.Value(s) == u.Value(s) && t.Visible(s) == u.Visible(s) && t.Selected(s) == u.Selected(s)
    ensures t.Written(s) <==> u.Written(s)
  {
    VisibleAgrees(t, u, s, done);
    if IsTriType(s) {
      TriValueAgrees(t, u, s, done);
    }
    StrValueAgrees(t, u, s, done);
    ClampAgrees(t, u, s, done);
    t.PropsBelow(s);
    u.PropsBelow(s);
    if !(t.Visible(s) != NO && t.InfoOf(s).user.Some?) {
      DefaultAgrees(t, u, s, done);
    }
  }

  lemma {:induction false} SettlesMore(t: Table, s: Symbol, done: iset<Symbol>, more: iset<Symbol>)
    requires t.Ranked() && Settles(t, s, done) && done <= more
    ensures Settles(t, s, more)
  {}

  lemma {:induction false} StoredInMore(t: Table, s: Symbol, done: iset<Symbol>, more: iset<Symbol>)
    requires t.Ranked() && StoredIn(t, s, done) && done <= more
    ensures StoredIn(t, s, more)
  {}

  lemma {:induction false} SettlesBoth(t: Table, s: Symbol, a: iset<Symbol>, b: iset<Symbol>)
    requires t.Ranked() && Settles(t, s, a) && Settles(t, s, b)
    ensures Settles(t, s, a * b)
  {}

  /** What is looked at is the same in both tables. */
  lemma {:induction false} SettlesToo(t: Table, u: Table, s: Symbol, done: iset<Symbol>)
    requires Alike(t, u) && SameOn(t, u, done) && Settles(t, s, done) && t.InfoOf(s) == u.InfoOf(s)
    ensures Settles(u, s, done)
  {
    VisibleAgrees(t, u, s, done);
    StrValueAgrees(t, u, s, done);
    t.PropsBelow(s);
    u.PropsBelow(s);
    if !(t.Visible(s) != NO && t.InfoOf(s).user.Some?) {
      DefaultAgrees(t, u, s, done);
    }
    if s.Type() == Int || s.Type() == Hex {
      FirstVisibleAgrees(t, u, t.InfoOf(s).props, 0, false, t.rank(s), done);
    }
  }

  ghost function LowerThan(t: Table, n: nat): iset<Symbol> { iset d: Symbol | t.rank(d) < n }

  /** All symbols of lower rank are more than enough. */
  lemma {:induction false} LowerSettles(t: Table, s: Symbol)
    requires t.Ranked()
    ensures Settles(t, s, LowerThan(t, t.rank(s)))
  {
    var props, done := t.InfoOf(s).props, LowerThan(t, t.rank(s));
    t.PropsBelow(s);
    forall i | 0 <= i < |props| ensures OptIn(props[i].visible, done) || props[i].Relation? || props[i].Other? {
      assert t.PropBelow(props[i], t.rank(s));
    }
    var k := t.FirstVisible(props, 0, true, t.rank(s));
    if k < |props| {
      assert t.PropBelow(props[k], t.rank(s));
    }
    var r := t.FirstVisible(props, 0, false, t.rank(s));
    if r < |props| {
      assert t.PropBelow(props[r], t.rank(s));
    }
  }

  /** The two tables differ at most in symbols of rank `n` or more. */
  ghost predicate AgreeBelow(t: Table, u: Table, n: nat) {
    Alike(t, u) && forall d | t.rank(d) < n :: t.InfoOf(d) == u.InfoOf(d)
  }

  /** Equal below a rank means equal values below it. */
  lemma {:induction false} AgreeingTables(t: Table, u: Table, n: nat)
    requires AgreeBelow(t, u, n)
    ensures SameOn(t, u, LowerThan(t, n))
  {
    if n > 0 {
      AgreeingTables(t, u, n - 1);
      forall d | t.rank(d) < n ensures t.Value(d) == u.Value(d) {
        if t.rank(d) == n - 1 {
          LowerSettles(t, d);
          SettledAgrees(t, u, d, LowerThan(t, n - 1));
        }
      }
    }
  }

  // ----- sym_tristate_within_range ---------------------------------------------

  /** sym_tristate_within_range for a symbol that is no choice value. */
  ghost predicate WithinRange(t: Table, s: Symbol, val: Tristate)
    requires t.Ranked()
  {
    var typ, vis, rev := t.EffType(s), t.Visible(s), t.Selected(s);
    && vis != NO
    && (typ == Boolean || typ == Tri)
    && !(typ == Boolean && val == MOD)
    && vis > rev
    && rev <= val <= vis
  }

  /** The user sets def[S_DEF_USER].tri. */
  function SetUser(t: Table, s: Symbol, val: Tristate): Table {
    t.(info := t.info[s := t.InfoOf(s).(user := Some(Val(val, "")))])
  }

  lemma {:induction false} SetUserRanked(t: Table, s: Symbol, val: Tristate)
    requires t.Ranked()
    ensures SetUser(t, s, val).Ranked()
    ensures AgreeBelow(t, SetUser(t, s, val), t.rank(s))
  {
    var u := SetUser(t, s, val);
    forall a: Symbol, d: Symbol | d in u.Deps(a) ensures u.rank(d) < u.rank(a) {
      assert u.Deps(a) == t.Deps(a);
    }
  }

  /** Setting a user value changes neither the symbol's visibility nor what selects it. */
  lemma {:induction false} SetUserKeepsBounds(t: Table, s: Symbol, val: Tristate)
    requires t.Ranked()
    ensures var u := SetUser(t, s, val);
      u.Ranked() && u.Visible(s) == t.Visible(s) && u.Selected(s) == t.Selected(s)
  {
    var u := SetUser(t, s, val);
    SetUserRanked(t, s, val);
    AgreeingTables(t, u, t.rank(s));
    LowerSettles(t, s);
    VisibleAgrees(t, u, s, LowerThan(t, t.rank(s)));
  }

  /**
   * A changeable boolean or tristate symbol accepts a value if and only if recalculating after it was
   * set gives exactly that value.
   */
  lemma {:induction false} WithinRangeExactly(t: Table, s: Symbol, val: Tristate)
    requires t.Ranked() && (s.Type() == Boolean || s.Type() == Tri)
    ensures SetUser(t, s, val).Ranked()
    ensures WithinRange(t, s, val) <==>
      t.Visible(s) > t.Selected(s) && SetUser(t, s, val).Value(s).tri == val
  {
    SetUserKeepsBounds(t, s, val);
  }

  /** In every state the value is at least what selects the symbol, and never m where it counts as boolean. */
  lemma {:induction false} ValueBounds(t: Table, s: Symbol)
    requires t.Ranked() && (s.Type() == Boolean || s.Type() == Tri)
    ensures t.Value(s).tri >= t.Selected(s)
    ensures t.EffType(s) == Boolean ==> t.Value(s).tri != MOD
  {}

  /**
   * sym_set_tristate_value also accepts the value the symbol already has.  Recalculation then keeps it
   * unless the symbol is visible and its value came from a default above both bounds.
   */
  lemma {:induction false} RestatedValue(t: Table, s: Symbol)
    requires t.Ranked() && (s.Type() == Boolean || s.Type() == Tri)
    ensures var v := t.Value(s).tri;
      && SetUser(t, s, v).Ranked()
      && (SetUser(t, s, v).Value(s).tri == v <==>
          t.Visible(s) == NO || v <= Max(t.Visible(s), t.Selected(s)))
  {
    var v := t.Value(s).tri;
    var u := SetUser(t, s, v);
    SetUserKeepsBounds(t, s, v);
    AgreeingTables(t, u, t.rank(s));
    LowerSettles(t, s);
    var done := LowerThan(t, t.rank(s));
    if !(t.Visible(s) != NO && t.InfoOf(s).user.Some?) {
      DefaultAgrees(t, u, s, done);
    }
    t.PropsBelow(s);
    u.PropsBelow(s);
  }

  /**
   * Then everything else stays as it is as well: if the user value of `s` changes and its value does not,
   * neither does anything that is stored about any symbol.
   */
  lemma {:induction false} SameValueSameTable(t: Table, s: Symbol, val: Tristate, n: nat)
    requires t.Ranked() && SetUser(t, s, val).Ranked() && SetUser(t, s, val).Value(s) == t.Value(s)
    ensures SameOn(t, SetUser(t, s, val), LowerThan(t, n))
  {
    var u := SetUser(t, s, val);
    if n > 0 {
      SameValueSameTable(t, s, val, n - 1);
      forall d | t.rank(d) < n ensures t.Value(d) == u.Value(d) {
        if t.rank(d) == n - 1 && d != s {
          LowerSettles(t, d);
          SettledAgrees(t, u, d, LowerThan(t, n - 1));
        }
      }
    }
  }

  /** What is stored about a symbol besides its value never depends on its own user value. */
  lemma {:induction false} SameFields(t: Table, s: Symbol, val: Tristate, d: Symbol)
    requires t.Ranked() && SetUser(t, s, val).Ranked() && SetUser(t, s, val).Value(s) == t.Value(s)
    ensures var u := SetUser(t, s, val);
      t.Value(d) == u.Value(d) && t.Visible(d) == u.Visible(d) && t.Selected(d) == u.Selected(d) &&
      (t.Written(d) <==> u.Written(d))
  {
    var u := SetUser(t, s, val);
    SameValueSameTable(t, s, val, t.rank(d));
    LowerSettles(t, d);
    if d != s {
      SettledAgrees(t, u, d, LowerThan(t, t.rank(d)));
    } else {
      VisibleAgrees(t, u, s, LowerThan(t, t.rank(s)));
      WrittenAgrees(t, u, s);
    }
  }

  lemma {:induction false} WrittenAgrees(t: Table, u: Table, s: Symbol)
    requires Alike(t, u) && SameOn(t, u, LowerThan(t, t.rank(s)))
    requires t.InfoOf(s).props == u.InfoOf(s).props && t.InfoOf(s).auto == u.InfoOf(s).auto
    requires t.Visible(s) == u.Visible(s) && t.Selected(s) == u.Selected(s)
    ensures t.Written(s) <==> u.Written(s)
  {
    LowerSettles(t, s);
    t.PropsBelow(s);
    u.PropsBelow(s);
    var props, done := t.InfoOf(s).props, LowerThan(t, t.rank(s));
    forall i | 0 <= i < |props| && props[i].Default? ensures OptIn(props[i].visible, done) {
      assert t.PropBelow(props[i], t.rank(s));
    }
    FirstVisibleAgrees(t, u, props, 0, true, t.rank(s), done);
  }
}
