/** sym_calc_value: the memoised evaluator behind SYMBOL_VALID. */
module SymbolCalculation {
  import opened Options
  import opened Tristates
  import opened Exprs
  import opened SymbolValues

  predicate HasValueType(s: Symbol) {
    s.Type() == Boolean || s.Type() == Tri || s.Type() == Int || s.Type() == Hex || s.Type() == Str
  }

  /** The fields of struct symbol that calculation writes: curr, visible, rev_dep.tri and SYMBOL_WRITE. */
  datatype State = State(curr: Val, visible: Tristate, selected: Tristate, write: bool)

  const ZERO := State(Val(NO, ""), NO, NO, false)

  class SymbolTable {
    /** Kconfig entries and user values. */
    var t: Table
    /** The symbols with SYMBOL_VALID set. */
    var valid: set<Symbol>
    var states: map<Symbol, State>
    /** Symbols whose calculation has begun and not ended. */
    ghost var busy: set<Symbol>

    /** symbol_yes, symbol_mod and symbol_no are initialised statically, all others are zeroed. */
    function Get(s: Symbol): State
      reads this`states
    {
      if s == SYM_YES then ZERO.(curr := Val(YES, "y"))
      else if s == SYM_MOD then ZERO.(curr := Val(MOD, "m"))
      else if s == SYM_NO then ZERO.(curr := Val(NO, "n"))
      else if s in states then states[s] else ZERO
    }

    /** Everything stored about the symbol is what the recursive definition gives. */
    ghost predicate Correct(s: Symbol)
      requires t.Ranked()
      reads this`t, this`states
    {
      && Get(s).curr == t.Value(s)
      && (HasValueType(s) ==>
          && Get(s).visible == t.Visible(s)
          && Get(s).selected == t.Selected(s)
          && Get(s).write == t.Written(s))
    }

    /** The symbols that need no calculation any more. */
    ghost function Done(): iset<Symbol>
      reads this`valid
    {
      iset d: Symbol | d in valid || IsTriConst(d)
    }

    /** What is marked valid is right, and so is marked everything it was calculated from. */
    ghost predicate Consistent()
      reads this
    {
      && t.Ranked()
      && forall s | s in valid && s !in busy :: Correct(s) && (HasValueType(s) ==> Settles(t, s, Done()))
    }

    /** All calculations in progress are of symbols of rank `n` or more. */
    ghost predicate BusyFrom(n: nat)
      reads this`busy, this`t
    {
      forall b | b in busy :: t.rank(b) >= n
    }

    /** What every step keeps: the tables, what is valid, and the fields of symbols in progress but `s`. */
    twostate predicate KeptBut(s: Symbol)
      reads this
    {
      && t == old(t) && busy == old(busy) && old(valid) <= valid
      && forall b | b in busy && b != s :: Get(b) == old(Get(b))
    }

    twostate predicate Kept()
      reads this
    {
      && t == old(t) && busy == old(busy) && old(valid) <= valid
      && forall b | b in busy :: Get(b) == old(Get(b))
    }

    constructor (t: Table)
      requires t.Ranked()
      ensures Consistent() && this.t == t && busy == {} && valid == {}
    {
      this.t := t;
      valid, states, busy := {}, map[], {};
    }

    /** Write the fields of a symbol that is being calculated. */
    method Put(s: Symbol, x: State)
      requires Consistent() && s in busy && !IsTriConst(s)
      modifies this`states
      ensures Consistent() && KeptBut(s)
      ensures Get(s) == x
    {
      states := states[s := x];
      assert forall b | b != s :: Get(b) == old(Get(b));
    }

    /** sym_get_string_value. */
    function StringValue(s: Symbol): string
      reads this`states
    {
      if s.Type() == Boolean || s.Type() == Tri then TriName(Get(s).curr.tri) else Get(s).curr.str
    }

    /** expr_calc_value. */
    method CalcExpr(e: Expr, ghost n: nat) returns (v: Tristate)
      requires Consistent() && t.Below(e, n) && BusyFrom(n)
      modifies this
      ensures Consistent() && Kept()
      ensures v == t.Eval(e, n) && ExprIn(e, Done())
      decreases n, 0, e
    {
      match e
      case Leaf(s) =>
        assert s in ExprSyms(e);
        CalcValue(s);
        v := Get(s).curr.tri;
      case Not(a) =>
        v := CalcExpr(a, n);
        v := Neg(v);
      case Bin(op, l, r) =>
        assert t.Below(l, n) && t.Below(r, n);
        var v1 := CalcExpr(l, n);
        var v2 := CalcExpr(r, n);
        v := OpVal(op, v1, v2);
      case Cmp(c, l, r) =>
        assert l in ExprSyms(e) && r in ExprSyms(e);
        CalcValue(l);
        CalcValue(r);
        v := if (StringValue(l) == StringValue(r)) == (c == Equal) then YES else NO;
    }

    method CalcOpt(e: Option<Expr>, ghost n: nat) returns (v: Tristate)
      requires Consistent() && t.BelowOpt(e, n) && BusyFrom(n)
      modifies this
      ensures Consistent() && Kept()
      ensures v == t.EvalOpt(e, n) && OptIn(e, Done())
      decreases n, 1
    {
      if e.None? {
        return YES;
      }
      assert t.Below(e.value, n);
      v := CalcExpr(e.value, n);
    }

    /** sym_get_default_prop and sym_get_range_prop. */
    method FindProp(props: seq<Prop>, wantDefault: bool, ghost n: nat) returns (k: nat)
      requires Consistent() && t.PropsAllBelow(props, n) && BusyFrom(n)
      modifies this
      ensures Consistent() && Kept()
      ensures k == t.FirstVisible(props, 0, wantDefault, n) && SearchIn(props, 0, k, wantDefault, Done())
      decreases n, 2
    {
      k := 0;
      while k < |props|
        invariant 0 <= k <= |props|
        invariant Consistent() && Kept()
        invariant t.FirstVisible(props, 0, wantDefault, n) == t.FirstVisible(props, k, wantDefault, n)
        invariant forall i | 0 <= i < k && IsKind(props[i], wantDefault) :: OptIn(props[i].visible, Done())
      {
        assert t.PropBelow(props[k], n);
        if IsKind(props[k], wantDefault) {
          assert t.BelowOpt(props[k].visible, n);
          var v := CalcOpt(props[k].visible, n);
          if v != NO {
            return;
          }
        }
        k := k + 1;
      }
    }

    /** The prompt loop of sym_calc_visibility. */
    method CalcPrompts(props: seq<Prop>, ghost n: nat) returns (tri: Tristate)
      requires Consistent() && t.PropsAllBelow(props, n) && BusyFrom(n)
      modifies this
      ensures Consistent() && Kept()
      ensures tri == t.PromptMax(props, n) && PromptsIn(props, Done())
      decreases n, 2
    {
      tri := NO;
      var i := 0;
      while i < |props|
        invariant 0 <= i <= |props|
        invariant Consistent() && Kept()
        invariant t.PropsAllBelow(props[..i], n)
        invariant tri == t.PromptMax(props[..i], n)
        invariant forall j | 0 <= j < i && props[j].Prompt? :: OptIn(props[j].visible, Done())
      {
        assert t.PropBelow(props[i], n);
        assert props[..i + 1][..i] == props[..i];
        if props[i].Prompt? {
          assert t.BelowOpt(props[i].visible, n);
          var v := CalcOpt(props[i].visible, n);
          tri := Max(tri, v);
        }
        i := i + 1;
      }
      assert props[..i] == props;
    }

    /** sym_calc_visibility. */
    method CalcVisibility(s: Symbol)
      requires Consistent() && s in busy && !IsTriConst(s) && BusyFrom(t.rank(s))
      modifies this
      ensures Consistent() && KeptBut(s)
      ensures Get(s) == old(Get(s)).(visible := t.Visible(s), selected := t.Selected(s))
      ensures PromptsIn(t.InfoOf(s).props, Done()) && OptIn(t.InfoOf(s).revDep, Done())
      decreases t.rank(s), 3
    {
      t.PropsBelow(s);
      var info := t.InfoOf(s);
      var tri := CalcPrompts(info.props, t.rank(s));
      if tri == MOD && (s.Type() != Tri || t.modulesVal == NO) {
        tri := YES;
      }
      Put(s, Get(s).(visible := tri));
      tri := NO;
      if info.revDep.Some? {
        tri := CalcOpt(info.revDep, t.rank(s));
      }
      if tri == MOD && t.EffType(s) == Boolean {
        tri := YES;
      }
      Put(s, Get(s).(selected := tri));
    }

    /** sym_get_range_val. */
    method RangeVal(s: Symbol, base: int, ghost n: nat) returns (v: int)
      requires Consistent() && t.rank(s) < n && BusyFrom(n)
      modifies this
      ensures Consistent() && Kept()
      ensures v == t.num.strtol(t.Value(s).str, Base(s.Type(), base)) && s in Done()
      decreases n, 0, Leaf(s)
    {
      CalcValue(s);
      v := t.num.strtol(Get(s).curr.str, Base(s.Type(), base));
    }

    /** sym_validate_range, on the string just stored in sym->curr. */
    method ValidateRange(s: Symbol, str: string) returns (r: string)
      requires Consistent() && BusyFrom(t.rank(s))
      modifies this
      ensures Consistent() && Kept()
      ensures r == t.Clamp(s, str)
      ensures (s.Type() == Int || s.Type() == Hex) && str == t.StrValue(s) ==> RangeIn(t, s, Done())
      decreases t.rank(s), 4
    {
      r := str;
      if s.Type() != Int && s.Type() != Hex {
        return;
      }
      t.PropsBelow(s);
      var props := t.InfoOf(s).props;
      var k := FindProp(props, false, t.rank(s));
      if k == |props| {
        return;
      }
      assert t.PropBelow(props[k], t.rank(s));
      var base := Base(s.Type(), 0);
      var v := t.num.strtol(str, base);
      var v2 := RangeVal(props[k].lo, base, t.rank(s));
      if v >= v2 {
        v2 := RangeVal(props[k].hi, base, t.rank(s));
        if v <= v2 {
          return;
        }
      }
      r := t.num.format(s.Type(), v2);
    }

    /** A boolean or tristate symbol's value from its first visible default; `found` says if there is one. */
    method CalcDefault(s: Symbol) returns (tri: Tristate, found: bool)
      requires Consistent() && BusyFrom(t.rank(s))
      modifies this
      ensures Consistent() && Kept()
      ensures var (props, n) := (t.InfoOf(s).props, t.rank(s));
        && t.PropsAllBelow(props, n)
        && var k := t.FirstVisible(props, 0, true, n);
        && found == (k < |props|)
        && (found ==> t.Below(props[k].expr, n) && t.BelowOpt(props[k].visible, n) &&
                      tri == Min(t.Eval(props[k].expr, n), t.EvalOpt(props[k].visible, n)))
        && (!found ==> tri == NO)
      ensures IsTriType(s) ==> DefaultIn(t, s, Done())
      decreases t.rank(s), 3
    {
      t.PropsBelow(s);
      var props := t.InfoOf(s).props;
      var k := FindProp(props, true, t.rank(s));
      found := k < |props|;
      tri := NO;
      if found {
        assert t.PropBelow(props[k], t.rank(s));
        assert t.BelowOpt(props[k].visible, t.rank(s)) && t.Below(props[k].expr, t.rank(s));
        tri := CalcExpr(props[k].expr, t.rank(s));
        var pv := CalcOpt(props[k].visible, t.rank(s));
        tri := Min(tri, pv);
      }
    }

    /** The S_BOOLEAN and S_TRISTATE case; `write` is what becomes of SYMBOL_WRITE. */
    method CalcTri(s: Symbol) returns (tri: Tristate, write: bool)
      requires Consistent() && s in busy && BusyFrom(t.rank(s))
      requires s.Type() == Boolean || s.Type() == Tri
      requires Get(s).visible == t.Visible(s) && Get(s).selected == t.Selected(s)
      modifies this
      ensures Consistent() && Kept()
      ensures tri == t.TriValue(s)
      ensures !(t.Visible(s) != NO && t.InfoOf(s).user.Some?) ==> DefaultIn(t, s, Done())
      ensures !t.InfoOf(s).auto ==> write == t.Written(s)
      decreases t.rank(s), 4
    {
      t.PropsBelow(s);
      var me, user := Get(s), t.InfoOf(s).user;
      write := me.visible != NO;
      if me.visible != NO && user.Some? {
        tri := Min(user.value.tri, me.visible);
      } else {
        if me.selected != NO {
          write := true;
        }
        var found;
        tri, found := CalcDefault(s);
        if found {
          write := true;
        }
      }
      tri := Max(tri, me.selected);
      if tri == MOD && t.EffType(s) == Boolean {
        tri := YES;
      }
    }

    /** The S_STRING, S_HEX and S_INT case. */
    method CalcString(s: Symbol) returns (str: string, write: bool)
      requires Consistent() && s in busy && BusyFrom(t.rank(s))
      requires s.Type() == Int || s.Type() == Hex || s.Type() == Str
      requires Get(s).visible == t.Visible(s)
      modifies this
      ensures Consistent() && Kept()
      ensures str == t.StrValue(s)
      ensures !(t.Visible(s) != NO && t.InfoOf(s).user.Some?) ==> DefaultIn(t, s, Done())
      ensures !t.InfoOf(s).auto ==> write == t.Written(s)
      decreases t.rank(s), 4
    {
      t.PropsBelow(s);
      var info := t.InfoOf(s);
      str, write := "", Get(s).visible != NO;
      if write && info.user.Some? {
        return info.user.value.str, true;
      }
      var k := FindProp(info.props, true, t.rank(s));
      if k < |info.props| && info.props[k].expr.Leaf? {
        write := true;
        var d := info.props[k].expr.sym;
        assert t.PropBelow(info.props[k], t.rank(s)) && d in ExprSyms(info.props[k].expr);
        CalcValue(d);
        str := Get(d).curr.str;
      }
    }

    /** Visibility, selection and value of a symbol, as stored before sym_validate_range. */
    method CalcStored(s: Symbol)
      requires Consistent() && s in busy && HasValueType(s) && BusyFrom(t.rank(s))
      modifies this
      ensures Consistent() && KeptBut(s)
      ensures Get(s).visible == t.Visible(s) && Get(s).selected == t.Selected(s)
      ensures Get(s).curr == if IsTriType(s) then Val(t.TriValue(s), "n") else Val(NO, t.StrValue(s))
      ensures !t.InfoOf(s).auto ==> Get(s).write == t.Written(s)
      ensures StoredIn(t, s, Done())
      decreases t.rank(s), 5
    {
      Put(s, Get(s).(write := false));
      CalcVisibility(s);
      Put(s, Get(s).(curr := Val(NO, if IsTriType(s) then "n" else "")));
      ghost var before := Done();
      var tri, str, write := NO, "n", false;
      if IsTriType(s) {
        tri, write := CalcTri(s);
      } else {
        str, write := CalcString(s);
      }
      Put(s, Get(s).(curr := Val(tri, str), write := write));
      assert before <= Done();
    }

    /** The part of sym_calc_value after SYMBOL_VALID is set, for symbols of a type with values. */
    method CalcTyped(s: Symbol)
      requires Consistent() && s in busy && HasValueType(s) && BusyFrom(t.rank(s))
      modifies this
      ensures Consistent() && KeptBut(s)
      ensures Correct(s) && Settles(t, s, Done())
      decreases t.rank(s), 6
    {
      CalcStored(s);
      ghost var before := Done();
      var stored := Get(s);
      var str := ValidateRange(s, stored.curr.str);
      Put(s, stored.(curr := stored.curr.(str := str), write := stored.write && !t.InfoOf(s).auto));
      StoredInMore(t, s, before, Done());
    }

    /**
     * sym_calc_value.  Whatever was calculated before and in whatever order, the symbol ends up valid
     * with the value, visibility, selection and write flag of the recursive definition.
     */
    method CalcValue(s: Symbol)
      requires Consistent() && s !in busy && BusyFrom(t.rank(s) + 1)
      modifies this
      ensures Consistent() && Kept()
      ensures Correct(s) && (IsTriConst(s) || s in valid)
      decreases t.rank(s), 7
    {
      if IsTriConst(s) || s in valid {
        return;
      }
      ghost var before := Done();
      valid, busy := valid + {s}, busy + {s};
      forall x | x in valid && x !in busy && HasValueType(x) ensures Settles(t, x, Done()) {
        SettlesMore(t, x, before, Done());
      }
      if HasValueType(s) {
        CalcTyped(s);
      } else {
        var name := if s.Const? then s.text else if s.name.Some? then s.name.value else "";
        Put(s, Get(s).(curr := Val(NO, name)));
      }
      busy := busy - {s};
    }

    /** A loop such as for_all_symbols: the result does not depend on the order. */
    method CalcAll(order: seq<Symbol>)
      requires Consistent() && busy == {}
      modifies this
      ensures Consistent() && busy == {} && t == old(t)
      ensures forall s | s in order :: Correct(s)
    {
      var i := 0;
      while i < |order|
        invariant 0 <= i <= |order|
        invariant Consistent() && busy == {} && t == old(t)
        invariant forall j | 0 <= j < i :: IsTriConst(order[j]) || order[j] in valid
      {
        CalcValue(order[i]);
        i := i + 1;
      }
      forall s | s in order ensures Correct(s) {
        if IsTriConst(s) {
          assert Correct(s);
        }
      }
    }

    /** sym_tristate_within_range on the stored visibility and selection. */
    predicate InRange(s: Symbol, val: Tristate)
      reads this`t, this`states
    {
      var typ, me := t.EffType(s), Get(s);
      && me.visible != NO
      && (typ == Boolean || typ == Tri)
      && !(typ == Boolean && val == MOD)
      && !(me.visible <= me.selected)
      && val >= me.selected && val <= me.visible
    }

    /** What is valid and looks at nothing that changed is right for the changed user value too. */
    lemma {:induction false} StaleIsIrrelevant(u: Table, s: Symbol, val: Tristate, n: nat)
      requires Consistent() && busy == {} && s !in valid && !IsTriConst(s)
      requires u == SetUser(t, s, val) && u.Ranked()
      ensures forall x | x in Done() && t.rank(x) < n :: t.Value(x) == u.Value(x)
    {
      if n > 0 {
        StaleIsIrrelevant(u, s, val, n - 1);
        forall x | x in Done() && t.rank(x) < n ensures t.Value(x) == u.Value(x) {
          if t.rank(x) == n - 1 && !x.Const? && HasValueType(x) {
            StaleFields(u, s, val, x);
          }
        }
      }
    }

    lemma {:induction false} StaleFields(u: Table, s: Symbol, val: Tristate, x: Symbol)
      requires Consistent() && busy == {} && s !in valid && !IsTriConst(s)
      requires u == SetUser(t, s, val) && u.Ranked() && x in valid && HasValueType(x)
      requires forall d | d in Done() && t.rank(d) < t.rank(x) :: t.Value(d) == u.Value(d)
      ensures t.Value(x) == u.Value(x) && t.Visible(x) == u.Visible(x) && t.Selected(x) == u.Selected(x)
      ensures t.Written(x) <==> u.Written(x)
      ensures Settles(u, x, Done())
    {
      var done := Done() * LowerThan(t, t.rank(x));
      LowerSettles(t, x);
      SettlesBoth(t, x, Done(), LowerThan(t, t.rank(x)));
      SettledAgrees(t, u, x, done);
      SettlesToo(t, u, x, done);
      SettlesMore(u, x, done, Done());
    }

    /**
     * sym_set_tristate_value.  A new value is accepted exactly when it is within range; everything is
     * then calculated afresh, and the symbol calculates to the value that was set.  The value that the
     * symbol has is accepted as well, and nothing is cleared.  If the symbol is up to date, what is marked
     * valid stays right exactly if it is invisible or the value is within its bounds; if it is not up to
     * date, nothing that is marked valid was calculated from it.
     */
    method SetTristate(s: Symbol, val: Tristate) returns (ok: bool)
      requires Consistent() && busy == {} && !IsTriConst(s) && IsTriType(s)
      modifies this`t, this`valid
      ensures ok <==> Get(s).curr.tri == val || old(InRange(s, val))
      ensures s in old(valid) ==> (old(InRange(s, val)) <==> WithinRange(old(t), s, val))
      ensures t == if ok then SetUser(old(t), s, val) else old(t)
      ensures valid == if ok && Get(s).curr.tri != val then {} else old(valid)
      ensures Get(s).curr.tri != val || s !in old(valid) ==> Consistent()
      ensures s in old(valid) && Get(s).curr.tri == val ==>
        (Consistent() <==> old(t).Visible(s) == NO || val <= Max(old(t).Visible(s), old(t).Selected(s)))
      ensures ok && s in old(valid) && Get(s).curr.tri != val ==> t.Value(s).tri == val
    {
      var oldval := Get(s).curr.tri;
      if oldval != val && !InRange(s, val) {
        return false;
      }
      SetUserRanked(t, s, val);
      WithinRangeExactly(t, s, val);
      if oldval == val {
        if s in valid {
          RestatedIsRight(s, val);
        } else {
          StaleIsRight(s, val);
        }
      }
      t := SetUser(t, s, val);
      if oldval != val {
        valid := {};
      }
      return true;
    }

    /** Everything marked valid is right for the table `u`. */
    ghost predicate RightFor(u: Table)
      requires u.Ranked()
      reads this
    {
      forall x | x in valid && x !in busy ::
        && Get(x).curr == u.Value(x)
        && (HasValueType(x) ==>
            && Get(x).visible == u.Visible(x) && Get(x).selected == u.Selected(x) && Get(x).write == u.Written(x)
            && Settles(u, x, Done()))
    }

    lemma {:induction false} StaleIsRight(s: Symbol, val: Tristate)
      requires Consistent() && busy == {} && s !in valid && !IsTriConst(s) && SetUser(t, s, val).Ranked()
      ensures RightFor(SetUser(t, s, val))
    {
      var u := SetUser(t, s, val);
      forall x | x in valid
        ensures Get(x).curr == u.Value(x)
        ensures HasValueType(x) ==>
          && Get(x).visible == u.Visible(x) && Get(x).selected == u.Selected(x) && Get(x).write == u.Written(x)
          && Settles(u, x, Done())
      {
        if HasValueType(x) {
          StaleIsIrrelevant(u, s, val, t.rank(x));
          StaleFields(u, s, val, x);
        }
      }
    }

    lemma {:induction false} RestatedIsRight(s: Symbol, val: Tristate)
      requires Consistent() && busy == {} && s in valid && !IsTriConst(s) && IsTriType(s) && Get(s).curr.tri == val
      requires SetUser(t, s, val).Ranked()
      ensures RightFor(SetUser(t, s, val)) <==> t.Visible(s) == NO || val <= Max(t.Visible(s), t.Selected(s))
    {
      var u := SetUser(t, s, val);
      RestatedValue(t, s);
      assert t.Value(s).tri == val;
      if u.Value(s) == t.Value(s) {
        forall x | x in valid
          ensures Get(x).curr == u.Value(x)
          ensures HasValueType(x) ==>
            && Get(x).visible == u.Visible(x) && Get(x).selected == u.Selected(x) && Get(x).write == u.Written(x)
            && Settles(u, x, Done())
        {
          SameFields(t, s, val, x);
          if HasValueType(x) {
            RestatedSettles(s, val, x);
          }
        }
      }
    }

    lemma {:induction false} RestatedSettles(s: Symbol, val: Tristate, x: Symbol)
      requires Consistent() && busy == {} && x in valid && HasValueType(x) && IsTriType(s)
      requires SetUser(t, s, val).Ranked() && SetUser(t, s, val).Value(s) == t.Value(s)
      ensures Settles(SetUser(t, s, val), x, Done())
    {
      var u := SetUser(t, s, val);
      forall d | d in Done() ensures t.Value(d) == u.Value(d) {
        SameFields(t, s, val, d);
      }
      assert SameOn(t, u, Done());
      if x != s {
        SettlesToo(t, u, x, Done());
      } else {
        VisibleAgrees(t, u, s, Done());
        t.PropsBelow(s);
        u.PropsBelow(s);
        if t.Visible(s) == NO {
          DefaultAgrees(t, u, s, Done());
        }
      }
    }
  }
}
