/** What menu_finalize makes of conditions: menu->dep, prop->visible.expr and sym->rev_dep.expr. */
module MenuDeps {
  import opened Options
  import opened Tristates
  import opened Exprs
  import opened Transforms
  import opened DupElimination
  import opened DupClash
  import opened DupMods
  import opened MenuLinks

  /** A property whose prop->menu is this entry; `select` is the target of a P_SELECT. */
  datatype MenuProp = MenuProp(visible: Option<Expr>, select: Option<Symbol>)

  type Deps = map<Id, Expr>
  type PropTable = map<Id, seq<MenuProp>>
  type RevDeps = map<Symbol, Expr>

  function DepOf(d: Deps, i: Id): Option<Expr> { if i in d then Some(d[i]) else None }

  function PropsOf(p: PropTable, i: Id): (ps: seq<MenuProp>)
    ensures i in p ==> ps == p[i]
  {
    if i in p then p[i] else []
  }

  /** An own condition below an inherited one, before duplicates are removed. */
  function Inherit(base: Option<Expr>, own: Option<Expr>): Option<Expr> {
    AllocAnd(base, if own.Some? then Some(Transform(own.value)) else None)
  }

  /** expr_eliminate_dups on an expression that may be NULL. */
  function Simplified(e: Option<Expr>): Option<Expr> { if e.Some? then Some(DupFree(e.value)) else None }

  function TransBoolOpt(e: Option<Expr>): Option<Expr> { if e.Some? then Some(TransBool(e.value)) else None }

  /**
   * The new visibility of a property of an entry with the condition `base`; `two` for a symbol that is not
   * tristate.
   */
  function NewVisible(base: Option<Expr>, two: bool, own: Option<Expr>): Option<Expr> {
    var d := Simplified(Inherit(base, own));
    if two then TransBoolOpt(d) else d
  }

  /** One property of an entry with the new condition `base`. */
  predicate Rewritten(base: Option<Expr>, two: bool, q: MenuProp, q': MenuProp) {
    q' == q.(visible := NewVisible(base, two, q.visible))
  }

  predicate AllRewritten(base: Option<Expr>, two: bool, ps: seq<MenuProp>, ps': seq<MenuProp>) {
    |ps| == |ps'| && forall i | 0 <= i < |ps| :: Rewritten(base, two, ps[i], ps'[i])
  }

  /** One round of the dependency loop, for the child `m` of an entry with the condition `parentdep`. */
  predicate Propagated(parentdep: Option<Expr>, two: bool, m: Id, d0: Deps, p0: PropTable, d1: Deps, p1: PropTable) {
    && DepOf(d1, m) == Simplified(Inherit(parentdep, DepOf(d0, m)))
    && AllRewritten(DepOf(d1, m), two, PropsOf(p0, m), PropsOf(p1, m))
  }

  // ----- what sym_calc_visibility makes of it -----------------------------------

  /** The largest visibility among the first `n` prompt conditions. */
  function PromptValue(conds: seq<Option<Expr>>, n: nat, env: Env): Tristate
    requires n <= |conds|
  {
    if n == 0 then NO else Max(PromptValue(conds, n - 1, env), CalcOpt(conds[n - 1], env))
  }

  /** sym->visible of a symbol that is not tristate: m counts as y. */
  function TwoVisibility(conds: seq<Option<Expr>>, env: Env): Tristate {
    if PromptValue(conds, |conds|, env) == NO then NO else YES
  }

  lemma {:induction false} PromptValueIsNo(a: seq<Option<Expr>>, n: nat, env: Env)
    requires n <= |a|
    ensures PromptValue(a, n, env) == NO <==> forall i | 0 <= i < n :: CalcOpt(a[i], env) == NO
  {
    if n > 0 {
      PromptValueIsNo(a, n - 1, env);
    }
  }

  /** A symbol that is not tristate is as visible through the prompts expr_trans_bool left as it was before. */
  lemma {:induction false} VisibilityIsKept(conds: seq<Option<Expr>>, conds': seq<Option<Expr>>, env: Env)
    requires env.Valid() && |conds| == |conds'|
    requires forall i | 0 <= i < |conds| ::
      conds'[i] == TransBoolOpt(conds[i]) && (conds[i].Some? ==> NotAtSymbols(conds[i].value))
    ensures TwoVisibility(conds', env) == TwoVisibility(conds, env)
  {
    forall i | 0 <= i < |conds| ensures CalcOpt(conds[i], env) == NO <==> CalcOpt(conds'[i], env) == NO {
      if conds[i].Some? {
        TransBoolKeepsNo(conds[i].value, env);
      }
    }
    PromptValueIsNo(conds, |conds|, env);
    PromptValueIsNo(conds', |conds|, env);
  }

  function Conditions(ps: seq<MenuProp>): seq<Option<Expr>> { seq(|ps|, i requires 0 <= i < |ps| => ps[i].visible) }

  /** Combining two conditions is the logical and of their values, whichever of them is there. */
  lemma {:induction false} InheritValue(base: Option<Expr>, own: Option<Expr>, env: Env)
    requires env.Valid()
    ensures CalcOpt(Inherit(base, own), env) == Min(CalcOpt(base, env), CalcOpt(own, env))
  {
    if own.Some? {
      TransformValue(own.value, env);
    }
  }

  /**
   * What two conditions say together once they are combined and simplified: their logical and if that is
   * y or n, and what the steps of expr_eliminate_dups make of it if it is m.
   */
  function Together(base: Option<Expr>, own: Option<Expr>, env: Env): Tristate {
    var v, c := Min(CalcOpt(base, env), CalcOpt(own, env)), Inherit(base, own);
    if v == MOD && c.Some? then ModResult(c.value, env) else v
  }

  lemma {:induction false} TogetherValue(base: Option<Expr>, own: Option<Expr>, env: Env)
    requires env.Valid()
    ensures CalcOpt(Simplified(Inherit(base, own)), env) == Together(base, own, env)
  {
    InheritValue(base, own, env);
    if Inherit(base, own).Some? {
      DupFreeExactly(Inherit(base, own).value, env);
    }
  }

  predicate NotsOpt(e: Option<Expr>) { e.Some? ==> NotAtSymbols(e.value) }

  lemma {:induction false} SimplifiedNots(base: Option<Expr>, own: Option<Expr>)
    requires NotsOpt(base)
    ensures NotsOpt(Simplified(Inherit(base, own))) && NotsOpt(NewVisible(base, true, own))
  {
    var c := Inherit(base, own);
    if c.Some? {
      if own.Some? {
        TransformNormal(own.value);
      }
      DupFreeKeeps(c.value);
      TransBoolNots(Simplified(c).value);
    }
  }

  /**
   * The new condition of a property, below an entry's condition `base`: what both say together.  For a symbol
   * that is not tristate only n or not n matters, and there is no `TRISTATE != n` in it.
   */
  lemma {:induction false} NewVisibleValue(base: Option<Expr>, own: Option<Expr>, env: Env)
    requires env.Valid()
    ensures CalcOpt(NewVisible(base, false, own), env) == Together(base, own, env)
    ensures NotsOpt(base) ==> (CalcOpt(NewVisible(base, true, own), env) == NO <==> Together(base, own, env) == NO)
    ensures var d := NewVisible(base, true, own); d.Some? ==> !ComparesWithNo(d.value)
  {
    TogetherValue(base, own, env);
    var d := Simplified(Inherit(base, own));
    if d.Some? {
      TransBoolLeavesNone(d.value);
      if NotsOpt(base) {
        SimplifiedNots(base, own);
        TransBoolKeepsNo(d.value, env);
      }
    }
  }

  /**
   * Across the whole rewriting of an entry's prompts, its symbol stays as visible as the entry's condition
   * and the prompts' own conditions say together.  The exception is a symbol that is only visible through
   * conditions that are m and that expr_eliminate_dups turns to n, all of them.
   */
  lemma {:induction false} RewrittenVisibility(base: Option<Expr>, ps: seq<MenuProp>, ps': seq<MenuProp>, env: Env)
    requires env.Valid() && AllRewritten(base, true, ps, ps')
    requires NotsOpt(base)
    ensures TwoVisibility(Conditions(ps'), env) ==
      if exists i :: 0 <= i < |ps| && Together(base, ps[i].visible, env) != NO then YES else NO
  {
    var b := Conditions(ps');
    forall i | 0 <= i < |ps| ensures CalcOpt(b[i], env) == NO <==> Together(base, ps[i].visible, env) == NO {
      assert Rewritten(base, true, ps[i], ps'[i]);
      NewVisibleValue(base, ps[i].visible, env);
    }
    PromptValueIsNo(b, |b|, env);
  }

  lemma {:induction false} ClashIsTransformed(t: BinOp, f: Symbol, b: Symbol)
    requires f.Type() == Tri && b.Type() == Tri
    ensures Transform(Clash(t, f, b)) == Clash(t, f, b)
  {
    var (u, v) := (Bin(Dual(t), Leaf(f), Leaf(b)), Negated(t, f, b));
    assert Transformed(Leaf(f)) && Transformed(Leaf(b));
    assert Transformed(Not(Leaf(f))) && Transformed(Not(Leaf(b)));
    assert Transformed(u) && Transformed(v);
    TransformIdempotent(Bin(t, u, v));
  }

  /** For a prompt with `(FOO || BAR) && (!FOO && !BAR)`, FOO = BAR = m is such an exception. */
  lemma {:induction false} VisibilityIsLost(f: Symbol, b: Symbol, env: Env) returns (p: MenuProp, p': MenuProp)
    requires f != b && f.Type() == Tri && b.Type() == Tri
    requires env.Valid() && env.tri(f) == MOD && env.tri(b) == MOD
    ensures Rewritten(None, true, p, p')
    ensures CalcOpt(p.visible, env) == MOD && TwoVisibility(Conditions([p']), env) == NO
  {
    var e := Clash(AndOp, f, b);
    p := MenuProp(Some(e), None);
    p' := p.(visible := NewVisible(None, true, p.visible));
    ClashLosesMod(AndOp, f, b, env);
    ClashIsTransformed(AndOp, f, b);
    assert Conditions([p'])[0] == Some(TransBool(Leaf(Zero(AndOp))));
    PromptValueIsNo(Conditions([p']), 1, env);
  }

  // ----- what selects a symbol ------------------------------------------------

  /** rev_dep.tri as sym_calc_visibility takes it from rev_dep.expr; NULL counts as n here. */
  function RevValue(r: RevDeps, t: Symbol, env: Env): Tristate {
    if t in r then Calc(r[t], env) else NO
  }

  /** The strongest select of `t` among the first `n` properties of symbol `s`. */
  function SelectedBy(s: Symbol, ps: seq<MenuProp>, n: nat, t: Symbol, env: Env): Tristate
    requires n <= |ps|
  {
    if n == 0 then NO
    else Max(SelectedBy(s, ps, n - 1, t, env),
             if ps[n - 1].select == Some(t) then Min(env.tri(s), CalcOpt(ps[n - 1].visible, env)) else NO)
  }

  lemma {:induction false} StrongestProp(s: Symbol, ps: seq<MenuProp>, n: nat, t: Symbol, env: Env)
    requires n <= |ps|
    ensures var v := SelectedBy(s, ps, n, t, env);
      && (forall j | 0 <= j < n && ps[j].select == Some(t) :: Min(env.tri(s), CalcOpt(ps[j].visible, env)) <= v)
      && (v == NO || exists j ::
            0 <= j < n && ps[j].select == Some(t) && Min(env.tri(s), CalcOpt(ps[j].visible, env)) == v)
  {
    if n > 0 {
      StrongestProp(s, ps, n - 1, t, env);
    }
  }

  /** The same over the first `n` entries. */
  function SelectedByEntries(sym: map<Id, Symbol>, ids: seq<Id>, n: nat, p: PropTable, t: Symbol, env: Env): Tristate
    requires n <= |ids|
  {
    if n == 0 then NO
    else Max(SelectedByEntries(sym, ids, n - 1, p, t, env), SelectedByEntry(sym, ids[n - 1], p, t, env))
  }

  function SelectedByEntry(sym: map<Id, Symbol>, i: Id, p: PropTable, t: Symbol, env: Env): Tristate {
    if i in sym then SelectedBy(sym[i], PropsOf(p, i), |PropsOf(p, i)|, t, env) else NO
  }

  ghost predicate EntrySelects(r0: RevDeps, r1: RevDeps, s: Symbol, ps: seq<MenuProp>, n: nat)
    requires n <= |ps|
  {
    forall t: Symbol, env: Env | env.Valid() ::
      RevValue(r1, t, env) == Max(RevValue(r0, t, env), SelectedBy(s, ps, n, t, env))
  }

  ghost predicate EntriesSelect(r0: RevDeps, r1: RevDeps, sym: map<Id, Symbol>, ids: seq<Id>, n: nat, p: PropTable)
    requires n <= |ids|
  {
    forall t: Symbol, env: Env | env.Valid() ::
      RevValue(r1, t, env) == Max(RevValue(r0, t, env), SelectedByEntries(sym, ids, n, p, t, env))
  }

  /** es->rev_dep.expr || (menu->sym && dep), for one P_SELECT. */
  function AddSelect(r: RevDeps, s: Symbol, q: MenuProp): RevDeps {
    if q.select.None? then r
    else
      var es := q.select.value;
      r[es := AllocOr(if es in r then Some(r[es]) else None, AllocAnd(Some(Leaf(s)), q.visible)).value]
  }

  lemma {:induction false} SelectFrame(s: Symbol, ps: seq<MenuProp>, ps': seq<MenuProp>, n: nat, t: Symbol, env: Env)
    requires n <= |ps| == |ps'| && ps[..n] == ps'[..n]
    ensures SelectedBy(s, ps, n, t, env) == SelectedBy(s, ps', n, t, env)
  {
    if n > 0 {
      assert ps[..n - 1] == ps[..n][..n - 1] && ps'[..n - 1] == ps'[..n][..n - 1];
      assert ps[n - 1] == ps[..n][n - 1] && ps'[n - 1] == ps'[..n][n - 1];
      SelectFrame(s, ps, ps', n - 1, t, env);
    }
  }

  lemma {:induction false} SelectStep(r0: RevDeps, r1: RevDeps, s: Symbol, ps: seq<MenuProp>, n: nat, q: MenuProp)
    requires n < |ps| && EntrySelects(r0, r1, s, ps, n)
    ensures EntrySelects(r0, AddSelect(r1, s, q), s, ps[n := q], n + 1)
  {
    var r2, ps' := AddSelect(r1, s, q), ps[n := q];
    forall t: Symbol, env: Env | env.Valid()
      ensures RevValue(r2, t, env) == Max(RevValue(r0, t, env), SelectedBy(s, ps', n + 1, t, env))
    {
      SelectFrame(s, ps, ps', n, t, env);
      assert RevValue(r1, t, env) == Max(RevValue(r0, t, env), SelectedBy(s, ps, n, t, env));
      assert ps'[n] == q;
      if q.select == Some(t) {
        AddedValue(r1, s, q, env);
      } else {
        assert RevValue(r2, t, env) == RevValue(r1, t, env);
      }
    }
  }

  lemma {:induction false} AddedValue(r: RevDeps, s: Symbol, q: MenuProp, env: Env)
    requires q.select.Some?
    ensures var t := q.select.value;
      RevValue(AddSelect(r, s, q), t, env) == Max(RevValue(r, t, env), Min(env.tri(s), CalcOpt(q.visible, env)))
  {
    var one := AllocAnd(Some(Leaf(s)), q.visible).value;
    assert Calc(one, env) == Min(env.tri(s), CalcOpt(q.visible, env));
  }

  lemma {:induction false} EntriesFrame(sym: map<Id, Symbol>, ids: seq<Id>, n: nat, p: PropTable, p': PropTable,
      t: Symbol, env: Env)
    requires n <= |ids| && forall j | 0 <= j < n :: PropsOf(p, ids[j]) == PropsOf(p', ids[j])
    ensures SelectedByEntries(sym, ids, n, p, t, env) == SelectedByEntries(sym, ids, n, p', t, env)
  {
    if n > 0 {
      EntriesFrame(sym, ids, n - 1, p, p', t, env);
    }
  }

  lemma {:induction false} EntriesStep(r0: RevDeps, r1: RevDeps, r2: RevDeps, sym: map<Id, Symbol>, ids: seq<Id>,
      n: nat, p: PropTable, p': PropTable)
    requires n < |ids| && EntriesSelect(r0, r1, sym, ids, n, p)
    requires forall j | 0 <= j < n :: PropsOf(p, ids[j]) == PropsOf(p', ids[j])
    requires ids[n] in sym ==> EntrySelects(r1, r2, sym[ids[n]], PropsOf(p', ids[n]), |PropsOf(p', ids[n])|)
    requires ids[n] !in sym ==> r2 == r1
    ensures EntriesSelect(r0, r2, sym, ids, n + 1, p')
  {
    forall t: Symbol, env: Env | env.Valid()
      ensures RevValue(r2, t, env) == Max(RevValue(r0, t, env), SelectedByEntries(sym, ids, n + 1, p', t, env))
    {
      EntriesFrame(sym, ids, n, p, p', t, env);
      assert RevValue(r1, t, env) == Max(RevValue(r0, t, env), SelectedByEntries(sym, ids, n, p, t, env));
      var i := ids[n];
      if i in sym {
        assert RevValue(r2, t, env) ==
          Max(RevValue(r1, t, env), SelectedBy(sym[i], PropsOf(p', i), |PropsOf(p', i)|, t, env));
      }
      assert SelectedByEntries(sym, ids, n + 1, p', t, env)
        == Max(SelectedByEntries(sym, ids, n, p', t, env), SelectedByEntry(sym, i, p', t, env));
    }
  }

  /** The dependency loop after its first `n` rounds: those entries are done, all others are as before. */
  ghost predicate Spread(parentdep: Option<Expr>, sym: map<Id, Symbol>, ids: seq<Id>, n: nat, d0: Deps, p0: PropTable,
      d1: Deps, p1: PropTable)
    requires n <= |ids|
  {
    && (forall j | 0 <= j < n :: Propagated(parentdep, NotTri(sym, ids[j]), ids[j], d0, p0, d1, p1))
    && (forall c | c !in ids[..n] :: DepOf(d1, c) == DepOf(d0, c) && PropsOf(p1, c) == PropsOf(p0, c))
  }

  /** menu->sym && menu->sym->type != S_TRISTATE */
  predicate NotTri(sym: map<Id, Symbol>, i: Id) { i in sym && sym[i].Type() != Tri }

  lemma {:induction false} SamePropagated(cond: Option<Expr>, two: bool, m: Id, d0: Deps, p0: PropTable, d0': Deps,
      p0': PropTable, d1: Deps, p1: PropTable)
    requires Propagated(cond, two, m, d0, p0, d1, p1) && DepOf(d0, m) == DepOf(d0', m)
    requires PropsOf(p0, m) == PropsOf(p0', m)
    ensures Propagated(cond, two, m, d0', p0', d1, p1)
  {}

  lemma {:induction false} SameResult(cond: Option<Expr>, two: bool, m: Id, d0: Deps, p0: PropTable, d1: Deps,
      p1: PropTable, d1': Deps, p1': PropTable)
    requires Propagated(cond, two, m, d0, p0, d1, p1) && DepOf(d1, m) == DepOf(d1', m)
    requires PropsOf(p1, m) == PropsOf(p1', m)
    ensures Propagated(cond, two, m, d0, p0, d1', p1')
  {}

  lemma {:induction false} SpreadStep(parentdep: Option<Expr>, sym: map<Id, Symbol>, ids: seq<Id>, n: nat,
      d0: Deps, p0: PropTable, d1: Deps, p1: PropTable, d2: Deps, p2: PropTable)
    requires n < |ids| && Spread(parentdep, sym, ids, n, d0, p0, d1, p1)
    requires forall i, j | 0 <= i < j < |ids| :: ids[i] != ids[j]
    requires Propagated(parentdep, NotTri(sym, ids[n]), ids[n], d1, p1, d2, p2)
    requires forall c | c != ids[n] :: DepOf(d2, c) == DepOf(d1, c) && PropsOf(p2, c) == PropsOf(p1, c)
    ensures Spread(parentdep, sym, ids, n + 1, d0, p0, d2, p2)
  {
    assert ids[..n + 1] == ids[..n] + [ids[n]];
    assert ids[n] !in ids[..n];
    SamePropagated(parentdep, NotTri(sym, ids[n]), ids[n], d1, p1, d0, p0, d2, p2);
    forall j | 0 <= j < n ensures Propagated(parentdep, NotTri(sym, ids[j]), ids[j], d0, p0, d2, p2) {
      SpreadBefore(parentdep, sym, ids, n, j, d0, p0, d1, p1, d2, p2);
    }
  }

  /** A child reached in an earlier round is not touched again. */
  lemma {:induction false} SpreadBefore(parentdep: Option<Expr>, sym: map<Id, Symbol>, ids: seq<Id>, n: nat, j: nat,
      d0: Deps, p0: PropTable, d1: Deps, p1: PropTable, d2: Deps, p2: PropTable)
    requires j < n < |ids| && Spread(parentdep, sym, ids, n, d0, p0, d1, p1)
    requires DepOf(d2, ids[j]) == DepOf(d1, ids[j]) && PropsOf(p2, ids[j]) == PropsOf(p1, ids[j])
    ensures Propagated(parentdep, NotTri(sym, ids[j]), ids[j], d0, p0, d2, p2)
  {
    SameResult(parentdep, NotTri(sym, ids[j]), ids[j], d0, p0, d1, p1, d2, p2);
  }

  /** The ids on the top level of a sibling list. */
  function Tops(f: Forest): seq<Id> { if f.Nil? then [] else [f.id] + Tops(f.rest) }

  lemma {:induction false} TopsDiffer(f: Forest)
    requires Distinct(f)
    ensures forall i | i in Tops(f) :: i in Ids(f)
    ensures forall i, j | 0 <= i < j < |Tops(f)| :: Tops(f)[i] != Tops(f)[j]
  {
    if f.Cons? {
      TopsDiffer(f.rest);
    }
  }
}
