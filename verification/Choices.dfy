/** Choice symbols: sym_calc_choice, and what sym_calc_value and sym_set_tristate_value do with choice values. */
module Choices {
  import opened Options
  import opened Tristates
  import opened Exprs

  /**
   * One choice, its members numbered in the order of its E_LIST, and everything outside it: the values
   * of the members' own conditions, of the conditions of the defaults, of the choice's prompt and rev_dep.
   */
  datatype Setup = Setup(
    triChoice: bool, triMember: seq<bool>, defaults: seq<nat>,
    cond: seq<Tristate>, defCond: seq<Tristate>, prompt: Tristate, selected: Tristate, modules: Tristate)
  {
    predicate Ok() {
      |cond| == |triMember| && |defCond| == |defaults| && forall i | 0 <= i < |defaults| :: defaults[i] < |cond|
    }

    function Promote(tristate: bool, t: Tristate): Tristate {
      if t == MOD && (!tristate || modules == NO) then YES else t
    }

    /**
     * The choice's part in a member's prompt condition: a two-valued member of a tristate choice needs
     * `choice = y`.
     */
    function Gate(c: Tristate, m: nat): Tristate
      requires Ok() && m < |cond|
    {
      if triChoice && !triMember[m] then (if c == YES then YES else NO) else c
    }

    /** sym->visible of a member while the choice has the value `c`. */
    function Vis(c: Tristate, m: nat): Tristate
      requires Ok() && m < |cond|
    {
      Promote(triMember[m], Min(Gate(c, m), cond[m]))
    }

    /** sym_get_type, for a member of that visibility. */
    function IsBool(m: nat, vis: Tristate): bool
      requires Ok() && m < |cond|
    {
      !triMember[m] || vis == YES || modules == NO
    }
  }

  /** What the user said: def[S_DEF_USER] and SYMBOL_DEF_USER of the choice and of its members. */
  datatype User = User(has: bool, tri: Tristate, pick: Option<nat>, mHas: seq<bool>, mTri: seq<Tristate>)

  /** A member without SYMBOL_DEF_USER still has the n it was reset to. */
  predicate UserOk(g: Setup, u: User) {
    && |u.mHas| == |u.mTri| == |g.cond|
    && (u.pick.Some? ==> u.pick.value < |g.cond|)
    && forall m | 0 <= m < |g.cond| :: !u.mHas[m] ==> u.mTri[m] == NO
  }

  // ----- the values, as a definition ---------------------------------------------

  /** The choice's value before a member is looked for. */
  function BaseValue(g: Setup, u: User): Tristate {
    var vis := g.Promote(g.triChoice, g.prompt);
    var rev := g.Promote(g.triChoice, g.selected);
    g.Promote(g.triChoice, Max(if vis != NO && u.has then Min(u.tri, vis) else NO, rev))
  }

  /** The member is shown once the choice is y. */
  predicate Shown(g: Setup, m: nat)
    requires g.Ok() && m < |g.cond|
  {
    g.Vis(YES, m) != NO
  }

  predicate DefaultShown(g: Setup, i: nat)
    requires g.Ok() && i < |g.defaults|
  {
    g.defCond[i] != NO && Shown(g, g.defaults[i])
  }

  function FirstDefault(g: Setup, from: nat): (i: nat)
    requires g.Ok() && from <= |g.defaults|
    ensures from <= i <= |g.defaults| && forall j | from <= j < i :: !DefaultShown(g, j)
    ensures i < |g.defaults| ==> DefaultShown(g, i)
    decreases |g.defaults| - from
  {
    if from == |g.defaults| || DefaultShown(g, from) then from else FirstDefault(g, from + 1)
  }

  function FirstShown(g: Setup, from: nat): (m: nat)
    requires g.Ok() && from <= |g.cond|
    ensures from <= m <= |g.cond| && forall j | from <= j < m :: !Shown(g, j)
    ensures m < |g.cond| ==> Shown(g, m)
    decreases |g.cond| - from
  {
    if from == |g.cond| || Shown(g, from) then from else FirstShown(g, from + 1)
  }

  /** The user's pick if it is shown, else the first default that is, else the first member that is. */
  function Pick(g: Setup, u: User): (r: Option<nat>)
    requires g.Ok() && UserOk(g, u)
    ensures r.Some? ==> r.value < |g.cond| && Shown(g, r.value)
    ensures r.None? ==> forall m | 0 <= m < |g.cond| :: !Shown(g, m)
  {
    if u.pick.Some? && Shown(g, u.pick.value) then u.pick
    else
      var i := FirstDefault(g, 0);
      if i < |g.defaults| then Some(g.defaults[i])
      else
        var m := FirstShown(g, 0);
        if m < |g.cond| then Some(m) else None
  }

  function ChoiceValue(g: Setup, u: User): Tristate
    requires g.Ok() && UserOk(g, u)
  {
    if BaseValue(g, u) == YES && Pick(g, u).None? then NO else BaseValue(g, u)
  }

  /** curr.val of the choice: a member only when the choice is y. */
  function Chosen(g: Setup, u: User): Option<nat>
    requires g.Ok() && UserOk(g, u)
  {
    if BaseValue(g, u) == YES then Pick(g, u) else None
  }

  /** A member's value when the choice's cached value is `c` and its cached pick `chosen`. */
  function MemberFrom(g: Setup, c: Tristate, chosen: Option<nat>, u: User, m: nat): Tristate
    requires g.Ok() && UserOk(g, u) && m < |g.cond|
  {
    var vis := g.Vis(c, m);
    if vis == YES then (if chosen == Some(m) then YES else NO)
    else if vis != NO && u.mHas[m] then Min(u.mTri[m], vis)
    else NO
  }

  function MemberValue(g: Setup, u: User, m: nat): Tristate
    requires g.Ok() && UserOk(g, u) && m < |g.cond|
  {
    MemberFrom(g, ChoiceValue(g, u), Chosen(g, u), u, m)
  }

  // ----- exactly one member is y ---------------------------------------------------

  predicate OnlyYes(g: Setup, u: User, p: nat)
    requires g.Ok() && UserOk(g, u) && p < |g.cond|
  {
    forall m | 0 <= m < |g.cond| :: MemberValue(g, u, m) == YES <==> m == p
  }

  /** A member can only be y when the choice is y and this member is picked and wholly visible. */
  lemma {:induction false} MemberIsYes(g: Setup, u: User, m: nat)
    requires g.Ok() && UserOk(g, u) && m < |g.cond|
    ensures MemberValue(g, u, m) == YES <==>
      ChoiceValue(g, u) == YES && Pick(g, u) == Some(m) && g.Vis(YES, m) == YES
  {
    var vis := g.Vis(ChoiceValue(g, u), m);
    assert vis == YES && Chosen(g, u) == Some(m) ==> ChoiceValue(g, u) == YES;
    assert ChoiceValue(g, u) == YES ==> Chosen(g, u) == Pick(g, u);
    assert vis != YES ==> MemberValue(g, u, m) != YES;
  }

  /**
   * When the choice is y it has a pick, and exactly one member is y if and only if the pick is wholly
   * visible.  A choice that is not y has no member that is y.
   */
  lemma {:induction false} ExactlyOneYes(g: Setup, u: User)
    requires g.Ok() && UserOk(g, u)
    ensures ChoiceValue(g, u) == YES ==> Pick(g, u).Some?
    ensures ChoiceValue(g, u) == YES ==> (OnlyYes(g, u, Pick(g, u).value) <==> g.Vis(YES, Pick(g, u).value) == YES)
    ensures ChoiceValue(g, u) != YES || g.Vis(YES, Pick(g, u).value) != YES ==>
      forall m | 0 <= m < |g.cond| :: MemberValue(g, u, m) != YES
  {
    forall m | 0 <= m < |g.cond|
      ensures MemberValue(g, u, m) == YES <==> ChoiceValue(g, u) == YES && Pick(g, u) == Some(m) && g.Vis(YES, m) == YES
    {
      MemberIsYes(g, u, m);
    }
    if ChoiceValue(g, u) == YES {
      assert Pick(g, u).value < |g.cond|;
    }
  }

  /** The members of a boolean choice are boolean, so there it is always exactly one. */
  lemma {:induction false} BooleanChoice(g: Setup, u: User)
    requires g.Ok() && UserOk(g, u) && forall m | 0 <= m < |g.cond| :: !g.triMember[m]
    ensures ChoiceValue(g, u) == YES ==> Pick(g, u).Some? && OnlyYes(g, u, Pick(g, u).value)
    ensures ChoiceValue(g, u) != YES ==> forall m | 0 <= m < |g.cond| :: MemberValue(g, u, m) != YES
  {
    ExactlyOneYes(g, u);
  }

  /** A tristate choice that is y may pick a member whose condition is only m: then no member is y. */
  lemma {:induction false} PickedButOnlyMod() returns (g: Setup, u: User)
    ensures g.Ok() && UserOk(g, u) && ChoiceValue(g, u) == YES && Pick(g, u) == Some(0)
    ensures |g.cond| == 2 && g.Vis(YES, 1) == YES && forall m | 0 <= m < |g.cond| :: MemberValue(g, u, m) == NO
  {
    g := Setup(true, [true, true], [], [MOD, YES], [], YES, NO, YES);
    u := User(true, YES, None, [false, false], [NO, NO]);
    assert Shown(g, 0) && FirstDefault(g, 0) == 0 && FirstShown(g, 0) == 0;
  }

  /** Which member is picked, stated by what rules the others out. */
  lemma {:induction false} PickOrder(g: Setup, u: User, p: nat)
    requires g.Ok() && UserOk(g, u) && Pick(g, u) == Some(p)
    ensures u.pick == Some(p) || u.pick.None? || !Shown(g, u.pick.value)
    ensures u.pick != Some(p) ==>
      || (exists i ::
            && 0 <= i < |g.defaults| && g.defaults[i] == p && DefaultShown(g, i)
            && forall j | 0 <= j < i :: !DefaultShown(g, j))
      || ((forall j | 0 <= j < |g.defaults| :: !DefaultShown(g, j)) && forall m | 0 <= m < p :: !Shown(g, m))
  {
    var i := FirstDefault(g, 0);
    assert i < |g.defaults| ==> DefaultShown(g, i);
  }

  // ----- setting a member, on the values ---------------------------------------------

  /** What sym_set_tristate_value does to the user values; `vis` is every member's visibility at the time. */
  function SetMember(g: Setup, u: User, vis: seq<Tristate>, m: nat, val: Tristate): User
    requires g.Ok() && UserOk(g, u) && |vis| == |g.cond| && m < |g.cond|
  {
    var u1 := u.(mHas := u.mHas[m := true], mTri := u.mTri[m := val]);
    if val != YES then u1
    else u1.(has := true, pick := Some(m),
             mHas := seq(|g.cond|, i requires 0 <= i < |g.cond| => i == m || u.mHas[i] || vis[i] != NO))
  }

  /** sym_tristate_within_range for a member. */
  predicate WithinRange(g: Setup, m: nat, vis: Tristate, val: Tristate)
    requires g.Ok() && m < |g.cond|
  {
    && vis != NO && !(g.IsBool(m, vis) && val == MOD)
    && (if vis == YES then val == YES else val <= vis)
  }

  /** sym_tristate_within_range for the choice. */
  predicate ChoiceRange(g: Setup, visible: Tristate, selected: Tristate, val: Tristate) {
    && visible != NO && !((!g.triChoice || g.modules == NO) && val == MOD)
    && visible > selected && selected <= val <= visible
  }

  /** Setting a member that is up to date gives it that value. */
  lemma {:induction false} SetMemberWorks(g: Setup, u: User, vis: seq<Tristate>, m: nat, val: Tristate)
    requires g.Ok() && UserOk(g, u) && |vis| == |g.cond| && m < |g.cond| && vis[m] == g.Vis(ChoiceValue(g, u), m)
    requires MemberValue(g, u, m) == val || WithinRange(g, m, vis[m], val)
    ensures var u' := SetMember(g, u, vis, m, val);
      UserOk(g, u') && MemberValue(g, u', m) == val && ChoiceValue(g, u') == ChoiceValue(g, u)
  {
    var u' := SetMember(g, u, vis, m, val);
    if val == YES {
      assert vis[m] == YES;
      assert ChoiceValue(g, u) == YES && Shown(g, m);
      assert Pick(g, u') == Some(m) && BaseValue(g, u') == YES;
    } else {
      assert BaseValue(g, u') == BaseValue(g, u) && Pick(g, u') == Pick(g, u);
    }
  }

  /** Setting again what a member already is leaves every value as it is. */
  lemma {:induction false} SetAgainChangesNothing(g: Setup, u: User, vis: seq<Tristate>, m: nat, k: nat)
    requires g.Ok() && UserOk(g, u) && |vis| == |g.cond| && m < |g.cond| && k < |g.cond|
    requires vis[m] == g.Vis(ChoiceValue(g, u), m)
    ensures var u' := SetMember(g, u, vis, m, MemberValue(g, u, m));
      UserOk(g, u') && MemberValue(g, u', k) == MemberValue(g, u, k) && ChoiceValue(g, u') == ChoiceValue(g, u)
      && Chosen(g, u') == Chosen(g, u)
  {
    var val := MemberValue(g, u, m);
    var u' := SetMember(g, u, vis, m, val);
    SetMemberWorks(g, u, vis, m, val);
    if val == YES {
      MemberIsYes(g, u, m);
      assert Pick(g, u') == Some(m) == Pick(g, u);
    } else {
      assert BaseValue(g, u') == BaseValue(g, u) && Pick(g, u') == Pick(g, u);
    }
    if k != m {
      assert u'.mTri[k] == u.mTri[k];
      assert u'.mHas[k] != u.mHas[k] ==> u.mTri[k] == NO;
    }
  }

  /** The choice's cached value and pick, calculated when the user values were `u0`, are right for `u` too. */
  predicate SameChoice(g: Setup, u0: User, u: User)
    requires g.Ok() && UserOk(g, u0) && UserOk(g, u)
  {
    ChoiceValue(g, u0) == ChoiceValue(g, u) && Chosen(g, u0) == Chosen(g, u)
  }

  /**
   * What a member set to y means for a choice that is y and not calculated again: its cached pick is
   * right if and only if it is that member, or that member is not shown and nothing hung on the old pick.
   */
  lemma {:induction false} StalePickExactly(g: Setup, u: User, vis: seq<Tristate>, m: nat)
    requires g.Ok() && UserOk(g, u) && |vis| == |g.cond| && m < |g.cond| && ChoiceValue(g, u) == YES
    ensures var u' := SetMember(g, u, vis, m, YES);
      && UserOk(g, u') && BaseValue(g, u') == YES
      && (SameChoice(g, u, u') <==>
          Chosen(g, u) == Some(m) || (!Shown(g, m) && Chosen(g, u) == Pick(g, u.(pick := None))))
  {
    var u' := SetMember(g, u, vis, m, YES);
    assert UserOk(g, u.(pick := None));
    assert !Shown(g, m) ==> Pick(g, u') == Pick(g, u.(pick := None));
    assert Shown(g, m) ==> Pick(g, u') == Some(m);
  }

  /**
   * The same for a choice that is not y.  What can change is that the choice counts as set: it keeps its
   * value if and only if that does not raise it, or only to a y for which there is no member to pick.
   */
  lemma {:induction false} StaleYesOutside(g: Setup, u: User, vis: seq<Tristate>, m: nat)
    requires g.Ok() && UserOk(g, u) && |vis| == |g.cond| && m < |g.cond| && ChoiceValue(g, u) != YES
    ensures var u' := SetMember(g, u, vis, m, YES);
      && UserOk(g, u')
      && (SameChoice(g, u, u') <==> SettingKeeps(g, u))
  {
    var u' := SetMember(g, u, vis, m, YES);
    assert BaseValue(g, u') == BaseValue(g, u.(has := true));
    assert Pick(g, u').Some? ==> Shown(g, Pick(g, u').value);
  }

  predicate SettingKeeps(g: Setup, u: User)
    requires g.Ok() && UserOk(g, u)
  {
    var base := BaseValue(g, u.(has := true));
    base == BaseValue(g, u) || (base == YES && ChoiceValue(g, u) == NO && forall k | 0 <= k < |g.cond| :: !Shown(g, k))
  }

  /** A value other than y leaves the choice alone. */
  lemma {:induction false} OtherValueKeepsChoice(g: Setup, u: User, vis: seq<Tristate>, m: nat, val: Tristate)
    requires g.Ok() && UserOk(g, u) && |vis| == |g.cond| && m < |g.cond| && val != YES
    ensures var u' := SetMember(g, u, vis, m, val); UserOk(g, u') && SameChoice(g, u, u')
  {
    var u' := SetMember(g, u, vis, m, val);
    assert Pick(g, u') == Pick(g, u) && BaseValue(g, u') == BaseValue(g, u);
  }

  /** No other member's value hangs on what was stored for `m`, while the choice's cached value stays. */
  lemma {:induction false} OthersUnchanged(g: Setup, c: Tristate, chosen: Option<nat>, u: User, vis: seq<Tristate>,
      m: nat, val: Tristate, k: nat)
    requires g.Ok() && UserOk(g, u) && |vis| == |g.cond| && m < |g.cond| && k < |g.cond| && k != m
    ensures var u' := SetMember(g, u, vis, m, val);
      UserOk(g, u') && MemberFrom(g, c, chosen, u', k) == MemberFrom(g, c, chosen, u, k)
  {
    var u' := SetMember(g, u, vis, m, val);
    assert u'.mTri[k] == u.mTri[k];
    assert u'.mHas[k] != u.mHas[k] ==> u.mTri[k] == NO;
  }

  /**
   * Setting the choice to the value it has keeps that value, except for an n that stands for a y without
   * any member to pick: there the m that selects a tristate choice comes to light.
   */
  lemma {:induction false} RestatedChoice(g: Setup, u: User)
    requires g.Ok() && UserOk(g, u)
    ensures var u' := u.(has := true, tri := ChoiceValue(g, u));
      SameChoice(g, u, u') <==> BaseValue(g, u) == ChoiceValue(g, u) || g.Promote(g.triChoice, g.selected) != MOD
  {
    var u' := u.(has := true, tri := ChoiceValue(g, u));
    assert Pick(g, u') == Pick(g, u);
  }

  // ----- the symbols -----------------------------------------------------------------

  /** A choice and its members with their cached values. */
  class Choice {
    var g: Setup
    var u: User
    /** SYMBOL_VALID, visible, rev_dep.tri and curr of the choice and of each member. */
    var valid: bool
    var visible: Tristate
    var selected: Tristate
    var tri: Tristate
    var chosen: Option<nat>
    var mValid: seq<bool>
    var mVisible: seq<Tristate>
    var mTri: seq<Tristate>
    /** The user values from which the choice was last calculated. */
    ghost var seen: User

    constructor (g: Setup, u: User)
      requires g.Ok() && UserOk(g, u)
      ensures Consistent() && this.g == g && this.u == u && !valid
    {
      this.g, this.u, seen := g, u, u;
      valid, visible, selected, tri, chosen := false, NO, NO, NO, None;
      mValid := seq(|g.cond|, _ => false);
      mVisible, mTri := seq(|g.cond|, _ => NO), seq(|g.cond|, _ => NO);
    }

    ghost predicate Valid()
      reads this
    {
      g.Ok() && UserOk(g, u) && UserOk(g, seen) && |mValid| == |mVisible| == |mTri| == |g.cond|
    }

    /** In every state that calls can leave: the cached values are right for the choice as it was last calculated. */
    ghost predicate Sound()
      reads this
    {
      && Valid()
      && (valid ==> tri == ChoiceValue(g, seen) && chosen == Chosen(g, seen))
      && forall m | 0 <= m < |g.cond| :: mValid[m] ==>
           valid && mVisible[m] == g.Vis(tri, m) && mTri[m] == MemberFrom(g, tri, chosen, u, m)
    }

    /** Whatever is marked valid has the value the definition gives it. */
    ghost predicate Consistent()
      reads this
    {
      Sound() && (valid ==> SameChoice(g, seen, u))
    }

    /** As far as a choice that is y goes. */
    ghost predicate InStep()
      reads this
    {
      Sound() && (valid && tri == YES ==> SameChoice(g, seen, u))
    }

    /** sym_calc_visibility of a member. */
    method CalcVisibility(m: nat)
      requires Valid() && m < |g.cond|
      modifies this`mVisible
      ensures Valid() && mVisible == old(mVisible)[m := g.Vis(tri, m)]
    {
      mVisible := mVisible[m := g.Promote(g.triMember[m], Min(g.Gate(tri, m), g.cond[m]))];
    }

    /** sym_calc_choice: the picked member; without any the choice falls back to n. */
    method CalcChoice() returns (r: Option<nat>)
      requires Valid() && tri == YES
      modifies this`mVisible, this`tri
      ensures Valid() && r == Pick(g, u) && tri == if r.Some? then YES else NO
    {
      if u.pick.Some? {
        CalcVisibility(u.pick.value);
        if mVisible[u.pick.value] != NO {
          return u.pick;
        }
      }
      r := CalcDefault();
      if r.None? {
        r := CalcShown();
      }
      if r.None? {
        tri := NO;
      }
    }

    /** Its loop over the defaults: the first whose condition holds and whose member is visible. */
    method CalcDefault() returns (r: Option<nat>)
      requires Valid() && tri == YES
      modifies this`mVisible
      ensures Valid()
      ensures var i := FirstDefault(g, 0); r == if i < |g.defaults| then Some(g.defaults[i]) else None
    {
      var i := 0;
      while i < |g.defaults|
        invariant 0 <= i <= |g.defaults| && Valid()
        invariant FirstDefault(g, 0) == FirstDefault(g, i)
      {
        if g.defCond[i] != NO {
          CalcVisibility(g.defaults[i]);
          if mVisible[g.defaults[i]] != NO {
            return Some(g.defaults[i]);
          }
        }
        i := i + 1;
      }
      return None;
    }

    /** Its loop over the members: the first visible one. */
    method CalcShown() returns (r: Option<nat>)
      requires Valid() && tri == YES
      modifies this`mVisible
      ensures Valid()
      ensures var m := FirstShown(g, 0); r == if m < |g.cond| then Some(m) else None
    {
      var m := 0;
      while m < |g.cond|
        invariant 0 <= m <= |g.cond| && Valid()
        invariant FirstShown(g, 0) == FirstShown(g, m)
      {
        CalcVisibility(m);
        if mVisible[m] != NO {
          return Some(m);
        }
        m := m + 1;
      }
      return None;
    }

    /** sym_calc_value of the choice. */
    method CalcValue()
      requires Sound()
      modifies this`valid, this`visible, this`selected, this`tri, this`chosen, this`mVisible, this`seen
      ensures Sound() && valid && seen == if old(valid) then old(seen) else u
      ensures old(valid) ==>
        visible == old(visible) && selected == old(selected) && tri == old(tri) && chosen == old(chosen) &&
        mVisible == old(mVisible)
      ensures !old(valid) ==>
        visible == g.Promote(g.triChoice, g.prompt) && selected == g.Promote(g.triChoice, g.selected)
    {
      if valid {
        return;
      }
      valid := true;
      visible := g.Promote(g.triChoice, g.prompt);
      selected := g.Promote(g.triChoice, g.selected);
      var newval := NO;
      if visible != NO && u.has {
        newval := Min(u.tri, visible);
      }
      newval := g.Promote(g.triChoice, Max(newval, selected));
      tri, chosen := newval, None;
      if newval == YES {
        chosen := CalcChoice();
      }
      seen := u;
    }

    /** sym_calc_value of a member.  Its prompt's condition asks for the choice's value first. */
    method CalcMember(m: nat)
      requires Sound() && m < |g.cond|
      modifies this`valid, this`visible, this`selected, this`tri, this`chosen, this`mValid, this`mVisible, this`mTri,
        this`seen
      ensures Sound() && mValid[m] && forall k | 0 <= k < |g.cond| :: old(mValid[k]) ==> mValid[k]
      ensures forall k | 0 <= k < |g.cond| && k != m :: mTri[k] == old(mTri[k]) && mValid[k] == old(mValid[k])
      ensures valid && seen == (if old(valid) then old(seen) else u)
      ensures old(valid) ==> tri == old(tri) && chosen == old(chosen)
    {
      if mValid[m] {
        return;
      }
      CalcValue();
      CalcFromChoice(m);
    }

    /** Its value, now that the choice has one. */
    method CalcFromChoice(m: nat)
      requires Sound() && valid && m < |g.cond|
      modifies this`mValid, this`mVisible, this`mTri
      ensures Sound() && mValid == old(mValid)[m := true]
      ensures mTri == old(mTri)[m := MemberFrom(g, tri, chosen, u, m)]
    {
      CalcVisibility(m);
      var newval := NO;
      var vis := mVisible[m];
      if vis == YES {
        newval := if chosen == Some(m) then YES else NO;
      } else if vis != NO && u.mHas[m] {
        newval := Min(u.mTri[m], vis);
      }
      if newval == MOD && g.IsBool(m, vis) {
        newval := YES;
      }
      mTri, mValid := mTri[m := newval], mValid[m := true];
    }

    /** sym_clear_all_valid */
    method ClearAllValid()
      requires Valid()
      modifies this`valid, this`mValid
      ensures Consistent() && !valid && forall m | 0 <= m < |g.cond| :: !mValid[m]
    {
      valid, mValid := false, seq(|g.cond|, _ => false);
    }

    /** Symbols outside the choice changed, and with them the conditions: sym_set_tristate_value on them clears all. */
    method ChangeOutside(g': Setup)
      requires Valid() && g'.Ok() && |g'.cond| == |g.cond|
      modifies this`g, this`valid, this`mValid
      ensures Consistent() && g == g' && !valid
    {
      g := g';
      ClearAllValid();
    }

    /**
     * sym_set_tristate_value of a member.  Nothing is cleared when the member has the value already, even
     * when that value is out of date; the state is then consistent exactly if the cached choice still is right.
     */
    method SetTristate(m: nat, val: Tristate) returns (ok: bool)
      requires Sound() && m < |g.cond|
      modifies this`u, this`valid, this`mValid
      ensures Sound() && ok == (mTri[m] == val || WithinRange(g, m, mVisible[m], val))
      ensures u == if ok then SetMember(g, old(u), mVisible, m, val) else old(u)
      ensures ok && mTri[m] != val ==> !valid
      ensures !ok || mTri[m] == val ==> valid == old(valid) && mValid == old(mValid)
      ensures Consistent() <==> !valid || SameChoice(g, seen, u)
      ensures old(Consistent()) && ok && mTri[m] == val && old(valid) && val == YES && tri == YES ==>
        (Consistent() <==> chosen == Some(m) || (!Shown(g, m) && chosen == Pick(g, old(u).(pick := None))))
      ensures old(Consistent()) && ok && mTri[m] == val && old(valid) && val == YES && tri != YES ==>
        (Consistent() <==> SettingKeeps(g, old(u)))
      ensures old(Consistent()) && (!ok || val != YES || mTri[m] != val || old(mValid[m])) ==> Consistent()
      ensures old(InStep()) && (!ok || val != YES || mTri[m] != val || old(mValid[m])) ==> InStep()
      ensures ok && old(Consistent()) && old(mValid[m]) ==>
        MemberValue(g, u, m) == val && ChoiceValue(g, u) == ChoiceValue(g, old(u))
    {
      var oldval := mTri[m];
      if oldval != val && !WithinRange(g, m, mVisible[m], val) {
        return false;
      }
      ghost var u0 := u;
      SetFacts(u0, m, val);
      Store(m, val);
      if oldval != val {
        ClearAllValid();
      } else {
        StillSound(u0, m);
      }
      return true;
    }

    /** Its assignments to def[S_DEF_USER] and SYMBOL_DEF_USER; y also settles the choice and its visible members. */
    method Store(m: nat, val: Tristate)
      requires Valid() && m < |g.cond|
      modifies this`u
      ensures Valid() && u == SetMember(g, old(u), mVisible, m, val)
    {
      ghost var u0 := u;
      var has := u.mHas[m := true];
      if val == YES {
        u := u.(has := true, pick := Some(m));
        var k := 0;
        while k < |g.cond|
          invariant 0 <= k <= |g.cond| == |has|
          invariant forall i | 0 <= i < |has| :: has[i] == (i == m || u0.mHas[i] || (i < k && mVisible[i] != NO))
        {
          if mVisible[k] != NO {
            has := has[k := true];
          }
          k := k + 1;
        }
      }
      u := u.(mHas := has, mTri := u.mTri[m := val]);
      assert u == SetMember(g, u0, mVisible, m, val);
    }

    /** What setting a member means for the definition of the values. */
    lemma {:induction false} SetFacts(u0: User, m: nat, val: Tristate)
      requires Sound() && u0 == u && m < |g.cond| && (mTri[m] == val || WithinRange(g, m, mVisible[m], val))
      ensures var u' := SetMember(g, u0, mVisible, m, val);
        && UserOk(g, u')
        && (val != YES ==> SameChoice(g, u0, u'))
        && (val == YES && ChoiceValue(g, u0) == YES ==>
            (SameChoice(g, u0, u') <==>
              Chosen(g, u0) == Some(m) || (!Shown(g, m) && Chosen(g, u0) == Pick(g, u0.(pick := None)))))
        && (val == YES && ChoiceValue(g, u0) != YES ==> (SameChoice(g, u0, u') <==> SettingKeeps(g, u0)))
        && (Consistent() && mValid[m] ==> MemberValue(g, u', m) == val && ChoiceValue(g, u') == ChoiceValue(g, u0))
        && (valid && mValid[m] && mTri[m] == val && val == YES ==> tri == YES && chosen == Some(m))
    {
      if val == YES {
        if ChoiceValue(g, u0) == YES {
          StalePickExactly(g, u0, mVisible, m);
        } else {
          StaleYesOutside(g, u0, mVisible, m);
        }
      } else {
        OtherValueKeepsChoice(g, u0, mVisible, m, val);
      }
      if Consistent() && mValid[m] {
        SetMemberWorks(g, u0, mVisible, m, val);
      }
    }

    /** Cached members stay right when a member is set to the value it has in the cache. */
    lemma {:induction false} StillSound(u0: User, m: nat)
      requires Valid() && UserOk(g, u0) && m < |g.cond| && u == SetMember(g, u0, mVisible, m, mTri[m])
      requires valid ==> tri == ChoiceValue(g, seen) && chosen == Chosen(g, seen)
      requires forall k | 0 <= k < |g.cond| :: mValid[k] ==>
        valid && mVisible[k] == g.Vis(tri, k) && mTri[k] == MemberFrom(g, tri, chosen, u0, k)
      ensures Sound()
    {
      forall k | 0 <= k < |g.cond| && mValid[k] ensures mTri[k] == MemberFrom(g, tri, chosen, u, k) {
        if k != m {
          OthersUnchanged(g, tri, chosen, u0, mVisible, m, mTri[m], k);
        }
      }
    }

    /** sym_set_tristate_value of the choice itself. */
    method SetChoice(val: Tristate) returns (ok: bool)
      requires Sound()
      modifies this`u, this`valid, this`mValid
      ensures Sound() && u == if ok then old(u).(has := true, tri := val) else old(u)
      ensures ok <==> tri == val || ChoiceRange(g, visible, selected, val)
      ensures ok && tri != val ==> !valid
      ensures old(Consistent()) && ok && tri == val && old(valid) ==>
        (Consistent() <==> BaseValue(g, old(u)) == val || g.Promote(g.triChoice, g.selected) != MOD)
      ensures old(InStep()) ==> InStep()
      ensures
        (ok && tri != val &&
         visible == g.Promote(g.triChoice, g.prompt) && selected == g.Promote(g.triChoice, g.selected)) ==>
        BaseValue(g, u) == val
      ensures !ok ==> valid == old(valid) && mValid == old(mValid)
    {
      if tri != val && !ChoiceRange(g, visible, selected, val) {
        return false;
      }
      var changed := tri != val;
      ghost var u0 := u;
      u := u.(has := true, tri := val);
      if changed {
        ClearAllValid();
      } else {
        RestatedFacts(u0, val);
      }
      return true;
    }

    lemma {:induction false} RestatedFacts(u0: User, val: Tristate)
      requires Valid() && UserOk(g, u0) && u == u0.(has := true, tri := val) && tri == val
      ensures valid && tri == ChoiceValue(g, u0) ==>
        (SameChoice(g, u0, u) <==> BaseValue(g, u0) == val || g.Promote(g.triChoice, g.selected) != MOD)
      ensures valid && tri == YES && tri == ChoiceValue(g, u0) ==> SameChoice(g, u0, u)
    {
      if tri == ChoiceValue(g, u0) {
        RestatedChoice(g, u0);
      }
    }

    /**
     * Recalculation in any order, from any state that earlier calls can have left: if the choice is y,
     * exactly its chosen member is y as long as that is wholly visible, and otherwise no member is y.  The
     * chosen member is the pick by the user values as they are, unless a call was made on a stale value.
     */
    method Recalculate(order: seq<nat>)
      requires Sound()
      requires forall k | 0 <= k < |order| :: order[k] < |g.cond|
      requires forall m | 0 <= m < |g.cond| :: m in order
      modifies this`valid, this`visible, this`selected, this`tri, this`chosen, this`mValid, this`mVisible, this`mTri,
        this`seen
      ensures Sound() && valid && forall m | 0 <= m < |g.cond| :: mValid[m]
      ensures seen == (if old(valid) then old(seen) else u) && (old(valid) ==> tri == old(tri) && chosen == old(chosen))
      ensures forall m | 0 <= m < |g.cond| ::
        mTri[m] == YES <==> tri == YES && chosen == Some(m) && g.Vis(YES, m) == YES
      ensures old(Consistent()) ==> Consistent() && tri == ChoiceValue(g, u)
      ensures old(InStep()) && tri == YES ==> ChoiceValue(g, u) == YES && chosen == Pick(g, u)
    {
      var k := 0;
      CalcValue();
      while k < |order|
        invariant 0 <= k <= |order| && Sound() && valid
        invariant seen == (if old(valid) then old(seen) else u)
        invariant old(valid) ==> tri == old(tri) && chosen == old(chosen)
        invariant forall j | 0 <= j < k :: mValid[order[j]]
      {
        CalcMember(order[k]);
        k := k + 1;
      }
      forall m | 0 <= m < |g.cond| ensures mValid[m] {
        assert m in order;
        var j :| 0 <= j < |order| && order[j] == m;
      }
    }
  }

  // ----- whole sequences of calls --------------------------------------------------------

  /** A call of sym_set_tristate_value on a member, on the choice, or on symbols outside. */
  datatype Call = OnMember(m: nat, val: Tristate) | OnChoice(val: Tristate) | Outside(g: Setup)

  predicate CallOk(n: nat, c: Call) {
    match c
    case OnMember(m, _) => m < n
    case OnChoice(_) => true
    case Outside(g) => g.Ok() && |g.cond| == n
  }

  /** The member that was last set to y by an accepted call. */
  function LastPick(first: Option<nat>, calls: seq<Call>, oks: seq<bool>): Option<nat>
    requires |calls| == |oks|
  {
    if calls == [] then first
    else
      var n := |calls| - 1;
      if oks[n] && calls[n].OnMember? && calls[n].val == YES then Some(calls[n].m)
      else LastPick(first, calls[..n], oks[..n])
  }

  /**
   * Any sequence of calls, each made on a symbol that was calculated before, and a recalculation in any
   * order: if the choice is y, the member that is y is the last one that was set to y if it is shown, else
   * the first shown default, else the first member that is shown (provided it is wholly visible).
   */
  method RunThenRecalculate(c: Choice, calls: seq<Call>, order: seq<nat>) returns (oks: seq<bool>)
    requires c.InStep() && forall k | 0 <= k < |calls| :: CallOk(|c.g.cond|, calls[k])
    requires forall k | 0 <= k < |order| :: order[k] < |c.g.cond|
    requires forall m | 0 <= m < |c.g.cond| :: m in order
    modifies c
    ensures |oks| == |calls| && c.InStep() && c.u.pick == LastPick(old(c.u.pick), calls, oks)
    ensures c.tri == YES ==> ChoiceValue(c.g, c.u) == YES && Pick(c.g, c.u).Some?
    ensures forall m | 0 <= m < |c.g.cond| ::
      c.mTri[m] == YES <==> c.tri == YES && Pick(c.g, c.u) == Some(m) && c.g.Vis(YES, m) == YES
  {
    oks := [];
    var k := 0;
    while k < |calls|
      invariant 0 <= k <= |calls| && |oks| == k && c.InStep() && |c.g.cond| == old(|c.g.cond|)
      invariant c.u.pick == LastPick(old(c.u.pick), calls[..k], oks)
    {
      var ok := Perform(c, calls[k]);
      assert calls[..k + 1][..k] == calls[..k] && (oks + [ok])[..k] == oks;
      oks := oks + [ok];
      k := k + 1;
    }
    assert calls[..k] == calls;
    c.Recalculate(order);
  }

  /** One call, after sym_calc_value of its symbol. */
  method Perform(c: Choice, call: Call) returns (ok: bool)
    requires c.InStep() && CallOk(|c.g.cond|, call)
    modifies c
    ensures c.InStep() && |c.g.cond| == old(|c.g.cond|)
    ensures c.u.pick == if ok && call.OnMember? && call.val == YES then Some(call.m) else old(c.u.pick)
  {
    match call
    case OnMember(m, val) =>
      c.CalcMember(m);
      ok := c.SetTristate(m, val);
    case OnChoice(val) =>
      c.CalcValue();
      ok := c.SetChoice(val);
    case Outside(g) =>
      c.ChangeOutside(g);
      ok := true;
  }

  /** Two boolean members that are wholly visible, in a choice that is y. */
  function TwoMembers(): Setup { Setup(false, [false, false], [], [YES, YES], [], YES, NO, YES) }

  /**
   * A call on a stale value: member 1 is set to y and calculated, but member 0 still has the y from
   * before in its cache, so setting it to y is accepted and clears nothing.  Recalculation leaves member 1
   * y and member 0 n, although member 0 is wholly visible and was set to y last.
   */
  method StalePickIsLost() returns (c: Choice)
    ensures fresh(c) && c.Sound() && |c.mTri| == 2
    ensures c.u.pick == Some(0) && Shown(c.g, 0) && c.tri == YES && c.mTri == [NO, YES]
  {
    c := StaleYes();
    var ok := c.SetTristate(0, YES);
    assert ok && c.valid;
    c.Recalculate([0, 1]);
    TwoMembersAreShown();
    assert c.mTri[0] == NO;
    assert c.mTri[1] == YES;
  }

  lemma {:induction false} TwoMembersAreShown()
    ensures var g := TwoMembers(); g.Ok() && |g.cond| == 2 && g.Vis(YES, 0) == YES && g.Vis(YES, 1) == YES
    ensures FirstDefault(TwoMembers(), 0) == 0 && FirstShown(TwoMembers(), 0) == 0
  {
    assert Shown(TwoMembers(), 0);
  }

  /** The choice and member 1 are calculated, member 0 is not. */
  method StaleYes() returns (c: Choice)
    ensures fresh(c) && c.Sound() && c.g == TwoMembers() && c.g.Ok() && |c.mTri| == |c.mValid| == 2
    ensures c.mTri[0] == YES && !c.mValid[0] && c.valid && c.tri == YES && c.chosen == Some(1)
  {
    TwoMembersAreShown();
    c := new Choice(TwoMembers(), User(true, YES, None, [false, false], [NO, NO]));
    c.Recalculate([0, 1]);
    assert c.chosen == Some(0);
    var ok := c.SetTristate(1, YES);
    assert ok && !c.valid && c.mTri[0] == YES;
    c.CalcValue();
    assert c.chosen == Some(1);
    c.CalcMember(1);
  }
}
