/** What a choice and its members are worth, stated by the conditions and the user's values alone. */
module ChoiceLaws {
  import opened Options
  import opened Tristates
  import opened Exprs
  import opened Choices

  /** Only a tristate symbol in a configuration with modules can be m. */
  predicate ThreeValued(g: Setup, tristate: bool) { tristate && g.modules != NO }

  ghost predicate SomeMember(g: Setup)
    requires g.Ok()
  {
    exists m: nat :: m < |g.cond| && g.cond[m] != NO
  }

  /** In a choice that is y exactly the members whose own condition is not n are shown. */
  lemma {:induction false} ShownExactly(g: Setup, m: nat)
    requires g.Ok() && m < |g.cond|
    ensures Shown(g, m) <==> g.cond[m] != NO
  {}

  /** How a member's visibility follows from the choice's value and its own condition. */
  lemma {:induction false} MemberVisibility(g: Setup, c: Tristate, m: nat)
    requires g.Ok() && m < |g.cond|
    ensures !g.triMember[m] ==>
      g.Vis(c, m) == if g.cond[m] != NO && (if g.triChoice then c == YES else c != NO) then YES else NO
    ensures g.triMember[m] && g.modules == NO ==> g.Vis(c, m) == if g.cond[m] != NO && c != NO then YES else NO
    ensures g.triMember[m] && g.modules != NO ==>
      && (g.Vis(c, m) == NO <==> c == NO || g.cond[m] == NO)
      && (g.Vis(c, m) == YES <==> c == YES && g.cond[m] == YES)
  {}

  /** What the choice is worth as long as there is a member to pick: a two-valued one is never m. */
  lemma {:induction false} BaseExactly(g: Setup, u: User)
    ensures !ThreeValued(g, g.triChoice) ==>
      && (BaseValue(g, u) == YES <==> g.selected != NO || (g.prompt != NO && u.has && u.tri != NO))
      && BaseValue(g, u) != MOD
    ensures ThreeValued(g, g.triChoice) ==>
      && (BaseValue(g, u) == YES <==> g.selected == YES || (u.has && u.tri == YES && g.prompt == YES))
      && (BaseValue(g, u) == NO <==> g.selected == NO && (!u.has || u.tri == NO || g.prompt == NO))
  {}

  /** A two-valued choice is y if it is selected or wanted and visible, and some member can be picked. */
  lemma {:induction false} TwoValuedChoice(g: Setup, u: User)
    requires g.Ok() && UserOk(g, u) && !ThreeValued(g, g.triChoice)
    ensures ChoiceValue(g, u) == YES <==>
      (g.selected != NO || (g.prompt != NO && u.has && u.tri != NO)) && SomeMember(g)
    ensures ChoiceValue(g, u) != MOD
  {
    MembersLeft(g, u);
  }

  lemma {:induction false} MembersLeft(g: Setup, u: User)
    requires g.Ok() && UserOk(g, u)
    ensures Pick(g, u).Some? <==> SomeMember(g)
  {
    forall m: nat | m < |g.cond| ensures Shown(g, m) <==> g.cond[m] != NO {
      ShownExactly(g, m);
    }
  }

  /**
   * A tristate choice has at least the value it is selected with, at least what the user wants of it up to
   * its visibility, and no more than the larger of the two; but without a member to pick it is n instead of y.
   */
  lemma {:induction false} TristateChoice(g: Setup, u: User)
    requires g.Ok() && UserOk(g, u) && ThreeValued(g, g.triChoice)
    ensures ChoiceValue(g, u) == YES <==>
      (g.selected == YES || (u.has && u.tri == YES && g.prompt == YES)) && SomeMember(g)
    ensures ChoiceValue(g, u) == MOD <==>
      && !(g.selected == YES || (u.has && u.tri == YES && g.prompt == YES))
      && (g.selected == MOD || (u.has && u.tri != NO && g.prompt != NO))
  {
    MembersLeft(g, u);
  }

  /** A default of the choice counts when its condition is not n and its member can be shown. */
  ghost predicate Usable(g: Setup, i: int)
    requires g.Ok()
  {
    0 <= i < |g.defaults| && g.defCond[i] != NO && g.cond[g.defaults[i]] != NO
  }

  ghost predicate FirstUsable(g: Setup, p: nat)
    requires g.Ok()
  {
    exists i :: Usable(g, i) && g.defaults[i] == p && forall j | 0 <= j < i :: !Usable(g, j)
  }

  /** Without a usable default the first member that can be shown. */
  ghost predicate FirstMember(g: Setup, p: nat)
    requires g.Ok()
  {
    && p < |g.cond| && g.cond[p] != NO
    && (forall i :: !Usable(g, i))
    && forall m: nat | m < p :: g.cond[m] == NO
  }

  ghost predicate PickStands(g: Setup, u: User)
    requires g.Ok() && UserOk(g, u)
  {
    u.pick.Some? && g.cond[u.pick.value] != NO
  }

  /** The picked member: the user's if it can be shown, else the first usable default's, else the first. */
  lemma {:induction false} PickExactly(g: Setup, u: User, p: nat)
    requires g.Ok() && UserOk(g, u)
    ensures Pick(g, u) == Some(p) <==>
      if PickStands(g, u) then u.pick == Some(p) else FirstUsable(g, p) || FirstMember(g, p)
  {
    forall m: nat | m < |g.cond| ensures Shown(g, m) <==> g.cond[m] != NO {
      ShownExactly(g, m);
    }
    forall i | 0 <= i < |g.defaults| ensures DefaultShown(g, i) <==> Usable(g, i) {
      ShownExactly(g, g.defaults[i]);
    }
    if !PickStands(g, u) {
      var i := FirstDefault(g, 0);
      if i < |g.defaults| {
        assert Usable(g, i);
        assert FirstUsable(g, g.defaults[i]);
        OneFirst(g, i, p);
      } else {
        assert forall k :: !Usable(g, k);
      }
    }
  }

  lemma {:induction false} OneFirst(g: Setup, i: nat, p: nat)
    requires g.Ok() && Usable(g, i) && forall j | 0 <= j < i :: !Usable(g, j)
    ensures FirstUsable(g, p) || FirstMember(g, p) ==> g.defaults[i] == p
  {
    if FirstUsable(g, p) {
      var k :| Usable(g, k) && g.defaults[k] == p && forall j | 0 <= j < k :: !Usable(g, j);
      assert k == i;
    }
  }

  /**
   * A member's value: y exactly for the pick of a choice that is y, if the member's condition lets it be;
   * m exactly for a tristate member whose condition and choice allow m but not y, and that the user gave a value.
   */
  lemma {:induction false} MemberExactly(g: Setup, u: User, m: nat)
    requires g.Ok() && UserOk(g, u) && m < |g.cond|
    ensures MemberValue(g, u, m) == YES <==>
      && ChoiceValue(g, u) == YES && Pick(g, u) == Some(m)
      && (g.cond[m] == YES || !ThreeValued(g, g.triMember[m]))
    ensures MemberValue(g, u, m) == MOD <==>
      && ThreeValued(g, g.triMember[m]) && Min(ChoiceValue(g, u), g.cond[m]) == MOD && u.mTri[m] != NO
  {
    MemberIsYes(g, u, m);
    MemberVisibility(g, ChoiceValue(g, u), m);
    MembersLeft(g, u);
    if Pick(g, u) == Some(m) {
      ShownExactly(g, m);
    }
  }

  /** The user values after an accepted y: the choice and every visible member count as set by the user. */
  lemma {:induction false} YesSettlesAll(g: Setup, u: User, vis: seq<Tristate>, m: nat)
    requires g.Ok() && UserOk(g, u) && |vis| == |g.cond| && m < |g.cond|
    ensures var u' := SetMember(g, u, vis, m, YES);
      && u'.has && u'.pick == Some(m) && u'.tri == u.tri && u'.mHas[m] && u'.mTri[m] == YES
      && forall k | 0 <= k < |g.cond| && k != m ::
           u'.mTri[k] == u.mTri[k] && (u'.mHas[k] <==> u.mHas[k] || vis[k] != NO)
  {}

  /** A value is accepted exactly if storing it makes it the member's value and leaves the choice its value. */
  lemma {:induction false} AcceptedExactly(g: Setup, u: User, vis: seq<Tristate>, m: nat, val: Tristate)
    requires g.Ok() && UserOk(g, u) && |vis| == |g.cond| && m < |g.cond| && vis[m] == g.Vis(ChoiceValue(g, u), m)
    ensures var u' := SetMember(g, u, vis, m, val);
      UserOk(g, u') &&
      (MemberValue(g, u, m) == val || WithinRange(g, m, vis[m], val) <==>
        MemberValue(g, u', m) == val && ChoiceValue(g, u') == ChoiceValue(g, u))
  {
    var u' := SetMember(g, u, vis, m, val);
    if MemberValue(g, u, m) == val || WithinRange(g, m, vis[m], val) {
      SetMemberWorks(g, u, vis, m, val);
    } else {
      if val != YES {
        OtherValueKeepsChoice(g, u, vis, m, val);
      }
      MemberVisibility(g, ChoiceValue(g, u), m);
      MemberIsYes(g, u', m);
    }
  }

  /** The same for the choice: accepted is what it is worth already, or will be unless selection fixes it. */
  lemma {:induction false} ChoiceAcceptedExactly(g: Setup, u: User, val: Tristate)
    requires g.Ok() && UserOk(g, u)
    ensures var vis, sel := g.Promote(g.triChoice, g.prompt), g.Promote(g.triChoice, g.selected);
      ChoiceRange(g, vis, sel, val) <==> vis > sel && BaseValue(g, u.(has := true, tri := val)) == val
  {}
}
