/** Which entries menu_finalize has already combined with their parent's condition. */
module MenuInheritance {
  import opened Options
  import opened Exprs
  import opened MenuLinks
  import opened MenuDeps

  /** Everything below the top level. */
  function Below(f: Forest): set<Id> { if f.Nil? then {} else Ids(f.kids) + Below(f.rest) }

  function TopSet(f: Forest): set<Id> { if f.Nil? then {} else {f.id} + TopSet(f.rest) }

  /**
   * A sibling list before its entries are finalised: the entries themselves have their condition (the
   * root needs none), nothing below them has, and the list is one of `l0`, to its end.
   */
  ghost predicate Ready(l0: Links, root: Id, keys: set<Id>, f: Forest) {
    Seg(l0, f, None) && KidsParents(l0, f) && TopSet(f) <= keys + {root} && Below(f) !! keys && root !in Below(f)
  }

  /** From `f` to what is left of it: `keys'` has gained exactly what is no longer below. */
  ghost predicate Progress(keys: set<Id>, f: Forest, keys': set<Id>, rest: Forest) {
    keys' + Below(rest) == keys + Below(f) && Below(rest) !! keys'
  }

  lemma {:induction false} TopsAndBelow(f: Forest)
    ensures Ids(f) == TopSet(f) + Below(f)
    ensures Distinct(f) ==> TopSet(f) !! Below(f)
  {
    if f.Cons? {
      TopsAndBelow(f.rest);
    }
  }

  lemma {:induction false} TopsAreTopSet(f: Forest)
    ensures forall i :: i in Tops(f) <==> i in TopSet(f)
  {
    if f.Cons? {
      TopsAreTopSet(f.rest);
    }
  }

  lemma {:induction false} ReadySuffix(l0: Links, root: Id, keys: set<Id>, f: Forest, rest: Forest, keys': set<Id>)
    requires Ready(l0, root, keys, f) && IsSuffix(rest, f) && Progress(keys, f, keys', rest)
    ensures Ready(l0, root, keys', rest)
  {
    SuffixBelow(l0, f, rest);
    assert keys <= keys' by {
      assert keys <= keys' + Below(rest);
      assert Below(rest) <= Below(f);
    }
  }

  lemma {:induction false} SuffixBelow(l0: Links, f: Forest, rest: Forest)
    requires IsSuffix(rest, f) && Seg(l0, f, None) && KidsParents(l0, f)
    ensures Seg(l0, rest, None) && KidsParents(l0, rest) && TopSet(rest) <= TopSet(f) && Below(rest) <= Below(f)
  {
    if rest != f {
      SuffixBelow(l0, f.rest, rest);
    }
  }

  lemma {:induction false} ProgressTrans(k0: set<Id>, f: Forest, k1: set<Id>, r1: Forest, k2: set<Id>, r2: Forest)
    requires Progress(k0, f, k1, r1) && Progress(k1, r1, k2, r2)
    ensures Progress(k0, f, k2, r2)
  {}

  /** The children of `p` once its condition has been spread over them. */
  lemma {:induction false} SpreadReady(l0: Links, root: Id, keys: set<Id>, p: Id, kids: Forest, sibs: Forest)
    requires Ready(l0, root, keys, Cons(p, kids, sibs)) && Distinct(Cons(p, kids, sibs))
    ensures Ready(l0, root, keys + TopSet(kids), kids)
    ensures Parents(l0, kids, p) && p in keys + {root} && Ids(kids) !! keys && root !in Ids(kids)
  {
    TopsAndBelow(kids);
    ParentsGiveKids(l0, kids, p);
  }

  /** The whole list of `p` is done, its siblings are as they were. */
  lemma {:induction false} SpreadProgress(l0: Links, root: Id, keys: set<Id>, p: Id, kids: Forest, sibs: Forest,
      keys': set<Id>)
    requires Ready(l0, root, keys, Cons(p, kids, sibs)) && Distinct(Cons(p, kids, sibs))
    requires Progress(keys + TopSet(kids), kids, keys', Nil)
    ensures Progress(keys, Cons(p, kids, sibs), keys', sibs)
  {
    TopsAndBelow(kids);
    TopsAndBelow(sibs);
    assert Below(Nil) == {};
    assert keys' == keys + Ids(kids);
  }

  /** An entry without children has nothing below it. */
  lemma {:induction false} LeafProgress(l0: Links, root: Id, keys: set<Id>, p: Id, sibs: Forest)
    requires Ready(l0, root, keys, Cons(p, Nil, sibs))
    ensures Ready(l0, root, keys, sibs) && Progress(keys, Cons(p, Nil, sibs), keys, sibs)
    ensures Progress(keys, sibs, keys, sibs)
    ensures Below(Cons(p, Nil, sibs)) == Below(sibs)
  {
    assert Ids(Nil) == {};
  }

  lemma {:induction false} RootReady(l0: Links, root: Id, kids: Forest)
    requires Ordered(l0, One(root, kids))
    ensures Ready(l0, root, {}, Cons(root, kids, Nil))
  {
    assert Below(Nil) == {} && TopSet(Nil) == {};
  }

  lemma {:induction false} RootGained(root: Id, kids: Forest, keys: set<Id>)
    requires Progress({}, Cons(root, kids, Nil), keys, Nil)
    ensures keys == Ids(kids)
  {
    assert Below(Nil) == {};
  }

  // ----- every entry's final condition -----------------------------------------------

  /** The index of an entry's prompt among its properties, if menu->prompt is not NULL. */
  type Prompts = map<Id, nat>

  predicate Prompted(prompts: Prompts, p: PropTable, i: Id) { i in prompts && prompts[i] < |PropsOf(p, i)| }

  /** menu->prompt ? menu->prompt->visible.expr : menu->dep */
  function Condition(prompts: Prompts, d: Deps, p: PropTable, i: Id): Option<Expr> {
    if Prompted(prompts, p, i) then PropsOf(p, i)[prompts[i]].visible else DepOf(d, i)
  }

  /** parent->prompt ? parent->prompt->visible.expr : NULL */
  function PromptCondition(prompts: Prompts, p: PropTable, i: Id): Option<Expr> {
    if Prompted(prompts, p, i) then PropsOf(p, i)[prompts[i]].visible else None
  }

  /** How things were before menu_finalize. */
  datatype Before = Before(links: Links, root: Id, deps: Deps, props: PropTable)

  /** The entry was combined with `cond`, and that is what its parent's condition is now. */
  ghost predicate Inherits(b: Before, sym: map<Id, Symbol>, prompts: Prompts, keys: set<Id>, c: Id,
      cond: Option<Expr>, d: Deps, p: PropTable)
  {
    && c != b.root && b.links.Parent(c).Some?
    && (b.links.Parent(c).value in keys || b.links.Parent(c).value == b.root)
    && cond == Condition(prompts, d, p, b.links.Parent(c).value)
    && Propagated(cond, NotTri(sym, c), c, b.deps, b.props, d, p)
  }

  /** Every entry in `inh` inherits what is recorded for it; all others are as they were. */
  ghost predicate AllInherit(b: Before, sym: map<Id, Symbol>, prompts: Prompts, inh: map<Id, Option<Expr>>, d: Deps,
      p: PropTable)
  {
    && (forall c | c in inh :: Inherits(b, sym, prompts, inh.Keys, c, inh[c], d, p))
    && (forall c | c !in inh :: DepOf(d, c) == DepOf(b.deps, c) && PropsOf(p, c) == PropsOf(b.props, c))
  }

  /** The condition of `p` was spread over its list. */
  function Inheriting(inh: map<Id, Option<Expr>>, f: Forest, cond: Option<Expr>): map<Id, Option<Expr>> {
    inh + map c | c in TopSet(f) :: cond
  }

  lemma {:induction false} InheritingKeys(inh: map<Id, Option<Expr>>, f: Forest, cond: Option<Expr>)
    ensures Inheriting(inh, f, cond).Keys == inh.Keys + TopSet(f)
  {}

  lemma {:induction false} ParentsOfTops(l: Links, f: Forest, p: Id)
    requires Parents(l, f, p)
    ensures forall c | c in TopSet(f) :: l.Parent(c) == Some(p)
  {
    if f.Cons? {
      ParentsOfTops(l, f.rest, p);
    }
  }

  lemma {:induction false} RecordSpread(b: Before, sym: map<Id, Symbol>, prompts: Prompts, inh: map<Id, Option<Expr>>,
      parent: Id, kids: Forest,
      d1: Deps, p1: PropTable, d2: Deps, p2: PropTable)
    requires AllInherit(b, sym, prompts, inh, d1, p1) && (parent in inh || parent == b.root)
    requires Parents(b.links, kids, parent) && Ids(kids) !! inh.Keys && b.root !in Ids(kids) && parent !in Ids(kids)
    requires Spread(Condition(prompts, d1, p1, parent), sym, Tops(kids), |Tops(kids)|, d1, p1, d2, p2)
    ensures AllInherit(b, sym, prompts, Inheriting(inh, kids, Condition(prompts, d1, p1, parent)), d2, p2)
  {
    var cond := Condition(prompts, d1, p1, parent);
    var inh' := Inheriting(inh, kids, cond);
    TopsAndBelow(kids);
    TopsAreTopSet(kids);
    ParentsOfTops(b.links, kids, parent);
    assert Tops(kids)[..|Tops(kids)|] == Tops(kids);
    forall c | c in inh' ensures Inherits(b, sym, prompts, inh'.Keys, c, inh'[c], d2, p2) {
      if c in TopSet(kids) {
        var j :| 0 <= j < |Tops(kids)| && Tops(kids)[j] == c;
        assert Propagated(cond, NotTri(sym, c), c, d1, p1, d2, p2);
        NewlyInherits(b, sym, prompts, inh.Keys, inh'.Keys, c, parent, d1, p1, d2, p2);
      } else {
        assert Inherits(b, sym, prompts, inh.Keys, c, inh[c], d1, p1);
        StillInherits(b, sym, prompts, inh.Keys, inh'.Keys, c, inh[c], d1, p1, d2, p2);
      }
    }
  }

  lemma {:induction false} NewlyInherits(b: Before, sym: map<Id, Symbol>, prompts: Prompts, keys: set<Id>,
      keys': set<Id>, c: Id, parent: Id,
      d1: Deps, p1: PropTable, d2: Deps, p2: PropTable)
    requires c != b.root && b.links.Parent(c) == Some(parent) && (parent in keys || parent == b.root) && keys <= keys'
    requires DepOf(d1, c) == DepOf(b.deps, c) && PropsOf(p1, c) == PropsOf(b.props, c)
    requires DepOf(d2, parent) == DepOf(d1, parent) && PropsOf(p2, parent) == PropsOf(p1, parent)
    requires Propagated(Condition(prompts, d1, p1, parent), NotTri(sym, c), c, d1, p1, d2, p2)
    ensures Inherits(b, sym, prompts, keys', c, Condition(prompts, d1, p1, parent), d2, p2)
  {
    SamePropagated(Condition(prompts, d1, p1, parent), NotTri(sym, c), c, d1, p1, b.deps, b.props, d2, p2);
  }

  lemma {:induction false} StillInherits(b: Before, sym: map<Id, Symbol>, prompts: Prompts, keys: set<Id>,
      keys': set<Id>, c: Id, cond: Option<Expr>,
      d1: Deps, p1: PropTable, d2: Deps, p2: PropTable)
    requires Inherits(b, sym, prompts, keys, c, cond, d1, p1) && keys <= keys'
    requires forall i | i in keys || i == b.root || i == c ::
      DepOf(d2, i) == DepOf(d1, i) && PropsOf(p2, i) == PropsOf(p1, i)
    ensures Inherits(b, sym, prompts, keys', c, cond, d2, p2)
  {
    SameResult(cond, NotTri(sym, c), c, b.deps, b.props, d1, p1, d2, p2);
  }
}
