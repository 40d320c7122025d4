/** struct menu's next, parent and list pointers, and the forests they spell out. */
module MenuLinks {
  import opened Options
  import opened Exprs

  /** A struct menu pointer that is not NULL. */
  type Id = nat

  /** The three link fields of all entries; absent means NULL. */
  datatype Links = Links(next: map<Id, Id>, parent: map<Id, Id>, list: map<Id, Id>)
  {
    function Next(i: Id): Option<Id> { if i in next then Some(next[i]) else None }

    function Parent(i: Id): Option<Id> { if i in parent then Some(parent[i]) else None }

    function List(i: Id): Option<Id> { if i in list then Some(list[i]) else None }

    function SetNext(i: Id, v: Option<Id>): (r: Links)
      ensures r.parent == parent && r.list == list && r.Next(i) == v && forall j | j != i :: r.Next(j) == Next(j)
    {
      this.(next := if v.Some? then next[i := v.value] else next - {i})
    }

    function SetParent(i: Id, v: Id): (r: Links)
      ensures r.next == next && r.list == list && r.Parent(i) == Some(v)
      ensures forall j | j != i :: r.Parent(j) == Parent(j)
    {
      this.(parent := parent[i := v])
    }

    function SetList(i: Id, v: Option<Id>): (r: Links)
      ensures r.next == next && r.parent == parent && r.List(i) == v && forall j | j != i :: r.List(j) == List(j)
    {
      this.(list := if v.Some? then list[i := v.value] else list - {i})
    }
  }

  /** A sibling list: the first entry, its children, and the siblings after it. */
  datatype Forest = Nil | Cons(id: Id, kids: Forest, rest: Forest)

  /** The entries in the order in which they were declared. */
  function Pre(f: Forest): seq<Id> {
    if f.Nil? then [] else [f.id] + Pre(f.kids) + Pre(f.rest)
  }

  function Ids(f: Forest): set<Id> {
    if f.Nil? then {} else {f.id} + Ids(f.kids) + Ids(f.rest)
  }

  function Count(f: Forest): nat {
    if f.Nil? then 0 else 1 + Count(f.kids) + Count(f.rest)
  }

  /** Every entry as often as it occurs. */
  function Bag(f: Forest): multiset<Id> {
    if f.Nil? then multiset{} else multiset{f.id} + Bag(f.kids) + Bag(f.rest)
  }

  function Append(f: Forest, g: Forest): Forest {
    if f.Nil? then g else Cons(f.id, f.kids, Append(f.rest, g))
  }

  function One(id: Id, kids: Forest): Forest { Cons(id, kids, Nil) }

  /** No entry occurs twice. */
  predicate Distinct(f: Forest) {
    f.Cons? ==>
      && f.id !in Ids(f.kids) && f.id !in Ids(f.rest) && Ids(f.kids) !! Ids(f.rest)
      && Distinct(f.kids) && Distinct(f.rest)
  }

  /** What is left of a sibling list after some entries. */
  predicate IsSuffix(s: Forest, f: Forest) { s == f || (f.Cons? && IsSuffix(s, f.rest)) }

  function First(f: Forest, end: Option<Id>): Option<Id> { if f.Nil? then end else Some(f.id) }

  /** The id of the last entry on the top level. */
  function Last(f: Forest): (i: Id)
    requires f.Cons?
    ensures i in Ids(f)
  {
    if f.rest.Nil? then f.id else Last(f.rest)
  }

  /** The sibling list that starts at First(f, end) is `f`, and its last next pointer is `end`. */
  predicate Seg(l: Links, f: Forest, end: Option<Id>) {
    f.Cons? ==>
      && l.List(f.id) == First(f.kids, None)
      && Seg(l, f.kids, None)
      && l.Next(f.id) == First(f.rest, end)
      && Seg(l, f.rest, end)
  }

  /** The parent pointers of a sibling list name `p`, and so on below. */
  predicate Parents(l: Links, f: Forest, p: Id) {
    f.Cons? ==> l.Parent(f.id) == Some(p) && Parents(l, f.kids, f.id) && Parents(l, f.rest, p)
  }

  /** Parents below the top level only. */
  predicate KidsParents(l: Links, f: Forest) {
    f.Cons? ==> Parents(l, f.kids, f.id) && KidsParents(l, f.rest)
  }

  /** The parent pointers of the top level are all `q`. */
  predicate Level(l: Links, f: Forest, q: Option<Id>) { f.Cons? ==> l.Parent(f.id) == q && Level(l, f.rest, q) }

  /** A sibling list in good order. */
  predicate Ordered(l: Links, f: Forest) { Seg(l, f, None) && Distinct(f) && KidsParents(l, f) }

  /** Entries outside `touched` have the links they had. */
  ghost predicate SameOutside(l: Links, l': Links, touched: set<Id>) {
    forall i: Id | i !in touched :: l.Next(i) == l'.Next(i) && l.Parent(i) == l'.Parent(i) && l.List(i) == l'.List(i)
  }

  /**
   * Mentioning this opens a folded predicate, one that is stated as `forall b :: Unfold(b) ==> ...`.
   * Large facts that a proof only passes on are kept folded.
   */
  predicate Unfold(b: bool) { true }

  lemma {:induction false} PreAppend(f: Forest, g: Forest)
    ensures Pre(Append(f, g)) == Pre(f) + Pre(g)
    ensures Ids(Append(f, g)) == Ids(f) + Ids(g)
    ensures First(Append(f, g), None) == First(f, First(g, None))
  {
    if f.Cons? {
      PreAppend(f.rest, g);
    }
  }

  lemma {:induction false} BagAppend(f: Forest, g: Forest)
    ensures Bag(Append(f, g)) == Bag(f) + Bag(g)
  {
    if f.Cons? {
      BagAppend(f.rest, g);
    }
  }

  lemma {:induction false} IdsArePre(f: Forest)
    ensures Count(f) == |Pre(f)| && Bag(f) == multiset(Pre(f))
    ensures forall i :: i in Ids(f) <==> i in Pre(f)
  {
    if f.Cons? {
      IdsArePre(f.kids);
      IdsArePre(f.rest);
    }
  }

  /** The same declaration order means the same entries. */
  lemma {:induction false} SamePre(f: Forest, g: Forest)
    requires Pre(f) == Pre(g)
    ensures Ids(f) == Ids(g) && Count(f) == Count(g) && Bag(f) == Bag(g)
  {
    IdsArePre(f);
    IdsArePre(g);
  }

  lemma {:induction false} SuffixTrans(s: Forest, m: Forest, f: Forest)
    requires IsSuffix(s, m) && IsSuffix(m, f)
    ensures IsSuffix(s, f)
  {
    if m != f {
      SuffixTrans(s, m, f.rest);
    }
  }

  lemma {:induction false} SuffixParents(l: Links, s: Forest, f: Forest, p: Id)
    requires IsSuffix(s, f) && Parents(l, f, p)
    ensures Parents(l, s, p)
  {
    if s != f {
      SuffixParents(l, s, f.rest, p);
    }
  }

  lemma {:induction false} ParentsAreLevel(l: Links, f: Forest, p: Id)
    requires Parents(l, f, p)
    ensures Level(l, f, Some(p))
  {
    if f.Cons? {
      ParentsAreLevel(l, f.rest, p);
    }
  }

  lemma {:induction false} SuffixLevel(l: Links, l': Links, s: Forest, f: Forest, q: Option<Id>)
    requires IsSuffix(s, f) && Level(l, f, q) && forall i | i in Ids(s) :: l.Parent(i) == l'.Parent(i)
    ensures Level(l', s, q)
  {
    if s != f {
      SuffixLevel(l, l', s, f.rest, q);
    } else if f.Cons? {
      SuffixLevel(l, l', f.rest, f.rest, q);
    }
  }

  lemma {:induction false} SegFrame(l: Links, l': Links, f: Forest, end: Option<Id>)
    requires Seg(l, f, end)
    requires forall i | i in Ids(f) :: l.Next(i) == l'.Next(i) && l.List(i) == l'.List(i)
    ensures Seg(l', f, end)
  {
    if f.Cons? {
      SegFrame(l, l', f.kids, None);
      SegFrame(l, l', f.rest, end);
    }
  }

  lemma {:induction false} ParentsFrame(l: Links, l': Links, f: Forest, p: Id)
    requires Parents(l, f, p) && forall i | i in Ids(f) :: l.Parent(i) == l'.Parent(i)
    ensures Parents(l', f, p)
  {
    if f.Cons? {
      ParentsFrame(l, l', f.kids, f.id);
      ParentsFrame(l, l', f.rest, p);
    }
  }

  lemma {:induction false} KidsParentsFrame(l: Links, l': Links, f: Forest)
    requires KidsParents(l, f) && forall i | i in Ids(f) :: l.Parent(i) == l'.Parent(i)
    ensures KidsParents(l', f)
  {
    if f.Cons? {
      ParentsFrame(l, l', f.kids, f.id);
      KidsParentsFrame(l, l', f.rest);
    }
  }

  lemma {:induction false} SegJoin(l: Links, f: Forest, g: Forest, end: Option<Id>)
    requires Seg(l, f, First(g, end)) && Seg(l, g, end)
    ensures Seg(l, Append(f, g), end)
  {
    if f.Cons? {
      SegJoin(l, f.rest, g, end);
    }
  }

  lemma {:induction false} FirstAppend(f: Forest, g: Forest, end: Option<Id>)
    ensures First(Append(f, g), end) == First(f, First(g, end))
  {}

  lemma {:induction false} ParentsJoin(l: Links, f: Forest, g: Forest, p: Id)
    requires Parents(l, f, p) && Parents(l, g, p)
    ensures Parents(l, Append(f, g), p)
  {
    if f.Cons? {
      ParentsJoin(l, f.rest, g, p);
    }
  }

  lemma {:induction false} DistinctJoin(f: Forest, g: Forest)
    requires Distinct(f) && Distinct(g) && Ids(f) !! Ids(g)
    ensures Distinct(Append(f, g))
  {
    if f.Cons? {
      PreAppend(f.rest, g);
      DistinctJoin(f.rest, g);
    }
  }

  lemma {:induction false} ParentsGiveKids(l: Links, f: Forest, p: Id)
    requires Parents(l, f, p)
    ensures KidsParents(l, f)
  {
    if f.Cons? {
      ParentsGiveKids(l, f.rest, p);
    }
  }

  lemma {:induction false} LastNext(l: Links, f: Forest, end: Option<Id>)
    requires f.Cons? && Seg(l, f, end)
    ensures l.Next(Last(f)) == end
  {
    if f.rest.Cons? {
      LastNext(l, f.rest, end);
    }
  }

  lemma {:induction false} LastAppend(f: Forest, g: Forest)
    requires g.Cons?
    ensures Append(f, g).Cons? && Last(Append(f, g)) == Last(g)
  {
    if f.Cons? {
      LastAppend(f.rest, g);
    }
  }

  /** Redirecting the last next pointer of a sibling list. */
  lemma {:induction false} Redirect(l: Links, f: Forest, end: Option<Id>, end': Option<Id>)
    requires f.Cons? && Seg(l, f, end) && Distinct(f)
    ensures Seg(l.SetNext(Last(f), end'), f, end')
  {
    var l' := l.SetNext(Last(f), end');
    SegFrame(l, l', f.kids, None);
    if f.rest.Cons? {
      Redirect(l, f.rest, end, end');
    }
  }
}
