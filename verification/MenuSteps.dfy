/** The steps of menu_finalize on sibling lists: what moving one entry does to the links. */
module MenuSteps {
  import opened Options
  import opened MenuLinks

  /** A sibling list in the middle of a loop: `done` is behind, `todo` ahead. */
  ghost predicate InProgress(l: Links, done: Forest, todo: Forest, p: Id) {
    && Seg(l, done, First(todo, None)) && Parents(l, done, p) && Distinct(done)
    && Ordered(l, todo) && Ids(done) !! Ids(todo)
  }

  /** The list `all`, in declaration order, is `done` followed by `todo`. */
  ghost predicate Partition(all: Forest, done: Forest, todo: Forest) {
    && Pre(done) + Pre(todo) == Pre(all) && Ids(done) + Ids(todo) == Ids(all)
    && First(done, First(todo, None)) == First(all, None)
  }

  lemma {:induction false} StepPartition(all: Forest, done: Forest, todo: Forest, k: Forest, r: Forest)
    requires Partition(all, done, todo)
    requires todo.Cons? && Pre(Cons(todo.id, k, r)) == Pre(todo) && Distinct(Cons(todo.id, k, r))
    requires Distinct(done) && Ids(done) !! Ids(todo)
    ensures var done' := Append(done, One(todo.id, k));
      && Partition(all, done', r) && Count(r) < Count(todo)
      && Bag(done') == Bag(done) + (multiset{todo.id} + Bag(k)) && Last(done') == todo.id
  {
    FinalizedOrder(done, todo, k, r);
    FinalizedEntries(done, todo, k, r);
    BagOne(done, todo.id, k);
  }

  /** Which entries a step may have touched. */
  lemma {:induction false} StepTouched(all: Forest, done: Forest, todo: Forest, k: Forest, r: Forest, l0: Links,
      l1: Links, l2: Links)
    requires Partition(all, done, todo)
    requires todo.Cons? && Pre(Cons(todo.id, k, r)) == Pre(todo) && Distinct(Cons(todo.id, k, r))
    requires SameOutside(l1, l2, {todo.id} + Ids(k))
    ensures SameOutside(l0, l1, Ids(all)) ==> SameOutside(l0, l2, Ids(all))
    ensures SameOutside(l0, l1, Ids(done)) ==> SameOutside(l0, l2, Ids(Append(done, One(todo.id, k))))
  {
    FinalizedIds(todo, k, r);
    IdsOfAppend(done, One(todo.id, k));
    var a := {todo.id} + Ids(k);
    TouchedUnion(l0, l1, l2, Ids(all), a);
    TouchedUnion(l0, l1, l2, Ids(done), a);
    assert Ids(all) + a == Ids(all);
  }

  lemma {:induction false} TouchedUnion(l0: Links, l1: Links, l2: Links, a: set<Id>, b: set<Id>)
    requires SameOutside(l1, l2, b)
    ensures SameOutside(l0, l1, a) ==> SameOutside(l0, l2, a + b)
  {}

  lemma {:induction false} TouchedTwice(l0: Links, l1: Links, l2: Links, p: Id, k: Forest, k': Forest)
    requires SameOutside(l0, l1, {p} + Ids(k)) && SameOutside(l1, l2, {p} + Ids(k')) && Ids(k) == Ids(k')
    ensures SameOutside(l0, l2, {p} + Ids(k'))
  {}

  lemma {:induction false} StepLinks(l0: Links, l1: Links, done: Forest, todo: Forest, k: Forest, r: Forest, p: Id)
    requires InProgress(l0, done, todo, p) && Finalized(l0, l1, todo, k, r) && Parents(l0, todo, p)
    requires l1.Parent(todo.id) == l0.Parent(todo.id)
    ensures InProgress(l1, Append(done, One(todo.id, k)), r, p) && Parents(l1, r, p)
    ensures l1.Next(todo.id) == First(r, None)
  {
    FinalizedLinks(l0, l1, done, todo, k, r, p);
    FinalizedParents(l0, l1, done, todo, k, r, p);
    FinalizedEntries(done, todo, k, r);
  }

  /** What menu_finalize on the first entry of `todo` leaves: its children `k` and the siblings `r`. */
  ghost predicate Finalized(l0: Links, l1: Links, todo: Forest, k: Forest, r: Forest) {
    && todo.Cons?
    && Ordered(l1, Cons(todo.id, k, r)) && Pre(Cons(todo.id, k, r)) == Pre(todo)
    && IsSuffix(r, todo.rest)
    && SameOutside(l0, l1, {todo.id} + Ids(k))
  }

  /** The same, kept folded, with the entry's own parent pointer as it was. */
  ghost predicate Reshaped(l0: Links, l1: Links, todo: Forest, k: Forest, r: Forest) {
    forall b :: Unfold(b) ==> Finalized(l0, l1, todo, k, r) && l1.Parent(todo.id) == l0.Parent(todo.id)
  }

  lemma {:induction false} ReshapedMeans(l0: Links, l1: Links, todo: Forest, k: Forest, r: Forest)
    requires Reshaped(l0, l1, todo, k, r)
    ensures Finalized(l0, l1, todo, k, r) && l1.Parent(todo.id) == l0.Parent(todo.id)
  {
    assert Unfold(true);
  }

  lemma {:induction false} ReshapedTwice(l0: Links, l1: Links, l2: Links, p: Id, kids: Forest, sibs: Forest,
      k: Forest, r: Forest, k': Forest)
    requires Reshaped(l0, l1, Cons(p, kids, sibs), k, r) && Reshaped(l1, l2, Cons(p, k, r), k', r) && Ids(k) == Ids(k')
    ensures Reshaped(l0, l2, Cons(p, kids, sibs), k', r)
  {
    ReshapedMeans(l0, l1, Cons(p, kids, sibs), k, r);
    ReshapedMeans(l1, l2, Cons(p, k, r), k', r);
    TouchedTwice(l0, l1, l2, p, k, k');
  }

  lemma {:induction false} ReshapedNothing(l: Links, p: Id, kids: Forest, sibs: Forest)
    requires Ordered(l, Cons(p, kids, sibs))
    ensures Reshaped(l, l, Cons(p, kids, sibs), kids, sibs)
  {}

  /** The declaration order while the first entry of `todo` moves over to `done`. */
  lemma {:induction false} FinalizedOrder(done: Forest, todo: Forest, k: Forest, r: Forest)
    requires todo.Cons? && Pre(Cons(todo.id, k, r)) == Pre(todo)
    ensures var done' := Append(done, One(todo.id, k));
      && Pre(done') == Pre(done) + Pre(One(todo.id, k))
      && Pre(done') + Pre(r) == Pre(done) + Pre(todo)
      && First(done', First(r, None)) == First(done, First(todo, None))
      && Last(done') == todo.id
  {
    PreOfAppend(done, One(todo.id, k));
    FirstAppend(done, One(todo.id, k), First(r, None));
    LastAppend(done, One(todo.id, k));
    OrderOfOne(todo.id, k, r);
    SeqAssoc(Pre(done), Pre(One(todo.id, k)), Pre(r));
  }

  lemma {:induction false} BagOne(f: Forest, id: Id, k: Forest)
    ensures Bag(Append(f, One(id, k))) == Bag(f) + (multiset{id} + Bag(k))
  {
    BagAppend(f, One(id, k));
    assert Bag(Nil) == multiset{};
  }

  lemma {:induction false} FinalizedOne(f0: multiset<Id>, f: Forest, id: Id, k: Forest)
    ensures f0 + Bag(Append(f, One(id, k))) == f0 + Bag(f) + (multiset{id} + Bag(k))
  {
    BagOne(f, id, k);
  }

  lemma {:induction false} FinalizedSelf(f0: multiset<Id>, id: Id, k: Forest, k': Forest)
    requires Bag(k') == Bag(k)
    ensures f0 + Bag(k) + multiset{id} == f0 + (multiset{id} + Bag(k'))
  {}

  lemma {:induction false} SeqAssoc(a: seq<Id>, b: seq<Id>, c: seq<Id>)
    ensures a + b + c == a + (b + c)
  {}

  lemma {:induction false} PreOfAppend(f: Forest, g: Forest)
    ensures Pre(Append(f, g)) == Pre(f) + Pre(g)
  {
    PreAppend(f, g);
  }

  lemma {:induction false} IdsOfAppend(f: Forest, g: Forest)
    ensures Ids(Append(f, g)) == Ids(f) + Ids(g)
  {
    PreAppend(f, g);
  }

  /** The entries while that happens. */
  lemma {:induction false} FinalizedEntries(done: Forest, todo: Forest, k: Forest, r: Forest)
    requires todo.Cons? && Pre(Cons(todo.id, k, r)) == Pre(todo) && Distinct(Cons(todo.id, k, r))
    requires Distinct(done) && Ids(done) !! Ids(todo)
    ensures var done' := Append(done, One(todo.id, k));
      && Ids(done') + Ids(r) == Ids(done) + Ids(todo) && {todo.id} + Ids(k) <= Ids(todo)
      && Distinct(done') && Ids(done') !! Ids(r) && Count(r) < Count(todo)
  {
    FinalizedIds(todo, k, r);
    DistinctJoin(done, One(todo.id, k));
    IdsOfAppend(done, One(todo.id, k));
    SetParts(Ids(done), Ids(One(todo.id, k)), Ids(r), Ids(todo));
  }

  lemma {:induction false} SetParts(d: set<Id>, a: set<Id>, b: set<Id>, t: set<Id>)
    requires a + b == t && a !! b && d !! t
    ensures d + a + b == d + t && a <= t && (d + a) !! b && d !! a
  {}

  lemma {:induction false} OrderOfOne(id: Id, k: Forest, r: Forest)
    ensures Pre(One(id, k)) == [id] + Pre(k) && Pre(One(id, k)) + Pre(r) == Pre(Cons(id, k, r))
  {
    assert Pre(Nil) == [];
  }

  lemma {:induction false} FinalizedIds(todo: Forest, k: Forest, r: Forest)
    requires todo.Cons? && Pre(Cons(todo.id, k, r)) == Pre(todo) && Distinct(Cons(todo.id, k, r))
    ensures Ids(One(todo.id, k)) == {todo.id} + Ids(k) && Ids(One(todo.id, k)) + Ids(r) == Ids(todo)
    ensures Ids(One(todo.id, k)) !! Ids(r) && Distinct(One(todo.id, k)) && Count(r) < Count(todo)
  {
    SamePre(Cons(todo.id, k, r), todo);
    assert Ids(Nil) == {};
  }

  lemma {:induction false} FinalizedLinks(l0: Links, l1: Links, done: Forest, todo: Forest, k: Forest, r: Forest, p: Id)
    requires InProgress(l0, done, todo, p) && Finalized(l0, l1, todo, k, r)
    ensures Seg(l1, Append(done, One(todo.id, k)), First(r, None)) && Ordered(l1, r)
    ensures l1.Next(todo.id) == First(r, None)
  {
    FinalizedIds(todo, k, r);
    SegFrame(l0, l1, done, First(todo, None));
    assert Seg(l1, One(todo.id, k), First(r, None));
    SegJoin(l1, done, One(todo.id, k), First(r, None));
  }

  lemma {:induction false} FinalizedParents(l0: Links, l1: Links, done: Forest, todo: Forest, k: Forest, r: Forest,
      p: Id)
    requires InProgress(l0, done, todo, p) && Finalized(l0, l1, todo, k, r) && Parents(l0, todo, p)
    requires l1.Parent(todo.id) == l0.Parent(todo.id)
    ensures Parents(l1, Append(done, One(todo.id, k)), p) && Parents(l1, r, p)
  {
    FinalizedIds(todo, k, r);
    ParentsFrame(l0, l1, done, p);
    MovedParents(l1, l1, done, todo.id, k, p);
    SuffixParents(l0, r, todo.rest, p);
    ParentsFrame(l0, l1, r, p);
  }

  /** The entry `p` without children while it takes over siblings: `kids` so far, `rest` not yet. */
  ghost predicate AdoptingFacts(l0: Links, l1: Links, p: Id, sibs: Forest, kids: Forest, rest: Forest) {
    && IsSuffix(rest, sibs) && Count(rest) <= Count(sibs) && p !in Ids(sibs)
    && InProgress(l1, kids, rest, p) && Partition(sibs, kids, rest)
    && l1.Next(p) == First(sibs, None) && l1.List(p) == None && l1.Parent(p) == l0.Parent(p)
    && Level(l1, rest, l1.Parent(p))
    && SameOutside(l0, l1, Ids(kids))
  }

  /** The same, kept folded. */
  ghost predicate Adopting(l0: Links, l1: Links, p: Id, sibs: Forest, kids: Forest, rest: Forest) {
    forall b :: Unfold(b) ==> AdoptingFacts(l0, l1, p, sibs, kids, rest)
  }

  lemma {:induction false} AdoptingMeans(l0: Links, l1: Links, p: Id, sibs: Forest, kids: Forest, rest: Forest)
    requires Adopting(l0, l1, p, sibs, kids, rest)
    ensures AdoptingFacts(l0, l1, p, sibs, kids, rest)
  {
    assert Unfold(true);
  }

  /** What the next round of the loop needs of it. */
  lemma {:induction false} AdoptingNext(l0: Links, l1: Links, p: Id, sibs: Forest, kids: Forest, rest: Forest)
    requires Adopting(l0, l1, p, sibs, kids, rest)
    ensures Ordered(l1, rest) && Count(rest) <= Count(sibs) && l1.Next(p) == First(sibs, None)
    ensures Level(l1, rest, l1.Parent(p)) && p !in Ids(rest)
  {
    AdoptingMeans(l0, l1, p, sibs, kids, rest);
  }

  lemma {:induction false} AdoptStart(l0: Links, p: Id, sibs: Forest)
    requires Ordered(l0, Cons(p, Nil, sibs)) && Level(l0, sibs, l0.Parent(p))
    ensures Adopting(l0, l0, p, sibs, Nil, sibs)
  {
    assert Pre(Nil) == [] && Ids(Nil) == {};
  }

  lemma {:induction false} AdoptedOne(l0: Links, l1: Links, mid: Links, l2: Links, p: Id, sibs: Forest, kids: Forest,
      rest: Forest, k: Forest, r: Forest)
    requires Adopting(l0, l1, p, sibs, kids, rest) && rest.Cons? && Reshaped(l1, mid, rest, k, r)
    requires l2 == mid.SetParent(rest.id, p)
    ensures var kids' := Append(kids, One(rest.id, k));
      && Adopting(l0, l2, p, sibs, kids', r) && Count(r) < Count(rest)
      && kids'.Cons? && Last(kids') == rest.id && l2.Next(rest.id) == First(r, None) && IsSuffix(r, rest)
  {
    ReshapedMeans(l1, mid, rest, k, r);
    AdoptingMeans(l0, l1, p, sibs, kids, rest);
    AdoptedLinks(l1, mid, l2, kids, rest, k, r, p);
    StepPartition(sibs, kids, rest, k, r);
    StepTouched(sibs, kids, rest, k, r, l0, l1, l2);
    FinalizedEntries(kids, rest, k, r);
    SuffixTrans(r, rest.rest, rest);
    SuffixTrans(r, rest, sibs);
    AppendCons(kids, One(rest.id, k));
    SuffixLevel(l1, l2, r, rest, l1.Parent(p));
  }

  lemma {:induction false} AppendCons(f: Forest, g: Forest)
    requires g.Cons?
    ensures Append(f, g).Cons?
  {}

  /** One more sibling was finalised and given its new parent. */
  lemma {:induction false} AdoptedLinks(l0: Links, mid: Links, l1: Links, done: Forest, todo: Forest, k: Forest,
      r: Forest, p: Id)
    requires InProgress(l0, done, todo, p) && Finalized(l0, mid, todo, k, r)
    requires l1 == mid.SetParent(todo.id, p)
    ensures InProgress(l1, Append(done, One(todo.id, k)), r, p)
    ensures l1.Next(todo.id) == First(r, None)
    ensures SameOutside(l0, l1, {todo.id} + Ids(k))
  {
    FinalizedEntries(done, todo, k, r);
    FinalizedLinks(l0, mid, done, todo, k, r, p);
    AdoptedParents(l0, mid, l1, done, todo, k, r, p);
    SegFrame(mid, l1, Append(done, One(todo.id, k)), First(r, None));
    SegFrame(mid, l1, r, None);
  }

  lemma {:induction false} AdoptedParents(l0: Links, mid: Links, l1: Links, done: Forest, todo: Forest, k: Forest,
      r: Forest, p: Id)
    requires InProgress(l0, done, todo, p) && Finalized(l0, mid, todo, k, r)
    requires l1 == mid.SetParent(todo.id, p)
    ensures Parents(l1, Append(done, One(todo.id, k)), p) && KidsParents(l1, r)
  {
    FinalizedIds(todo, k, r);
    KidsParentsFrame(mid, l1, r);
    ParentsFrame(l0, mid, done, p);
    MovedParents(mid, l1, done, todo.id, k, p);
  }

  /** The three assignments that move the siblings after `p` into its list. */
  lemma {:induction false} Relink(l0: Links, p: Id, kids: Forest, rest: Forest)
    requires kids.Cons? && InProgress(l0, kids, rest, p) && l0.Next(p) == First(kids, None)
    requires p !in Ids(kids) && p !in Ids(rest)
    ensures var l1 := l0.SetList(p, l0.Next(p)).SetNext(p, l0.Next(Last(kids))).SetNext(Last(kids), None);
      && Ordered(l1, Cons(p, kids, rest)) && Parents(l1, kids, p)
      && SameOutside(l0, l1, {p} + Ids(kids)) && l1.Parent(p) == l0.Parent(p)
  {
    var last := Last(kids);
    LastNext(l0, kids, First(rest, None));
    var la := l0.SetList(p, l0.Next(p)).SetNext(p, l0.Next(last));
    var l1 := la.SetNext(last, None);
    SegFrame(l0, la, kids, First(rest, None));
    Redirect(la, kids, First(rest, None), None);
    SegFrame(l0, l1, rest, None);
    ParentsFrame(l0, l1, kids, p);
    KidsParentsFrame(l0, l1, rest);
  }

  lemma {:induction false} ReparentedOne(l0: Links, l1: Links, done: Forest, todo: Forest, m: Id, p: Id)
    requires todo.Cons? && l1 == l0.SetParent(todo.id, p)
    requires Distinct(todo) && todo.id !in Ids(done) && Seg(l0, todo, None)
    requires Parents(l0, done, p) && Parents(l0, todo, m)
    ensures Parents(l1, Append(done, One(todo.id, todo.kids)), p) && Parents(l1, todo.rest, m)
    ensures Seg(l1, todo.rest, None)
  {
    var id, k, r := todo.id, todo.kids, todo.rest;
    assert id !in Ids(k) && id !in Ids(r) && Parents(l0, k, id) && Parents(l0, r, m) && Seg(l0, r, None);
    RestFrame(l0, l1, id, r, m, p);
    MovedParents(l0, l1, done, id, k, p);
  }

  lemma {:induction false} RestFrame(l0: Links, l1: Links, id: Id, r: Forest, m: Id, p: Id)
    requires l1 == l0.SetParent(id, p) && id !in Ids(r) && Parents(l0, r, m) && Seg(l0, r, None)
    ensures Parents(l1, r, m) && Seg(l1, r, None)
  {
    ParentsFrame(l0, l1, r, m);
    SegFrame(l0, l1, r, None);
  }

  lemma {:induction false} MovedParents(l0: Links, l1: Links, done: Forest, id: Id, k: Forest, p: Id)
    requires Parents(l0, done, p) && Parents(l0, k, id) && l1.Parent(id) == Some(p)
    requires forall i | i in Ids(done) || i in Ids(k) :: l0.Parent(i) == l1.Parent(i)
    ensures Parents(l1, Append(done, One(id, k)), p)
  {
    ParentsFrame(l0, l1, done, p);
    ParentsFrame(l0, l1, k, id);
    OneParents(l1, id, k, p);
    ParentsJoin(l1, done, One(id, k), p);
  }

  lemma {:induction false} OneParents(l0: Links, id: Id, k: Forest, p: Id)
    requires l0.Parent(id) == Some(p) && Parents(l0, k, id)
    ensures Parents(l0, One(id, k), p)
  {}

  lemma {:induction false} AppendStep(done: Forest, todo: Forest)
    requires todo.Cons?
    ensures Append(Append(done, One(todo.id, todo.kids)), todo.rest) == Append(done, todo)
  {
    if done.Cons? {
      AppendStep(done.rest, todo);
    }
  }

  lemma {:induction false} SplicedOrder(done: Forest, todo: Forest)
    requires todo.Cons?
    ensures var done', todo' := Append(done, One(todo.id, Nil)), Append(todo.kids, todo.rest);
      && Pre(done') + Pre(todo') == Pre(done) + Pre(todo)
      && First(done', First(todo', None)) == First(done, First(todo, None))
      && Count(todo') < Count(todo)
  {
    var todo' := Append(todo.kids, todo.rest);
    PreOfAppend(done, One(todo.id, Nil));
    FirstAppend(done, One(todo.id, Nil), First(todo', None));
    PreOfAppend(todo.kids, todo.rest);
    CountAppend(todo.kids, todo.rest);
    OneIds(todo.id);
    SeqAssoc([todo.id], Pre(todo.kids), Pre(todo.rest));
    SeqAssoc(Pre(done), [todo.id], Pre(todo'));
  }

  lemma {:induction false} SplicedEntries(done: Forest, todo: Forest)
    requires todo.Cons? && Distinct(done) && Distinct(todo) && Ids(done) !! Ids(todo)
    ensures var done', todo' := Append(done, One(todo.id, Nil)), Append(todo.kids, todo.rest);
      && Ids(done') + Ids(todo') == Ids(done) + Ids(todo)
      && Distinct(done') && Distinct(todo') && Ids(done') !! Ids(todo')
  {
    IdsOfAppend(done, One(todo.id, Nil));
    IdsOfAppend(todo.kids, todo.rest);
    DistinctJoin(todo.kids, todo.rest);
    OneIds(todo.id);
    DistinctJoin(done, One(todo.id, Nil));
  }

  lemma {:induction false} OneIds(id: Id)
    ensures Ids(One(id, Nil)) == {id} && Pre(One(id, Nil)) == [id] && Distinct(One(id, Nil))
  {
    assert Ids(Nil) == {} && Pre(Nil) == [];
  }

  lemma {:induction false} CountAppend(f: Forest, g: Forest)
    ensures Count(Append(f, g)) == Count(f) + Count(g)
  {
    if f.Cons? {
      CountAppend(f.rest, g);
    }
  }

  /** The children of one entry were spliced in behind it. */
  lemma {:induction false} SplicedLinks(l0: Links, mid: Links, l1: Links, done: Forest, todo: Forest, p: Id)
    requires InProgress(l0, done, todo, p) && todo.Cons? && todo.kids.Cons?
    requires mid.next == l0.next && mid.list == l0.list
    requires forall i | i !in Ids(todo.kids) :: mid.Parent(i) == l0.Parent(i)
    requires l1 ==
      mid.SetNext(Last(todo.kids), mid.Next(todo.id)).SetNext(todo.id, mid.List(todo.id)).SetList(todo.id, None)
    ensures var done', todo' := Append(done, One(todo.id, Nil)), Append(todo.kids, todo.rest);
      && Seg(l1, done', First(todo', None)) && Seg(l1, todo', None)
      && l1.Next(todo.id) == First(todo', None)
  {
    var m, kids, rest := todo.id, todo.kids, todo.rest;
    var end := First(rest, None);
    var la := mid.SetNext(Last(kids), mid.Next(m));
    SegFrame(l0, mid, kids, None);
    Redirect(mid, kids, None, end);
    SegFrame(la, l1, kids, end);
    SegFrame(l0, l1, rest, None);
    SegJoin(l1, kids, rest, None);
    SegFrame(l0, l1, done, Some(m));
    PreAppend(kids, rest);
    SegJoin(l1, done, One(m, Nil), First(Append(kids, rest), None));
  }

  lemma {:induction false} SplicedTouched(l0: Links, mid: Links, l1: Links, todo: Forest)
    requires todo.Cons? && todo.kids.Cons? && mid.next == l0.next && mid.list == l0.list
    requires forall i | i !in Ids(todo.kids) :: mid.Parent(i) == l0.Parent(i)
    requires l1 ==
      mid.SetNext(Last(todo.kids), mid.Next(todo.id)).SetNext(todo.id, mid.List(todo.id)).SetList(todo.id, None)
    ensures SameOutside(l0, l1, Ids(todo))
  {}

  lemma {:induction false} SplicedParents(l0: Links, mid: Links, l1: Links, done: Forest, todo: Forest, p: Id)
    requires InProgress(l0, done, todo, p) && todo.Cons? && Parents(l0, todo, p)
    requires Parents(mid, todo.kids, p) && l1.parent == mid.parent
    requires forall i | i !in Ids(todo.kids) :: mid.Parent(i) == l0.Parent(i)
    ensures Parents(l1, Append(done, One(todo.id, Nil)), p)
    ensures Parents(l1, Append(todo.kids, todo.rest), p) && KidsParents(l1, Append(todo.kids, todo.rest))
  {
    ParentsFrame(l0, l1, done, p);
    ParentsFrame(mid, l1, todo.kids, p);
    ParentsFrame(l0, l1, todo.rest, p);
    ParentsJoin(l1, done, One(todo.id, Nil), p);
    ParentsJoin(l1, todo.kids, todo.rest, p);
    ParentsGiveKids(l1, Append(todo.kids, todo.rest), p);
  }

  /** Replacing an entry's children by others with the same entries in the same order. */
  lemma {:induction false} KidsReplaced(l0: Links, l1: Links, p: Id, kids: Forest, kids': Forest, sibs: Forest)
    requires Ordered(l0, Cons(p, kids, sibs)) && Pre(kids') == Pre(kids)
    requires Ordered(l1, kids') && Parents(l1, kids', p) && l1.List(p) == First(kids', None)
    requires SameOutside(l0, l1, Ids(kids))
    ensures Reshaped(l0, l1, Cons(p, kids, sibs), kids', sibs) && Ids(kids') == Ids(kids) && Bag(kids') == Bag(kids)
  {
    SamePre(kids', kids);
    SegFrame(l0, l1, sibs, None);
    KidsParentsFrame(l0, l1, sibs);
  }

  // ----- entries without a prompt text lose their children ----------------------

  /** Only entries with a prompt text have children. */
  predicate Shown(texts: set<Id>, f: Forest) {
    f.Cons? ==> (f.kids.Cons? ==> f.id in texts) && Shown(texts, f.kids) && Shown(texts, f.rest)
  }

  /** The same below the top level. */
  predicate ShownBelow(texts: set<Id>, f: Forest) { f.Cons? ==> Shown(texts, f.kids) && ShownBelow(texts, f.rest) }

  /** The children of a top-level entry without a prompt text become its next siblings, and so on with them. */
  function Flattened(texts: set<Id>, f: Forest): Forest
    decreases Count(f)
  {
    if f.Nil? then Nil
    else if f.kids.Cons? && f.id !in texts then
      CountAppend(f.kids, f.rest);
      Cons(f.id, Nil, Flattened(texts, Append(f.kids, f.rest)))
    else Cons(f.id, f.kids, Flattened(texts, f.rest))
  }

  /** Afterwards only entries with a prompt text have children, anywhere; nothing else is moved. */
  lemma {:induction false} FlattenedIsShown(texts: set<Id>, f: Forest)
    requires ShownBelow(texts, f)
    ensures Shown(texts, Flattened(texts, f)) && Pre(Flattened(texts, f)) == Pre(f)
    ensures Shown(texts, f) ==> Flattened(texts, f) == f
    decreases Count(f)
  {
    if f.Cons? {
      if f.kids.Cons? && f.id !in texts {
        CountAppend(f.kids, f.rest);
        ShownAppend(texts, f.kids, f.rest);
        PreAppend(f.kids, f.rest);
        FlattenedIsShown(texts, Append(f.kids, f.rest));
      } else {
        FlattenedIsShown(texts, f.rest);
      }
    }
  }

  lemma {:induction false} ShownAppend(texts: set<Id>, f: Forest, g: Forest)
    ensures Shown(texts, f) && ShownBelow(texts, g) ==> ShownBelow(texts, Append(f, g))
    ensures ShownBelow(texts, f) && ShownBelow(texts, g) ==> ShownBelow(texts, Append(f, g))
  {
    if f.Cons? {
      ShownAppend(texts, f.rest, g);
    }
  }

  lemma {:induction false} ShownOne(texts: set<Id>, f: Forest, id: Id, k: Forest)
    requires ShownBelow(texts, f) && Shown(texts, k)
    ensures ShownBelow(texts, Append(f, One(id, k)))
  {
    assert One(id, k).rest == Nil && ShownBelow(texts, Nil);
    ShownAppend(texts, f, One(id, k));
  }

  /** One step of the loop that flattens. */
  lemma {:induction false} FlattenStep(texts: set<Id>, all: Forest, done: Forest, todo: Forest)
    requires todo.Cons? && Flattened(texts, all) == Append(done, Flattened(texts, todo))
    ensures var moved := todo.kids.Cons? && todo.id !in texts;
      var done' := Append(done, One(todo.id, if moved then Nil else todo.kids));
      var todo' := if moved then Append(todo.kids, todo.rest) else todo.rest;
      Flattened(texts, all) == Append(done', Flattened(texts, todo'))
  {
    AppendStep(done, Flattened(texts, todo));
  }

  lemma {:induction false} AppendNil(f: Forest)
    ensures Append(f, Nil) == f
  {
    if f.Cons? {
      AppendNil(f.rest);
    }
  }

  /** Finalising the children of `p`: `done` so far, `todo` not yet. */
  ghost predicate Finalizing(l0: Links, l1: Links, texts: set<Id>, all: Forest, done: Forest, todo: Forest, p: Id) {
    && InProgress(l1, done, todo, p) && Parents(l1, todo, p) && Count(todo) <= Count(all)
    && Partition(all, done, todo) && SameOutside(l0, l1, Ids(all)) && ShownBelow(texts, done)
  }

  lemma {:induction false} FinalizingStep(l0: Links, l1: Links, l2: Links, texts: set<Id>, all: Forest, done: Forest,
      todo: Forest, k: Forest, r: Forest, p: Id)
    requires Finalizing(l0, l1, texts, all, done, todo, p) && todo.Cons? && Reshaped(l1, l2, todo, k, r)
    requires Shown(texts, k)
    ensures Finalizing(l0, l2, texts, all, Append(done, One(todo.id, k)), r, p)
    ensures l2.Next(todo.id) == First(r, None) && Count(r) < Count(todo) && IsSuffix(r, todo)
  {
    ReshapedMeans(l1, l2, todo, k, r);
    StepLinks(l1, l2, done, todo, k, r, p);
    StepPartition(all, done, todo, k, r);
    StepTouched(all, done, todo, k, r, l0, l1, l2);
    ShownOne(texts, done, todo.id, k);
  }

  lemma {:induction false} FinalizingEnd(l0: Links, l1: Links, texts: set<Id>, all: Forest, done: Forest, p: Id)
    requires Finalizing(l0, l1, texts, all, done, Nil, p)
    ensures Ordered(l1, done) && Parents(l1, done, p) && First(done, None) == First(all, None)
    ensures Pre(done) == Pre(all) && SameOutside(l0, l1, Ids(all)) && ShownBelow(texts, done)
  {
    ParentsGiveKids(l1, done, p);
    assert Pre(done) + Pre(Nil) == Pre(done);
  }

  /** The three assignments that end an adoption. */
  lemma {:induction false} AdoptedAll(l0: Links, l1: Links, l2: Links, p: Id, sibs: Forest, kids: Forest, rest: Forest)
    requires Adopting(l0, l1, p, sibs, kids, rest) && kids.Cons?
    requires l2 == l1.SetList(p, l1.Next(p)).SetNext(p, l1.Next(Last(kids))).SetNext(Last(kids), None)
    ensures Reshaped(l0, l2, Cons(p, Nil, sibs), kids, rest)
  {
    AdoptingMeans(l0, l1, p, sibs, kids, rest);
    AdoptedOrder(p, kids, rest, sibs);
    Relink(l1, p, kids, rest);
    TouchedUnion(l0, l1, l2, Ids(kids), {p} + Ids(kids));
    assert Ids(kids) + ({p} + Ids(kids)) == {p} + Ids(kids);
  }

  lemma {:induction false} AdoptedNone(l0: Links, l1: Links, p: Id, sibs: Forest, rest: Forest)
    requires Adopting(l0, l1, p, sibs, Nil, rest)
    ensures Reshaped(l0, l1, Cons(p, Nil, sibs), Nil, rest)
  {
    AdoptingMeans(l0, l1, p, sibs, Nil, rest);
    AdoptedOrder(p, Nil, rest, sibs);
    assert Ids(Nil) == {} && {p} + Ids(Nil) == {p};
    assert Ordered(l1, Cons(p, Nil, rest));
    assert SameOutside(l0, l1, {p} + Ids(Nil));
  }

  lemma {:induction false} RootOrder(root: Id, kids: Forest, kids': Forest)
    requires Pre(One(root, kids')) == Pre(One(root, kids))
    ensures Pre(kids') == Pre(kids) && multiset([root] + Pre(kids)) == multiset{root} + Bag(kids')
  {
    IdsArePre(kids');
    OrderOfOne(root, kids, Nil);
    OrderOfOne(root, kids', Nil);
    assert Pre(One(root, kids))[1..] == Pre(kids) && Pre(One(root, kids'))[1..] == Pre(kids');
  }

  lemma {:induction false} AdoptedOrder(p: Id, kids: Forest, rest: Forest, sibs: Forest)
    requires Pre(kids) + Pre(rest) == Pre(sibs)
    ensures Pre(Cons(p, kids, rest)) == Pre(Cons(p, Nil, sibs))
  {
    SeqAssoc([p], Pre(kids), Pre(rest));
    assert [p] + Pre(Nil) == [p];
  }

  /** Flattening the list of `p`: `done` is behind, `todo` ahead. */
  ghost predicate Flattening(l0: Links, l1: Links, texts: set<Id>, all: Forest, done: Forest, todo: Forest, p: Id) {
    && InProgress(l1, done, todo, p) && Parents(l1, todo, p) && Partition(all, done, todo) &&
      SameOutside(l0, l1, Ids(all))
    && Flattened(texts, all) == Append(done, Flattened(texts, todo))
  }

  lemma {:induction false} FlatteningStays(l0: Links, l1: Links, texts: set<Id>, all: Forest, done: Forest,
      todo: Forest, p: Id)
    requires Flattening(l0, l1, texts, all, done, todo, p) && todo.Cons? && (todo.kids.Nil? || todo.id in texts)
    ensures Flattening(l0, l1, texts, all, Append(done, One(todo.id, todo.kids)), todo.rest, p)
    ensures l1.Next(todo.id) == First(todo.rest, None) && Count(todo.rest) < Count(todo)
  {
    FlattenStep(texts, all, done, todo);
    StepLinks(l1, l1, done, todo, todo.kids, todo.rest, p);
    StepPartition(all, done, todo, todo.kids, todo.rest);
  }

  lemma {:induction false} FlatteningRaises(l0: Links, l1: Links, mid: Links, l2: Links, texts: set<Id>, all: Forest,
      done: Forest, todo: Forest, p: Id)
    requires Flattening(l0, l1, texts, all, done, todo, p) && todo.Cons? && todo.kids.Cons? && todo.id !in texts
    requires Raised(l1, mid, todo.kids, p)
    requires l2 ==
      mid.SetNext(Last(todo.kids), mid.Next(todo.id)).SetNext(todo.id, mid.List(todo.id)).SetList(todo.id, None)
    ensures var done', todo' := Append(done, One(todo.id, Nil)), Append(todo.kids, todo.rest);
      && Flattening(l0, l2, texts, all, done', todo', p)
      && l2.Next(todo.id) == First(todo', None) && Count(todo') < Count(todo)
  {
    FlattenStep(texts, all, done, todo);
    SplicedLinks(l1, mid, l2, done, todo, p);
    SplicedTouched(l1, mid, l2, todo);
    SplicedParents(l1, mid, l2, done, todo, p);
    SplicedOrder(done, todo);
    SplicedEntries(done, todo);
    TouchedUnion(l0, l1, l2, Ids(all), Ids(todo));
    assert Ids(all) + Ids(todo) == Ids(all);
  }

  /** All entries of a list were given the new parent `p`. */
  ghost predicate Raised(l0: Links, l1: Links, kids: Forest, p: Id) {
    && l1.next == l0.next && l1.list == l0.list && Parents(l1, kids, p)
    && forall i | i !in Ids(kids) :: l1.Parent(i) == l0.Parent(i)
  }

  lemma {:induction false} FlatteningEnd(l0: Links, l1: Links, texts: set<Id>, all: Forest, done: Forest, p: Id)
    requires Flattening(l0, l1, texts, all, done, Nil, p)
    ensures Ordered(l1, done) && Parents(l1, done, p) && First(done, None) == First(all, None)
    ensures Pre(done) == Pre(all) && SameOutside(l0, l1, Ids(all)) && done == Flattened(texts, all)
  {
    AppendNil(done);
    ParentsGiveKids(l1, done, p);
    assert Pre(done) + Pre(Nil) == Pre(done);
  }
}
