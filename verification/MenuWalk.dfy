/** conf_write's way through the menu tree: no stack, only the list, next and parent pointers. */
module MenuWalk {
  import opened Options
  import opened Exprs
  import opened MenuLinks

  /** Where the walk stands: below which entries, and what follows each of them in its own list. */
  datatype Path = Top(root: Id) | Under(entry: Id, rest: Forest, up: Path)

  /** The entry whose list the walk is in. */
  function Node(p: Path): Id { if p.Top? then p.root else p.entry }

  /** The entries still to come once the current list is done. */
  function After(p: Path): seq<Id> { if p.Top? then [] else Pre(p.rest) + After(p.up) }

  function Remaining(cur: Forest, p: Path): seq<Id> { Pre(cur) + After(p) }

  /** The pointers lead back up along this path. */
  ghost predicate Leads(l: Links, p: Path) {
    match p
    case Top(root) => l.Next(root) == None && l.Parent(root) == None
    case Under(entry, rest, up) =>
      && l.Parent(entry) == Some(Node(up)) && l.Next(entry) == First(rest, None)
      && Seg(l, rest, None) && Parents(l, rest, Node(up)) && Leads(l, up)
  }

  ghost predicate At(l: Links, cur: Forest, p: Path) {
    Seg(l, cur, None) && Parents(l, cur, Node(p)) && Leads(l, p)
  }

  /**
   * From one entry to the next: its first child, else its next sibling, else that of the nearest parent
   * that has one.
   */
  method NextEntry(l: Links, menu: Id, ghost cur: Forest, ghost p: Path)
      returns (n: Option<Id>, ghost cur': Forest, ghost p': Path)
    requires cur.Cons? && cur.id == menu && At(l, cur, p)
    ensures At(l, cur', p') && n == First(cur', None)
    ensures Remaining(cur, p) == [menu] + Remaining(cur', p')
    ensures n.None? ==> Remaining(cur', p') == []
  {
    p' := p;
    if l.List(menu).Some? {
      cur', p' := cur.kids, Under(menu, cur.rest, p);
      Assoc([menu], Pre(cur.kids), Pre(cur.rest), After(p));
      return l.List(menu), cur', p';
    }
    if l.Next(menu).Some? {
      cur' := cur.rest;
      NoKids(cur, p);
      return l.Next(menu), cur', p';
    }
    NoKids(cur, p);
    n := l.Parent(menu);
    cur' := Nil;
    while n.Some?
      invariant Leads(l, p') && After(p') == After(p)
      invariant n == Some(Node(p')) || (n.None? && p'.Top?)
      decreases p', n.Some?
    {
      if l.Next(n.value).Some? {
        cur', p' := p'.rest, p'.up;
        return l.Next(n.value), cur', p';
      }
      n := l.Parent(n.value);
      if p'.Under? {
        p' := p'.up;
      }
    }
  }

  /** The walk from rootmenu.list: every entry exactly once, in declaration order. */
  method Walk(l: Links, root: Id, ghost kids: Forest) returns (visited: seq<Id>)
    requires Ordered(l, One(root, kids)) && l.Parent(root) == None
    ensures visited == Pre(kids)
    ensures forall i | i in visited :: multiset(visited)[i] == 1
  {
    visited := [];
    var menu := l.List(root);
    ghost var cur, p := kids, Top(root);
    while menu.Some?
      invariant At(l, cur, p) && menu == First(cur, None)
      invariant visited + Remaining(cur, p) == Pre(kids)
      invariant menu.None? ==> Remaining(cur, p) == []
      decreases |Remaining(cur, p)|
    {
      visited := visited + [menu.value];
      menu, cur, p := NextEntry(l, menu.value, cur, p);
    }
    EachOnce(kids);
    IdsArePre(kids);
  }

  lemma {:induction false} EachOnce(f: Forest)
    requires Distinct(f)
    ensures forall i :: Bag(f)[i] == if i in Ids(f) then 1 else 0
  {
    if f.Cons? {
      EachOnce(f.kids);
      EachOnce(f.rest);
    }
  }

  lemma {:induction false} NoKids(cur: Forest, p: Path)
    requires cur.Cons? && cur.kids.Nil?
    ensures Remaining(cur, p) == [cur.id] + Remaining(cur.rest, p)
  {
    assert [cur.id] + Pre(cur.kids) == [cur.id];
    Assoc([], [cur.id], Pre(cur.rest), After(p));
  }

  lemma {:induction false} Assoc(a: seq<Id>, b: seq<Id>, c: seq<Id>, d: seq<Id>)
    ensures a + b + c + d == a + (b + (c + d))
  {}
}
