/** menu_add_entry, menu_add_menu and menu_end_menu: how the tree is built that menu_finalize is called on. */
module MenuBuilding {
  import opened Options
  import opened Exprs
  import opened MenuLinks
  import opened MenuSteps

  /** last_entry_ptr: the list pointer or the next pointer of an entry. */
  datatype EntryPtr = ListOf(i: Id) | NextOf(i: Id)

  /** The menus still open, the innermost first, each with the finished entries of its list. */
  datatype Open = AtRoot(root: Id, done: Forest) | InMenu(entry: Id, done: Forest, up: Open)

  function Node(z: Open): Id { if z.AtRoot? then z.root else z.entry }

  /** All entries in the order of creation. */
  function Created(z: Open): seq<Id> {
    match z
    case AtRoot(_, done) => Pre(done)
    case InMenu(entry, done, up) => Created(up) + [entry] + Pre(done)
  }

  function AllIds(z: Open): set<Id> {
    match z
    case AtRoot(root, done) => {root} + Ids(done)
    case InMenu(entry, done, up) => {entry} + Ids(done) + AllIds(up)
  }

  /** No entry occurs twice. */
  predicate OpenDistinct(z: Open) {
    && Distinct(z.done) && Node(z) !in Ids(z.done)
    && (z.InMenu? ==> OpenDistinct(z.up) && z.entry !in AllIds(z.up) && Ids(z.done) !! AllIds(z.up))
  }

  /** One list: the finished entries, then the open menu if there is one. */
  ghost predicate Level(l: Links, node: Id, done: Forest, open: Option<Id>) {
    l.List(node) == First(done, open) && Seg(l, done, open) && Parents(l, done, node)
  }

  ghost predicate Leads(l: Links, z: Open, open: Option<Id>) {
    && Level(l, Node(z), z.done, open) && l.Next(Node(z)) == None
    && match z
       case AtRoot(root, _) => l.Parent(root) == None
       case InMenu(entry, _, up) => l.Parent(entry) == Some(Node(up)) && Leads(l, up, Some(entry))
  }

  /** The pointer behind the last entry of the innermost list. */
  function PtrOf(z: Open): EntryPtr { if z.done.Nil? then ListOf(Node(z)) else NextOf(Last(z.done)) }

  lemma {:induction false} LeadsFrame(l: Links, l': Links, z: Open, open: Option<Id>)
    requires Leads(l, z, open)
    requires forall i | i in AllIds(z) ::
      l.Next(i) == l'.Next(i) && l.Parent(i) == l'.Parent(i) && l.List(i) == l'.List(i)
    ensures Leads(l', z, open)
  {
    SegFrame(l, l', z.done, open);
    ParentsFrame(l, l', z.done, Node(z));
    if z.InMenu? {
      LeadsFrame(l, l', z.up, Some(z.entry));
    }
  }

  /** A new last entry, written through last_entry_ptr. */
  lemma {:induction false} Added(l: Links, l': Links, z: Open, id: Id)
    requires OpenDistinct(z) && Leads(l, z, None) && id !in AllIds(z) && l.List(id) == None && l.Next(id) == None
    requires var l1 := l.SetParent(id, Node(z));
      l' == match PtrOf(z) case ListOf(i) => l1.SetList(i, Some(id)) case NextOf(i) => l1.SetNext(i, Some(id))
    ensures Level(l', Node(z), Append(z.done, One(id, Nil)), None)
    ensures l'.Next(Node(z)) == None && l'.Parent(Node(z)) == l.Parent(Node(z))
    ensures forall i | i != id && i != Node(z) && i !in Ids(z.done) ::
      l'.Next(i) == l.Next(i) && l'.Parent(i) == l.Parent(i) && l'.List(i) == l.List(i)
  {
    var p, done := Node(z), z.done;
    var l1 := l.SetParent(id, p);
    SegFrame(l, l1, done, None);
    if done.Cons? {
      Redirect(l1, done, None, Some(id));
    }
    SegJoin(l', done, One(id, Nil), None);
    MovedParents(l, l', done, id, Nil, p);
    FirstAppend(done, One(id, Nil), None);
  }

  function WithDone(z: Open, done: Forest): Open {
    if z.AtRoot? then AtRoot(z.root, done) else InMenu(z.entry, done, z.up)
  }

  lemma {:induction false} AddedEntry(l: Links, l': Links, z: Open, id: Id)
    requires OpenDistinct(z) && Leads(l, z, None) && id !in AllIds(z) && l.List(id) == None && l.Next(id) == None
    requires var l1 := l.SetParent(id, Node(z));
      l' == match PtrOf(z) case ListOf(i) => l1.SetList(i, Some(id)) case NextOf(i) => l1.SetNext(i, Some(id))
    ensures var z' := WithDone(z, Append(z.done, One(id, Nil)));
      && OpenDistinct(z') && Leads(l', z', None) && AllIds(z') == AllIds(z) + {id} && PtrOf(z') == NextOf(id)
      && Created(z') == Created(z) + [id]
  {
    Added(l, l', z, id);
    var done' := Append(z.done, One(id, Nil));
    OneIds(id);
    PreOfAppend(z.done, One(id, Nil));
    IdsOfAppend(z.done, One(id, Nil));
    DistinctJoin(z.done, One(id, Nil));
    LastAppend(z.done, One(id, Nil));
    if z.InMenu? {
      LeadsFrame(l, l', z.up, Some(z.entry));
      SeqAssoc(Created(z.up) + [z.entry], Pre(z.done), [id]);
    }
  }

  /** menu_add_menu on the entry just added: the finished entries before it stay, its own list begins. */
  lemma {:induction false} Entered(l: Links, z: Open, before: Forest, id: Id)
    requires OpenDistinct(z) && Leads(l, z, None) && z.done == Append(before, One(id, Nil))
    ensures var z' := InMenu(id, Nil, WithDone(z, before));
      OpenDistinct(z') && Leads(l, z', None) && AllIds(z') == AllIds(z) && Created(z') == Created(z) &&
      PtrOf(z') == ListOf(id)
  {
    SplitLast(l, before, id, Node(z));
    if z.InMenu? {
      SeqAssoc(Created(z.up) + [z.entry], Pre(before), [id]);
    }
    assert Pre(Nil) == [] && Ids(Nil) == {};
  }

  lemma {:induction false} SplitLast(l: Links, before: Forest, id: Id, p: Id)
    requires var f := Append(before, One(id, Nil)); Seg(l, f, None) && Parents(l, f, p) && Distinct(f)
    ensures Seg(l, before, Some(id)) && Parents(l, before, p) && Distinct(before) && id !in Ids(before)
    ensures l.List(id) == None && l.Next(id) == None && l.Parent(id) == Some(p)
    ensures var f := Append(before, One(id, Nil));
      First(f, None) == First(before, Some(id)) && Ids(f) == Ids(before) + {id} && Pre(f) == Pre(before) + [id]
  {
    OneIds(id);
    PreOfAppend(before, One(id, Nil));
    IdsOfAppend(before, One(id, Nil));
    FirstAppend(before, One(id, Nil), None);
    if before.Cons? {
      SplitLast(l, before.rest, id, p);
      FirstAppend(before.rest, One(id, Nil), None);
      IdsOfAppend(before.rest, One(id, Nil));
    }
  }

  /** menu_end_menu: the menu with its whole list becomes the last finished entry one level up. */
  lemma {:induction false} Ended(l: Links, z: Open)
    requires z.InMenu? && OpenDistinct(z) && Leads(l, z, None)
    ensures var z' := WithDone(z.up, Append(z.up.done, One(z.entry, z.done)));
      OpenDistinct(z') && Leads(l, z', None) && AllIds(z') == AllIds(z) && Created(z') == Created(z) &&
      PtrOf(z') == NextOf(z.entry)
  {
    var up, e, k := z.up, z.entry, z.done;
    var done' := Append(up.done, One(e, k));
    assert Ids(One(e, k)) == {e} + Ids(k) && Pre(One(e, k)) == [e] + Pre(k) by {
      assert Ids(Nil) == {} && Pre(Nil) == [];
    }
    PreOfAppend(up.done, One(e, k));
    IdsOfAppend(up.done, One(e, k));
    DistinctJoin(up.done, One(e, k));
    LastAppend(up.done, One(e, k));
    FirstAppend(up.done, One(e, k), None);
    SegJoin(l, up.done, One(e, k), None);
    MovedParents(l, l, up.done, e, k, Node(up));
    SeqAssoc(Created(up), [e], Pre(k));
    if up.InMenu? {
      SeqAssoc(Created(up.up) + [up.entry], Pre(up.done), [e] + Pre(k));
    }
  }

  /** The static variables of menu.c while the Kconfig files are read. */
  class Builder {
    var l: Links
    var currentEntry: Id
    var currentMenu: Id
    var lastEntryPtr: EntryPtr
    ghost var open: Open

    ghost predicate Valid()
      reads this
    {
      && OpenDistinct(open) && Leads(l, open, None)
      && currentMenu == Node(open) && lastEntryPtr == PtrOf(open)
    }

    /** menu_init */
    constructor (root: Id)
      ensures Valid() && open == AtRoot(root, Nil) && currentEntry == root && l == Links(map[], map[], map[])
    {
      l := Links(map[], map[], map[]);
      currentEntry, currentMenu, lastEntryPtr := root, root, ListOf(root);
      open := AtRoot(root, Nil);
    }

    /** menu_add_entry; `id` is the freshly allocated and cleared struct menu. */
    method AddEntry(id: Id)
      requires Valid() && id !in AllIds(open) && l.List(id) == None && l.Next(id) == None
      modifies this
      ensures Valid() && open == WithDone(old(open), Append(old(open).done, One(id, Nil))) && currentEntry == id
      ensures Created(open) == Created(old(open)) + [id] && AllIds(open) == AllIds(old(open)) + {id}
      ensures forall i | i !in AllIds(open) :: l.List(i) == old(l).List(i) && l.Next(i) == old(l).Next(i)
    {
      ghost var l0 := l;
      l := l.SetParent(id, currentMenu);
      match lastEntryPtr {
        case ListOf(i) => l := l.SetList(i, Some(id));
        case NextOf(i) => l := l.SetNext(i, Some(id));
      }
      AddedEntry(l0, l, open, id);
      open := WithDone(open, Append(open.done, One(id, Nil)));
      lastEntryPtr := NextOf(id);
      currentEntry := id;
    }

    /** menu_add_menu, which the grammar calls right after menu_add_entry. */
    method AddMenu(ghost before: Forest)
      requires Valid() && open.done == Append(before, One(currentEntry, Nil))
      modifies this`currentMenu, this`lastEntryPtr, this`open
      ensures Valid() && open == InMenu(currentEntry, Nil, WithDone(old(open), before))
      ensures Created(open) == Created(old(open)) && AllIds(open) == AllIds(old(open))
    {
      Entered(l, open, before, currentEntry);
      lastEntryPtr := ListOf(currentEntry);
      currentMenu := currentEntry;
      open := InMenu(currentEntry, Nil, WithDone(open, before));
    }

    /** menu_end_menu */
    method EndMenu()
      requires Valid() && open.InMenu?
      modifies this`currentMenu, this`lastEntryPtr, this`open
      ensures Valid() && open == WithDone(old(open).up, Append(old(open).up.done, One(old(open).entry, old(open).done)))
      ensures Created(open) == Created(old(open)) && AllIds(open) == AllIds(old(open))
    {
      Ended(l, open);
      lastEntryPtr := NextOf(currentMenu);
      currentMenu := l.Parent(currentMenu).value;
      open := WithDone(open.up, Append(open.up.done, One(open.entry, open.done)));
    }
  }

  /** Once all menus are ended the tree is one that menu_finalize and the walk of conf_write accept. */
  lemma {:induction false} BuiltIsOrdered(l: Links, root: Id, kids: Forest)
    requires OpenDistinct(AtRoot(root, kids)) && Leads(l, AtRoot(root, kids), None)
    ensures Ordered(l, One(root, kids)) && l.Parent(root) == None && Created(AtRoot(root, kids)) == Pre(kids)
  {
    assert Ids(Nil) == {};
  }

  // ----- any sequence of calls ---------------------------------------------------------

  datatype Call = AddEntry(id: Id) | AddMenu | EndMenu

  /** How many menus are open after the calls and whether the last one added an entry; None if they do not nest. */
  function Nesting(calls: seq<Call>): Option<(nat, bool)> {
    if calls == [] then Some((0, false))
    else
      var n := Nesting(calls[..|calls| - 1]);
      if n.None? then None
      else
        match calls[|calls| - 1]
        case AddEntry(_) => Some((n.value.0, true))
        case AddMenu => if n.value.1 then Some((n.value.0 + 1, false)) else None
        case EndMenu => if n.value.0 > 0 then Some((n.value.0 - 1, false)) else None
  }

  ghost function Begun(calls: seq<Call>): nat { multiset(calls)[AddMenu] }

  ghost function Finished(calls: seq<Call>): nat { multiset(calls)[EndMenu] }

  /** A menu is opened by its entry's own call alone, and none is ended that is not open. */
  ghost predicate Nests(calls: seq<Call>) {
    && (forall i | 0 <= i < |calls| && calls[i].AddMenu? :: i > 0 && calls[i - 1].AddEntry?)
    && (forall i | 0 <= i <= |calls| :: Finished(calls[..i]) <= Begun(calls[..i]))
  }

  lemma {:induction false} OneMore(init: seq<Call>, c: Call)
    ensures Nests(init + [c]) <==>
      && Nests(init) && (c.AddMenu? ==> init != [] && init[|init| - 1].AddEntry?)
      && Finished(init + [c]) <= Begun(init + [c])
  {
    var calls, n := init + [c], |init|;
    assert calls[..n + 1] == calls;
    forall i | 0 <= i <= n ensures calls[..i] == init[..i] {
      assert calls[..n] == init && calls[..i] == calls[..n][..i];
    }
    if Nests(calls) {
      forall i | 0 <= i < n && init[i].AddMenu? ensures i > 0 && init[i - 1].AddEntry? {
        assert calls[i] == init[i];
      }
      assert c.AddMenu? ==> calls[n].AddMenu?;
      forall i | 0 <= i <= n ensures Finished(init[..i]) <= Begun(init[..i]) {
        assert calls[..i] == init[..i];
      }
    }
  }

  /**
   * Which sequences of calls nest: a menu is only begun right after its own entry was added, and no more are
   * ended than were begun at any time.  How many are open then is the difference.
   */
  lemma {:induction false} NestingExactly(calls: seq<Call>)
    ensures Nesting(calls).Some? <==> Nests(calls)
    ensures Nesting(calls).Some? ==>
      && Nesting(calls).value.0 == Begun(calls) - Finished(calls)
      && (Nesting(calls).value.1 <==> calls != [] && calls[|calls| - 1].AddEntry?)
  {
    if calls != [] {
      var init, c := calls[..|calls| - 1], calls[|calls| - 1];
      NestingExactly(init);
      OneMore(init, c);
      assert calls == init + [c];
      assert Begun(calls) == Begun(init) + if c.AddMenu? then 1 else 0;
      assert Finished(calls) == Finished(init) + if c.EndMenu? then 1 else 0;
    } else {
      assert Begun(calls) == Finished(calls) == 0;
    }
  }

  /** The entries in the order of the calls. */
  function Entries(calls: seq<Call>): seq<Id> {
    if calls == [] then []
    else
      var c := calls[|calls| - 1];
      Entries(calls[..|calls| - 1]) + if c.AddEntry? then [c.id] else []
  }

  function Depth(z: Open): nat { if z.AtRoot? then 0 else 1 + Depth(z.up) }

  function RootOf(z: Open): Id { if z.AtRoot? then z.root else RootOf(z.up) }

  /** Every entry is a new one: malloc returns each struct menu once. */
  predicate AllNew(root: Id, calls: seq<Call>) {
    forall i | 0 <= i < |calls| && calls[i].AddEntry? :: calls[i].id != root && calls[i].id !in Entries(calls[..i])
  }

  /** The last finished entry of the innermost list is the one just added. */
  ghost predicate JustAdded(z: Open, id: Id) { exists before :: z.done == Append(before, One(id, Nil)) }

  /** The builder after some calls. */
  ghost predicate Built(b: Builder, root: Id, calls: seq<Call>)
    reads b
  {
    && b.Valid() && Nesting(calls).Some? && Depth(b.open) == Nesting(calls).value.0 && RootOf(b.open) == root
    && (Nesting(calls).value.1 ==> JustAdded(b.open, b.currentEntry))
    && Created(b.open) == Entries(calls) && (forall i :: i in AllIds(b.open) <==> i == root || i in Entries(calls))
    && (forall i | i !in AllIds(b.open) :: b.l.List(i) == None && b.l.Next(i) == None)
  }

  /**
   * Whatever sequence of calls the grammar makes, as long as menus are opened on the entry just added and
   * every one is ended, the tree that results has its entries in the order of the calls and is one that
   * menu_finalize and the walk of conf_write accept.
   */
  method Build(root: Id, calls: seq<Call>) returns (b: Builder, ghost kids: Forest)
    requires AllNew(root, calls) && Nesting(calls).Some? && Nesting(calls).value.0 == 0
    ensures fresh(b) && Ordered(b.l, One(root, kids)) && b.l.Parent(root) == None && Pre(kids) == Entries(calls)
  {
    b := new Builder(root);
    assert Ids(Nil) == {} && Pre(Nil) == [];
    var k := 0;
    while k < |calls|
      invariant 0 <= k <= |calls| && fresh(b) && Built(b, root, calls[..k])
    {
      NestingPrefix(calls, k + 1);
      assert calls[..k + 1][..k] == calls[..k];
      Do(b, root, calls[..k + 1], calls[k]);
      k := k + 1;
    }
    assert calls[..k] == calls && b.open.AtRoot?;
    kids := b.open.done;
    BuiltIsOrdered(b.l, root, kids);
  }

  lemma {:induction false} NestingPrefix(calls: seq<Call>, k: nat)
    requires Nesting(calls).Some? && k <= |calls|
    ensures Nesting(calls[..k]).Some?
    decreases |calls|
  {
    if k < |calls| {
      var init := calls[..|calls| - 1];
      NestingPrefix(init, k);
      assert init[..k] == calls[..k];
    } else {
      assert calls[..k] == calls;
    }
  }

  /** The last one of the calls. */
  method Do(b: Builder, root: Id, ghost calls: seq<Call>, call: Call)
    requires calls != [] && call == calls[|calls| - 1] && Built(b, root, calls[..|calls| - 1]) && Nesting(calls).Some?
    requires call.AddEntry? ==> call.id != root && call.id !in Entries(calls[..|calls| - 1])
    modifies b
    ensures Built(b, root, calls)
  {
    match call
    case AddEntry(id) =>
      ghost var done := b.open.done;
      b.AddEntry(id);
      SameOpen(old(b.open), Append(done, One(id, Nil)));
    case AddMenu =>
      ghost var before :| b.open.done == Append(before, One(b.currentEntry, Nil));
      SameOpen(b.open, before);
      b.AddMenu(before);
    case EndMenu =>
      SameOpen(b.open.up, Append(b.open.up.done, One(b.open.entry, b.open.done)));
      b.EndMenu();
  }

  lemma {:induction false} SameOpen(z: Open, done: Forest)
    ensures Depth(WithDone(z, done)) == Depth(z) && RootOf(WithDone(z, done)) == RootOf(z)
  {}
}
