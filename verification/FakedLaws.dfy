/** What a stat reports after each request about a file, field by field. */
module FakedLaws {
  import opened Options
  import opened FakedModel

  /** stat of a known file: everything but the link count is what was stored. */
  lemma {:induction false} StatOfKnown(db: Db, st: FakeStat, remote: U32, unknownIsReal: bool)
    requires |db| == HASH_TABLE_SIZE && Lookup(db, st, remote).Some?
    ensures var (n, r) := (Lookup(db, st, remote).value, StatReply(db, st, remote, unknownIsReal));
      && r.dev == n.dev == st.dev && r.ino == n.ino == st.ino && r.nlink == st.nlink
      && r.uid == n.uid && r.gid == n.gid && r.mode == n.mode && r.rdev == n.rdev && r.size == n.size
  {}

  /** stat of an unknown file: as the caller saw it, owned by root unless unknown_is_real is on. */
  lemma {:induction false} StatOfUnknown(db: Db, st: FakeStat, remote: U32, unknownIsReal: bool)
    requires |db| == HASH_TABLE_SIZE && Lookup(db, st, remote).None?
    ensures var r := StatReply(db, st, remote, unknownIsReal);
      && r.dev == st.dev && r.ino == st.ino && r.nlink == st.nlink
      && r.mode == st.mode && r.rdev == st.rdev && r.size == st.size
      && r.uid == (if unknownIsReal then st.uid else 0) && r.gid == (if unknownIsReal then st.gid else 0)
  {}

  /**
   * After a chown that the stat request sees, with any requests for other files in between: the ids are those
   * asked for, or for -1 those that were stored, or root's for a file that was not known; all else stays.
   */
  lemma {:induction false} ChownThenStat(db: Db, m: Msg, between: seq<Msg>, st: FakeStat, unknownIsReal: bool)
    requires |db| == HASH_TABLE_SIZE && m.id == CHOWN_FUNC && SameFile(m.st, m.remote, st, m.remote)
    requires forall q | q in between :: !SameFile(q.st, q.remote, st, m.remote)
    requires Seen(db, m.st, st, m.remote)
    ensures var known := Lookup(db, m.st, m.remote);
      var r := StatReply(RunDb(ProcessDb(db, m), between), st, m.remote, unknownIsReal);
      var before := if known.Some? then known.value else m.st.(uid := 0, gid := 0);
      && r.dev == st.dev && r.ino == st.ino && r.nlink == st.nlink
      && r.mode == before.mode && r.rdev == before.rdev && r.size == before.size
      && r.uid == (if m.st.uid == 0xFFFF_FFFF then before.uid else m.st.uid)
      && r.gid == (if m.st.gid == 0xFFFF_FFFF then before.gid else m.st.gid)
  {
    StatAfterChown(db, m, between, st, unknownIsReal);
  }

  // ----- requests that store a whole node -------------------------------------------------

  /** Overwriting the node that both requests see, and once more by its own key, is seen by the second. */
  lemma {:induction false} StoredIsSeen(db: Db, key: FakeStat, node: FakeStat, st: FakeStat, remote: U32)
    requires |db| == HASH_TABLE_SIZE && Lookup(db, key, remote).Some? && SameFile(key, remote, st, remote)
    requires node.dev == key.dev && node.ino == key.ino && Equal(node, node)
    requires Seen(db, key, st, remote) && Equal(node, st)
    ensures Lookup(InsertOrOverwrite(Overwrite(db, key, remote, node), node, remote), st, remote) == Some(node)
  {
    var b := Hash(key);
    HashOfKey(node, key);
    HashOfKey(st, key);
    var c := db[b];
    var i := FindIn(c, key, remote);
    var c1 := c[i := Node(node, remote)];
    FindBelow(c1, i, node, remote);
    var j := FindIn(c1, node, remote);
    var c2 := c1[j := Node(node, remote)];
    assert j <= i && c[i].remote == remote;
    FindBelow(c2, i, st, remote);
  }

  /** A match at `i` bounds the first one. */
  lemma {:induction false} FindBelow(c: Chain, i: nat, key: FakeStat, remote: U32)
    requires i < |c| && Matches(c[i], key, remote)
    ensures FindIn(c, key, remote) <= i
  {
    if FindIn(c, key, remote) > i {
      assert false;
    }
  }

  /** A node appended for an unknown file is seen by a request that it answers for. */
  lemma {:induction false} NewIsSeen(db: Db, node: FakeStat, st: FakeStat, remote: U32)
    requires |db| == HASH_TABLE_SIZE && Lookup(db, node, remote).None? && SameFile(node, remote, st, remote)
    requires Seen(db, node, st, remote)
    ensures Lookup(InsertOrOverwrite(db, node, remote), st, remote) == Some(node)
  {
    HashOfKey(st, node);
    FindInAppended(db[Hash(node)], Node(node, remote), st, remote);
  }

  lemma {:induction false} Between(db1: Db, between: seq<Msg>, st: FakeStat, remote: U32)
    requires |db1| == HASH_TABLE_SIZE && forall q | q in between :: !SameFile(q.st, q.remote, st, remote)
    ensures Lookup(RunDb(db1, between), st, remote) == Lookup(db1, st, remote)
  {
    ForeignRequests(db1, between, st, remote);
    LookupInFileNodes(db1, st, remote);
    LookupInFileNodes(RunDb(db1, between), st, remote);
  }

  /**
   * A node of another type is only found by a request for a regular file, so the "incompatible" of
   * process_chmod never happens.
   */
  lemma {:induction false} KnownTypesAgree(db: Db, st: FakeStat, remote: U32)
    requires |db| == HASH_TABLE_SIZE && Lookup(db, st, remote).Some?
    ensures var t := Fmt(Lookup(db, st, remote).value.mode); t == Fmt(st.mode) || Fmt(st.mode) == S_IFREG
  {}

  /** What chmod and mknod store for a file that was not known is what is left in the daemon's buffer. */
  lemma {:induction false} NewIsBuffered(db: Db, m: Msg, unknownIsReal: bool)
    requires |db| == HASH_TABLE_SIZE && (m.id == CHMOD_FUNC || m.id == MKNOD_FUNC)
    requires Lookup(db, m.st, m.remote).None?
    ensures var b := Hash(m.st);
      ProcessDb(db, m) == db[b := db[b] + [Node(ProcessBuf(db, m, unknownIsReal).st, m.remote)]]
  {
    var node := m.st.(uid := 0, gid := 0);
    HashOfKey(node, m.st);
    SameKeyFinds(db[Hash(m.st)], m.st, node, m.remote);
  }

  /**
   * After a chmod that the stat request sees, with any requests for other files in between: the bits outside
   * the file type are those asked for.  All else stays, the type too; a file that was not known is root's.
   */
  lemma {:induction false} ChmodThenStat(db: Db, m: Msg, between: seq<Msg>, st: FakeStat, unknownIsReal: bool)
    requires |db| == HASH_TABLE_SIZE && m.id == CHMOD_FUNC && SameFile(m.st, m.remote, st, m.remote)
    requires forall q | q in between :: !SameFile(q.st, q.remote, st, m.remote)
    requires Seen(db, m.st, st, m.remote)
    ensures var known := Lookup(db, m.st, m.remote);
      var r := StatReply(RunDb(ProcessDb(db, m), between), st, m.remote, unknownIsReal);
      && r.dev == st.dev && r.ino == st.ino && r.nlink == st.nlink
      && (known.None? ==>
          r.uid == 0 == r.gid && r.mode == m.st.mode && r.rdev == m.st.rdev && r.size == m.st.size)
      && (known.Some? ==>
          && r.uid == known.value.uid && r.gid == known.value.gid
          && r.rdev == known.value.rdev && r.size == known.value.size
          && r.mode - Fmt(r.mode) == m.st.mode - Fmt(m.st.mode)
          && Fmt(r.mode) == Fmt(known.value.mode))
  {
    var known := Lookup(db, m.st, m.remote);
    Between(ProcessDb(db, m), between, st, m.remote);
    if known.Some? {
      KnownTypesAgree(db, m.st, m.remote);
      var node := known.value.(mode := ChmodMode(known.value.mode, m.st.mode));
      var c := db[Hash(m.st)];
      var i := FindIn(c, m.st, m.remote);
      assert Matches(c[i], m.st, m.remote) && Matches(c[i], st, m.remote);
      StoredIsSeen(db, m.st, node, st, m.remote);
    } else {
      NewNode(db, m, st);
    }
  }

  lemma {:induction false} NewNode(db: Db, m: Msg, st: FakeStat)
    requires |db| == HASH_TABLE_SIZE && Lookup(db, m.st, m.remote).None? && SameFile(m.st, m.remote, st, m.remote)
    requires Seen(db, m.st, st, m.remote)
    ensures var node := m.st.(uid := 0, gid := 0);
      Lookup(InsertOrOverwrite(db, node, m.remote), st, m.remote) == Some(node)
  {
    var node := m.st.(uid := 0, gid := 0);
    HashOfKey(node, m.st);
    SameKeyFinds(db[Hash(m.st)], m.st, node, m.remote);
    NewIsSeen(db, node, st, m.remote);
  }

  /**
   * After a mknod that the stat request sees, and whose node still answers for it: mode and device number are
   * those asked for.  All else stays; a file that was not known is root's.
   */
  lemma {:induction false} MknodThenStat(db: Db, m: Msg, between: seq<Msg>, st: FakeStat, unknownIsReal: bool)
    requires |db| == HASH_TABLE_SIZE && m.id == MKNOD_FUNC && SameFile(m.st, m.remote, st, m.remote)
    requires forall q | q in between :: !SameFile(q.st, q.remote, st, m.remote)
    requires Seen(db, m.st, st, m.remote) && Equal(m.st, st)
    ensures var known := Lookup(db, m.st, m.remote);
      var r := StatReply(RunDb(ProcessDb(db, m), between), st, m.remote, unknownIsReal);
      && r.dev == st.dev && r.ino == st.ino && r.nlink == st.nlink
      && r.mode == m.st.mode && r.rdev == m.st.rdev
      && (known.None? ==> r.uid == 0 == r.gid && r.size == m.st.size)
      && (known.Some? ==> r.uid == known.value.uid && r.gid == known.value.gid && r.size == known.value.size)
  {
    var known := Lookup(db, m.st, m.remote);
    Between(ProcessDb(db, m), between, st, m.remote);
    if known.Some? {
      var node := known.value.(mode := m.st.mode, rdev := m.st.rdev);
      StoredIsSeen(db, m.st, node, st, m.remote);
    } else {
      NewNode(db, m, st);
    }
  }

  /** An unlink of a file that keeps other names, or of a directory that is not empty, changes nothing. */
  lemma {:induction false} UnlinkKeepsLinked(db: Db, m: Msg)
    requires |db| == HASH_TABLE_SIZE && m.id == UNLINK_FUNC
    requires m.st.nlink != 1 && (Fmt(m.st.mode) == S_IFDIR ==> m.st.nlink != 2)
    ensures ProcessDb(db, m) == db
  {}

  /** An unlink of the last name makes a file unknown that has a single node. */
  lemma {:induction false} UnlinkForgets(db: Db, m: Msg, unknownIsReal: bool)
    requires InBuckets(db) && m.id == UNLINK_FUNC
    requires m.st.nlink == 1 || (Fmt(m.st.mode) == S_IFDIR && m.st.nlink == 2)
    requires var c := db[Hash(m.st)]; forall i, j | 0 <= i < j < |c| ::
      !(SameFile(c[i].buf, c[i].remote, m.st, m.remote) && SameFile(c[j].buf, c[j].remote, m.st, m.remote))
    ensures Lookup(ProcessDb(db, m), m.st, m.remote).None?
  {
    if Lookup(db, m.st, m.remote).Some? {
      UnlinkExactly(db, m);
    }
  }
}
