/** The database of the fakeroot daemon as a value: buckets of nodes, and what each request does to it. */
module FakedModel {
  import opened Options

  type U32 = x: int | 0 <= x < 0x1_0000_0000
  type U64 = x: int | 0 <= x < 0x1_0000_0000_0000_0000

  const TWO64: int := 0x1_0000_0000_0000_0000

  /** (uint32_t)-1: "leave this id unchanged" in chown. */
  const UNCHANGED: U32 := 0xFFFF_FFFF

  /** struct fakestat of message.h. */
  datatype FakeStat = FakeStat(uid: U32, gid: U32, ino: U64, dev: U64, rdev: U64, mode: U32, nlink: U32, size: U64)

  /** data_node_t without its link. */
  datatype Node = Node(buf: FakeStat, remote: U32)

  const S_IFCHR: U32 := 0x2000
  const S_IFDIR: U32 := 0x4000
  const S_IFBLK: U32 := 0x6000
  const S_IFREG: U32 := 0x8000

  /** mode & S_IFMT, the mask being 0xF000. */
  function Fmt(mode: U32): (f: U32)
    ensures f <= mode
    ensures f % 0x1000 == 0 && f / 0x1000 == mode / 0x1000 % 16
  {
    mode / 0x1000 % 16 * 0x1000
  }

  /** (mode & ~S_IFMT) | (type & S_IFMT) */
  function WithFmt(mode: U32, typ: U32): (m: U32)
    ensures Fmt(m) == Fmt(typ) && m - Fmt(m) == mode - Fmt(mode)
  {
    FmtDigits(mode / 0x10000, typ / 0x1000 % 16, mode % 0x1000);
    FmtDigits(mode / 0x10000, mode / 0x1000 % 16, mode % 0x1000);
    assert mode == mode / 0x10000 * 0x10000 + mode / 0x1000 % 16 * 0x1000 + mode % 0x1000;
    mode / 0x10000 * 0x10000 + typ / 0x1000 % 16 * 0x1000 + mode % 0x1000
  }

  lemma {:induction false} FmtDigits(high: int, f: int, low: int)
    requires 0 <= high < 0x10000 && 0 <= f < 16 && 0 <= low < 0x1000
    ensures 0 <= high * 0x10000 + f * 0x1000 + low < 0x1_0000_0000
    ensures Fmt(high * 0x10000 + f * 0x1000 + low) == f * 0x1000
  {
    assert (high * 0x10000 + f * 0x1000 + low) / 0x1000 == high * 16 + f;
  }

  /** fakestat_equal: asymmetric, a device node in the database also answers for an empty regular file. */
  predicate Equal(hashed: FakeStat, key: FakeStat) {
    && hashed.dev == key.dev && hashed.ino == key.ino
    && (|| Fmt(hashed.mode) == Fmt(key.mode)
        || ((Fmt(hashed.mode) == S_IFCHR || Fmt(hashed.mode) == S_IFBLK) && Fmt(key.mode) == S_IFREG && key.size == 0))
  }

  predicate Matches(n: Node, key: FakeStat, remote: U32) { Equal(n.buf, key) && n.remote == remote }

  const HASH_TABLE_SIZE: nat := 10009
  const HASH_DEV_MULTIPLIER: nat := 8328

  /** data_hash_val, in wrapping 64-bit arithmetic. */
  function Hash(key: FakeStat): (h: nat)
    ensures h < HASH_TABLE_SIZE
  {
    (key.dev * HASH_DEV_MULTIPLIER + key.ino) % TWO64 % HASH_TABLE_SIZE
  }

  type Chain = seq<Node>
  type Db = seq<Chain>

  /** Every node is in the bucket of its own hash. */
  ghost predicate InBuckets(db: Db) {
    |db| == HASH_TABLE_SIZE &&
    forall b, i | 0 <= b < |db| && 0 <= i < |db[b]| :: Hash(db[b][i].buf) == b
  }

  /** The first match in a chain, or its length. */
  function FindIn(c: Chain, key: FakeStat, remote: U32): (i: nat)
    ensures i <= |c|
    ensures i < |c| ==> Matches(c[i], key, remote)
    ensures forall j | 0 <= j < i :: !Matches(c[j], key, remote)
  {
    if c == [] then 0
    else if Matches(c[0], key, remote) then 0
    else 1 + FindIn(c[1..], key, remote)
  }

  /** data_find: the node's content. */
  function Lookup(db: Db, key: FakeStat, remote: U32): (r: Option<FakeStat>)
    requires |db| == HASH_TABLE_SIZE
  {
    var c := db[Hash(key)];
    var i := FindIn(c, key, remote);
    if i < |c| then Some(c[i].buf) else None
  }

  /** memcpy over the content of node `i` of bucket `b`. */
  function Write(db: Db, b: nat, i: nat, st: FakeStat): Db
    requires b < |db| && i < |db[b]|
  {
    db[b := db[b][i := Node(st, db[b][i].remote)]]
  }

  /** Write `st` over the node that `key` finds. */
  function Overwrite(db: Db, key: FakeStat, remote: U32, st: FakeStat): Db
    requires |db| == HASH_TABLE_SIZE && Lookup(db, key, remote).Some?
  {
    Write(db, Hash(key), FindIn(db[Hash(key)], key, remote), st)
  }

  /** data_insert: overwrite the first match, else append to the chain. */
  function Insert(db: Db, st: FakeStat, remote: U32): Db
    requires |db| == HASH_TABLE_SIZE
  {
    var b := Hash(st);
    var i := FindIn(db[b], st, remote);
    db[b := if i < |db[b]| then db[b][i := Node(st, remote)] else db[b] + [Node(st, remote)]]
  }

  /** data_erase of node `i` of bucket `b`. */
  function Erase(db: Db, b: nat, i: nat): Db
    requires b < |db| && i < |db[b]|
  {
    db[b := db[b][..i] + db[b][i + 1..]]
  }

  /** insert_or_overwrite */
  function InsertOrOverwrite(db: Db, st: FakeStat, remote: U32): Db
    requires |db| == HASH_TABLE_SIZE
  {
    if Lookup(db, st, remote).None? then Insert(db, st, remote) else Overwrite(db, st, remote, st)
  }

  // ----- requests --------------------------------------------------------------

  /** struct fake_msg: the function id, the sender and its serial number, the file, the remote id. */
  datatype Msg = Msg(id: nat, pid: int, serial: int, st: FakeStat, remote: U32)

  const CHOWN_FUNC: nat := 0
  const CHMOD_FUNC: nat := 1
  const MKNOD_FUNC: nat := 2
  const STAT_FUNC: nat := 3
  const UNLINK_FUNC: nat := 4

  /** The number of entries of func_arr, and highest_funcid, which is computed as just that. */
  const FUNCTIONS: nat := 5
  const HIGHEST_FUNCID: nat := FUNCTIONS

  /** process_msg asks for `f <= highest_funcid`; its lookup is defined when the table has such an entry. */
  predicate Defined(id: nat) { id <= HIGHEST_FUNCID ==> id < FUNCTIONS }

  /** So it is for every id but one. */
  lemma {:induction false} DefinedExactly(id: nat)
    ensures Defined(id) <==> id != FUNCTIONS
  {}

  function KeepId(old_: U32, new_: U32): U32 { if new_ != UNCHANGED then new_ else old_ }

  function ChownDb(db: Db, m: Msg): Db
    requires |db| == HASH_TABLE_SIZE
  {
    var known := Lookup(db, m.st, m.remote);
    if known.Some? then
      var st := known.value;
      Overwrite(db, m.st, m.remote, st.(uid := KeepId(st.uid, m.st.uid), gid := KeepId(st.gid, m.st.gid)))
    else
      InsertOrOverwrite(db, m.st.(uid := KeepId(0, m.st.uid), gid := KeepId(0, m.st.gid)), m.remote)
  }

  /**
   * The mode that chmod stores.  The source also asks `!st->mode&(S_IFBLK|S_IFCHR)`; as `!` binds
   * first, that operand is 0 or 1 and the conjunction always 0.
   */
  function ChmodMode(stored: U32, wanted: U32): U32 {
    if Fmt(wanted) != Fmt(stored) && Fmt(wanted) != S_IFREG then wanted else WithFmt(wanted, stored)
  }

  function ChmodDb(db: Db, m: Msg): Db
    requires |db| == HASH_TABLE_SIZE
  {
    var known := Lookup(db, m.st, m.remote);
    if known.Some? then
      var st := known.value.(mode := ChmodMode(known.value.mode, m.st.mode));
      InsertOrOverwrite(Overwrite(db, m.st, m.remote, st), st, m.remote)
    else InsertOrOverwrite(db, m.st.(uid := 0, gid := 0), m.remote)
  }

  function MknodDb(db: Db, m: Msg): Db
    requires |db| == HASH_TABLE_SIZE
  {
    var known := Lookup(db, m.st, m.remote);
    if known.Some? then
      var st := known.value.(mode := m.st.mode, rdev := m.st.rdev);
      InsertOrOverwrite(Overwrite(db, m.st, m.remote, st), st, m.remote)
    else InsertOrOverwrite(db, m.st.(uid := 0, gid := 0), m.remote)
  }

  predicate LastLink(st: FakeStat) { st.nlink == 1 || (Fmt(st.mode) == S_IFDIR && st.nlink == 2) }

  function UnlinkDb(db: Db, m: Msg): Db
    requires |db| == HASH_TABLE_SIZE
  {
    if LastLink(m.st) && Lookup(db, m.st, m.remote).Some? then
      Erase(db, Hash(m.st), FindIn(db[Hash(m.st)], m.st, m.remote))
    else db
  }

  /** cpyfakefake: everything but nlink. */
  function CopyFake(dest: FakeStat, source: FakeStat): FakeStat { source.(nlink := dest.nlink) }

  /** What process_stat answers about a file. */
  function StatReply(db: Db, st: FakeStat, remote: U32, unknownIsReal: bool): (r: FakeStat)
    requires |db| == HASH_TABLE_SIZE
    ensures r.dev == st.dev && r.ino == st.ino && r.nlink == st.nlink
  {
    var known := Lookup(db, st, remote);
    if known.Some? then CopyFake(st, known.value)
    else if unknownIsReal then st else st.(uid := 0, gid := 0)
  }

  /** process_msg on the database; ids beyond the table of functions are ignored. */
  function ProcessDb(db: Db, m: Msg): Db
    requires |db| == HASH_TABLE_SIZE
  {
    if m.id == CHOWN_FUNC then ChownDb(db, m)
    else if m.id == CHMOD_FUNC then ChmodDb(db, m)
    else if m.id == MKNOD_FUNC then MknodDb(db, m)
    else if m.id == UNLINK_FUNC then UnlinkDb(db, m)
    else db
  }

  /** What processing leaves in the daemon's message buffer; for a stat request this is also what is sent. */
  function ProcessBuf(db: Db, m: Msg, unknownIsReal: bool): Msg
    requires |db| == HASH_TABLE_SIZE
  {
    if m.id == STAT_FUNC then m.(st := StatReply(db, m.st, m.remote, unknownIsReal))
    else if (m.id == CHMOD_FUNC || m.id == MKNOD_FUNC) && Lookup(db, m.st, m.remote).None? then
      m.(st := m.st.(uid := 0, gid := 0))
    else m
  }

  // ----- every node stays where its hash says --------------------------------------

  lemma {:induction false} HashOfKey(st: FakeStat, key: FakeStat)
    requires st.dev == key.dev && st.ino == key.ino
    ensures Hash(st) == Hash(key)
  {}

  lemma {:induction false} WriteInBuckets(db: Db, b: nat, i: nat, st: FakeStat)
    requires InBuckets(db) && b < |db| && i < |db[b]|
    requires st.dev == db[b][i].buf.dev && st.ino == db[b][i].buf.ino
    ensures InBuckets(Write(db, b, i, st))
  {
    HashOfKey(st, db[b][i].buf);
  }

  lemma {:induction false} InsertInBuckets(db: Db, st: FakeStat, remote: U32)
    requires InBuckets(db)
    ensures InBuckets(Insert(db, st, remote))
  {}

  lemma {:induction false} OverwriteInBuckets(db: Db, key: FakeStat, remote: U32, st: FakeStat)
    requires InBuckets(db) && Lookup(db, key, remote).Some? && st.dev == key.dev && st.ino == key.ino
    ensures InBuckets(Overwrite(db, key, remote, st))
  {
    WriteInBuckets(db, Hash(key), FindIn(db[Hash(key)], key, remote), st);
  }

  lemma {:induction false} InsertOrOverwriteInBuckets(db: Db, st: FakeStat, remote: U32)
    requires InBuckets(db)
    ensures InBuckets(InsertOrOverwrite(db, st, remote))
  {
    if Lookup(db, st, remote).Some? {
      OverwriteInBuckets(db, st, remote, st);
    } else {
      InsertInBuckets(db, st, remote);
    }
  }

  /** Every request, including its in-place overwrites, keeps each node in the bucket of its own hash. */
  lemma {:induction false} ProcessInBuckets(db: Db, m: Msg)
    requires InBuckets(db)
    ensures InBuckets(ProcessDb(db, m))
  {
    var known := Lookup(db, m.st, m.remote);
    if m.id == CHOWN_FUNC || m.id == CHMOD_FUNC || m.id == MKNOD_FUNC {
      if known.Some? {
        var st := if m.id == CHMOD_FUNC then known.value.(mode := ChmodMode(known.value.mode, m.st.mode))
                  else if m.id == MKNOD_FUNC then known.value.(mode := m.st.mode, rdev := m.st.rdev)
                  else known.value.(uid := KeepId(known.value.uid, m.st.uid), gid := KeepId(known.value.gid, m.st.gid));
        OverwriteInBuckets(db, m.st, m.remote, st);
        InsertOrOverwriteInBuckets(Overwrite(db, m.st, m.remote, st), st, m.remote);
      } else {
        InsertOrOverwriteInBuckets(db, m.st.(uid := KeepId(0, m.st.uid), gid := KeepId(0, m.st.gid)), m.remote);
        InsertOrOverwriteInBuckets(db, m.st.(uid := 0, gid := 0), m.remote);
      }
    }
  }

  /** Searching one bucket finds a match exactly when a scan of the whole table would. */
  lemma {:induction false} LookupIsScan(db: Db, key: FakeStat, remote: U32)
    requires InBuckets(db)
    ensures Lookup(db, key, remote).Some? <==>
      exists b, i :: 0 <= b < |db| && 0 <= i < |db[b]| && Matches(db[b][i], key, remote)
  {
    if b, i :| 0 <= b < |db| && 0 <= i < |db[b]| && Matches(db[b][i], key, remote) {
      HashOfKey(db[b][i].buf, key);
    }
  }

  // ----- one file, independently of all others --------------------------------------

  /** The nodes of a chain that belong to one (dev, ino, remote), in chain order. */
  function NodesOf(c: Chain, dev: U64, ino: U64, remote: U32): Chain {
    if c == [] then []
    else
      var rest := NodesOf(c[1..], dev, ino, remote);
      if c[0].buf.dev == dev && c[0].buf.ino == ino && c[0].remote == remote then [c[0]] + rest else rest
  }

  /** What the database knows about the file of a request. */
  function FileNodes(db: Db, key: FakeStat, remote: U32): Chain
    requires |db| == HASH_TABLE_SIZE
  {
    NodesOf(db[Hash(key)], key.dev, key.ino, remote)
  }

  /** A lookup depends on nothing but the nodes of its own file. */
  lemma {:induction false} FindInNodesOf(c: Chain, key: FakeStat, remote: U32)
    ensures var own := NodesOf(c, key.dev, key.ino, remote);
      && (FindIn(c, key, remote) < |c| <==> FindIn(own, key, remote) < |own|)
      && (FindIn(c, key, remote) < |c| ==> c[FindIn(c, key, remote)] == own[FindIn(own, key, remote)])
  {
    if c != [] && !Matches(c[0], key, remote) {
      FindInNodesOf(c[1..], key, remote);
      var rest := NodesOf(c[1..], key.dev, key.ino, remote);
      assert ([c[0]] + rest)[1..] == rest;
    }
  }

  lemma {:induction false} LookupInFileNodes(db: Db, key: FakeStat, remote: U32)
    requires |db| == HASH_TABLE_SIZE
    ensures var own := FileNodes(db, key, remote);
      var i := FindIn(own, key, remote);
      Lookup(db, key, remote) == if i < |own| then Some(own[i].buf) else None
  {
    FindInNodesOf(db[Hash(key)], key, remote);
  }

  lemma {:induction false} NodesOfAppend(a: Chain, b: Chain, dev: U64, ino: U64, remote: U32)
    ensures NodesOf(a + b, dev, ino, remote) == NodesOf(a, dev, ino, remote) + NodesOf(b, dev, ino, remote)
  {
    if a == [] {
      assert a + b == b;
    } else {
      assert (a + b)[1..] == a[1..] + b;
      NodesOfAppend(a[1..], b, dev, ino, remote);
    }
  }

  predicate SameFile(a: FakeStat, ra: U32, b: FakeStat, rb: U32) { a.dev == b.dev && a.ino == b.ino && ra == rb }

  /** Splitting a chain at one node. */
  lemma {:induction false} NodesOfAt(c: Chain, i: nat, dev: U64, ino: U64, remote: U32)
    requires i < |c|
    ensures NodesOf(c, dev, ino, remote) ==
      NodesOf(c[..i], dev, ino, remote) + NodesOf([c[i]], dev, ino, remote) + NodesOf(c[i + 1..], dev, ino, remote)
  {
    assert c == c[..i] + [c[i]] + c[i + 1..];
    NodesOfAppend(c[..i] + [c[i]], c[i + 1..], dev, ino, remote);
    NodesOfAppend(c[..i], [c[i]], dev, ino, remote);
  }

  /** Writing, appending and erasing nodes of another file leave a file's own nodes alone. */
  lemma {:induction false} ForeignWrite(db: Db, b: nat, i: nat, st: FakeStat, key: FakeStat, remote: U32)
    requires |db| == HASH_TABLE_SIZE && b < |db| && i < |db[b]|
    requires !SameFile(db[b][i].buf, db[b][i].remote, key, remote) && !SameFile(st, db[b][i].remote, key, remote)
    ensures FileNodes(Write(db, b, i, st), key, remote) == FileNodes(db, key, remote)
  {
    if b == Hash(key) {
      var c, c' := db[b], Write(db, b, i, st)[b];
      NodesOfAt(c, i, key.dev, key.ino, remote);
      NodesOfAt(c', i, key.dev, key.ino, remote);
      assert c'[..i] == c[..i] && c'[i + 1..] == c[i + 1..];
    }
  }

  lemma {:induction false} ForeignErase(db: Db, b: nat, i: nat, key: FakeStat, remote: U32)
    requires |db| == HASH_TABLE_SIZE && b < |db| && i < |db[b]|
    requires !SameFile(db[b][i].buf, db[b][i].remote, key, remote)
    ensures FileNodes(Erase(db, b, i), key, remote) == FileNodes(db, key, remote)
  {
    if b == Hash(key) {
      NodesOfAt(db[b], i, key.dev, key.ino, remote);
      NodesOfAppend(db[b][..i], db[b][i + 1..], key.dev, key.ino, remote);
    }
  }

  lemma {:induction false} ForeignInsertOrOverwrite(db: Db, st: FakeStat, r: U32, key: FakeStat, remote: U32)
    requires |db| == HASH_TABLE_SIZE && !SameFile(st, r, key, remote)
    ensures FileNodes(InsertOrOverwrite(db, st, r), key, remote) == FileNodes(db, key, remote)
  {
    var b := Hash(st);
    var i := FindIn(db[b], st, r);
    if i < |db[b]| {
      ForeignWrite(db, b, i, st, key, remote);
    } else {
      NodesOfAppend(db[b], [Node(st, r)], key.dev, key.ino, remote);
    }
  }

  lemma {:induction false} ForeignOverwrite(db: Db, k: FakeStat, r: U32, st: FakeStat, key: FakeStat, remote: U32)
    requires |db| == HASH_TABLE_SIZE && Lookup(db, k, r).Some? && !SameFile(k, r, key, remote)
    requires st.dev == k.dev && st.ino == k.ino
    ensures FileNodes(Overwrite(db, k, r, st), key, remote) == FileNodes(db, key, remote)
  {
    ForeignWrite(db, Hash(k), FindIn(db[Hash(k)], k, r), st, key, remote);
  }

  /** A request for one file changes nothing that the database knows about another. */
  lemma {:induction false} ForeignRequest(db: Db, m: Msg, key: FakeStat, remote: U32)
    requires |db| == HASH_TABLE_SIZE && !SameFile(m.st, m.remote, key, remote)
    ensures FileNodes(ProcessDb(db, m), key, remote) == FileNodes(db, key, remote)
  {
    var known := Lookup(db, m.st, m.remote);
    if m.id == CHOWN_FUNC || m.id == CHMOD_FUNC || m.id == MKNOD_FUNC {
      if known.Some? {
        var st := if m.id == CHMOD_FUNC then known.value.(mode := ChmodMode(known.value.mode, m.st.mode))
                  else if m.id == MKNOD_FUNC then known.value.(mode := m.st.mode, rdev := m.st.rdev)
                  else known.value.(uid := KeepId(known.value.uid, m.st.uid), gid := KeepId(known.value.gid, m.st.gid));
        ForeignOverwrite(db, m.st, m.remote, st, key, remote);
        ForeignInsertOrOverwrite(Overwrite(db, m.st, m.remote, st), st, m.remote, key, remote);
      } else {
        ForeignInsertOrOverwrite(db, m.st.(uid := KeepId(0, m.st.uid), gid := KeepId(0, m.st.gid)), m.remote, key,
            remote);
        ForeignInsertOrOverwrite(db, m.st.(uid := 0, gid := 0), m.remote, key, remote);
      }
    } else if m.id == UNLINK_FUNC && LastLink(m.st) && known.Some? {
      ForeignErase(db, Hash(m.st), FindIn(db[Hash(m.st)], m.st, m.remote), key, remote);
    }
  }

  /** The database after a run of requests. */
  function RunDb(db: Db, ms: seq<Msg>): Db
    requires |db| == HASH_TABLE_SIZE
    ensures |RunDb(db, ms)| == HASH_TABLE_SIZE
    decreases |ms|
  {
    if ms == [] then db else ProcessDb(RunDb(db, ms[..|ms| - 1]), ms[|ms| - 1])
  }

  lemma {:induction false} ForeignRequests(db: Db, ms: seq<Msg>, key: FakeStat, remote: U32)
    requires |db| == HASH_TABLE_SIZE && forall m | m in ms :: !SameFile(m.st, m.remote, key, remote)
    ensures FileNodes(RunDb(db, ms), key, remote) == FileNodes(db, key, remote)
    decreases |ms|
  {
    if ms != [] {
      ForeignRequests(db, ms[..|ms| - 1], key, remote);
      ForeignRequest(RunDb(db, ms[..|ms| - 1]), ms[|ms| - 1], key, remote);
    }
  }

  /** Two requests that the lookup cannot tell apart: one file, one type, both or neither empty. */
  predicate SameKey(a: FakeStat, b: FakeStat) {
    a.dev == b.dev && a.ino == b.ino && Fmt(a.mode) == Fmt(b.mode) && (a.size == 0 <==> b.size == 0)
  }

  lemma {:induction false} SameKeyFinds(c: Chain, a: FakeStat, b: FakeStat, remote: U32)
    requires SameKey(a, b)
    ensures FindIn(c, a, remote) == FindIn(c, b, remote)
  {
    if c != [] {
      SameKeyFinds(c[1..], a, b, remote);
    }
  }

  /** What is found does not depend on the ids that a node holds. */
  lemma {:induction false} FindIgnoresIds(c: Chain, i: nat, uid: U32, gid: U32, key: FakeStat, remote: U32)
    requires i < |c|
    ensures FindIn(c[i := Node(c[i].buf.(uid := uid, gid := gid), c[i].remote)], key, remote) == FindIn(c, key, remote)
  {
    var c' := c[i := Node(c[i].buf.(uid := uid, gid := gid), c[i].remote)];
    if i > 0 {
      assert c'[1..] == c[1..][i - 1 := Node(c[i].buf.(uid := uid, gid := gid), c[i].remote)];
      FindIgnoresIds(c[1..], i - 1, uid, gid, key, remote);
    } else {
      assert c'[1..] == c[1..];
    }
  }

  lemma {:induction false} FindInAppended(c: Chain, n: Node, key: FakeStat, remote: U32)
    ensures FindIn(c + [n], key, remote) ==
      if FindIn(c, key, remote) < |c| then FindIn(c, key, remote)
      else if Matches(n, key, remote) then |c| else |c| + 1
  {
    if c != [] {
      assert (c + [n])[1..] == c[1..] + [n];
      FindInAppended(c[1..], n, key, remote);
    } else {
      assert c + [n] == [n];
    }
  }

  /**
   * The stat request `st` will be answered from the node that the chown request `key` writes: both find
   * the same node, or neither finds one and the new node matches.  All of it can be read off the chain
   * before the chown.
   */
  predicate Seen(db: Db, key: FakeStat, st: FakeStat, remote: U32)
    requires |db| == HASH_TABLE_SIZE
  {
    var c := db[Hash(key)];
    && FindIn(c, key, remote) == FindIn(c, st, remote)
    && (FindIn(c, key, remote) == |c| ==> Equal(key, st))
  }

  /** The node that a chown request writes, before its ids are set. */
  function ChownBase(db: Db, m: Msg): FakeStat
    requires |db| == HASH_TABLE_SIZE
  {
    var known := Lookup(db, m.st, m.remote);
    if known.Some? then known.value else m.st.(uid := 0, gid := 0)
  }

  /** What a later request for the same file finds after a chown. */
  lemma {:induction false} ChownLookup(db: Db, m: Msg, st: FakeStat)
    requires |db| == HASH_TABLE_SIZE && m.id == CHOWN_FUNC && m.st.dev == st.dev && m.st.ino == st.ino
    ensures var base := ChownBase(db, m);
      Lookup(ProcessDb(db, m), st, m.remote) ==
        if Seen(db, m.st, st, m.remote)
        then Some(base.(uid := KeepId(base.uid, m.st.uid), gid := KeepId(base.gid, m.st.gid)))
        else Lookup(db, st, m.remote)
  {
    HashOfKey(st, m.st);
    var c, r := db[Hash(m.st)], m.remote;
    var i := FindIn(c, m.st, r);
    if i < |c| {
      var uid, gid := KeepId(c[i].buf.uid, m.st.uid), KeepId(c[i].buf.gid, m.st.gid);
      FindIgnoresIds(c, i, uid, gid, st, r);
    } else {
      var new_ := m.st.(uid := KeepId(0, m.st.uid), gid := KeepId(0, m.st.gid));
      HashOfKey(new_, m.st);
      SameKeyFinds(c, m.st, new_, r);
      FindInAppended(c, Node(new_, r), st, r);
    }
  }

  /** The id a stat reports after a chown asked for `wanted`, when it would have reported `before`. */
  function ExpectedId(before: U32, wanted: U32): U32 { if wanted == UNCHANGED then before else wanted }

  /**
   * stat after a chown of the same file, whatever requests for other files come in between: the node that
   * the chown wrote if the stat request can see it, and otherwise what it would have been before.
   */
  lemma {:induction false} StatAfterChown(db: Db, chown: Msg, between: seq<Msg>, st: FakeStat, unknownIsReal: bool)
    requires |db| == HASH_TABLE_SIZE && chown.id == CHOWN_FUNC && SameFile(chown.st, chown.remote, st, chown.remote)
    requires forall m | m in between :: !SameFile(m.st, m.remote, st, chown.remote)
    ensures var base := ChownBase(db, chown);
      StatReply(RunDb(ProcessDb(db, chown), between), st, chown.remote, unknownIsReal) ==
        if Seen(db, chown.st, st, chown.remote)
        then CopyFake(st, base.(uid := KeepId(base.uid, chown.st.uid), gid := KeepId(base.gid, chown.st.gid)))
        else StatReply(db, st, chown.remote, unknownIsReal)
  {
    var r := chown.remote;
    var db1 := ProcessDb(db, chown);
    ChownLookup(db, chown, st);
    ForeignRequests(db1, between, st, r);
    LookupInFileNodes(db1, st, r);
    LookupInFileNodes(RunDb(db1, between), st, r);
  }

  /** stat reports the ids chown set, or where it passed -1 the id stat would have reported before. */
  predicate ChownIsReported(db: Db, chown: Msg, between: seq<Msg>, st: FakeStat, unknownIsReal: bool)
    requires |db| == HASH_TABLE_SIZE
  {
    var before := StatReply(db, st, chown.remote, unknownIsReal);
    var after := StatReply(RunDb(ProcessDb(db, chown), between), st, chown.remote, unknownIsReal);
    after.uid == ExpectedId(before.uid, chown.st.uid) && after.gid == ExpectedId(before.gid, chown.st.gid)
  }

  function WithIds(m: Msg, uid: U32, gid: U32): Msg { m.(st := m.st.(uid := uid, gid := gid)) }

  lemma {:induction false} WithIdsIsSeen(db: Db, chown: Msg, uid: U32, gid: U32, st: FakeStat)
    requires |db| == HASH_TABLE_SIZE
    ensures Seen(db, WithIds(chown, uid, gid).st, st, chown.remote) <==> Seen(db, chown.st, st, chown.remote)
    ensures Lookup(db, WithIds(chown, uid, gid).st, chown.remote) == Lookup(db, chown.st, chown.remote)
  {
    HashOfKey(WithIds(chown, uid, gid).st, chown.st);
    SameKeyFinds(db[Hash(chown.st)], WithIds(chown, uid, gid).st, chown.st, chown.remote);
  }

  /**
   * For every pair of ids that a chown may pass, the later stat reports them, if and only if the stat
   * request sees the node the chown writes and, with unknown_is_real on, the file was known or root's.
   */
  lemma {:induction false} ChownIsReportedExactly(db: Db, chown: Msg, between: seq<Msg>, st: FakeStat,
      unknownIsReal: bool)
    requires |db| == HASH_TABLE_SIZE && chown.id == CHOWN_FUNC && SameFile(chown.st, chown.remote, st, chown.remote)
    requires forall m | m in between :: !SameFile(m.st, m.remote, st, chown.remote)
    ensures
      (forall uid: U32, gid: U32 :: ChownIsReported(db, WithIds(chown, uid, gid), between, st, unknownIsReal)) <==>
      Seen(db, chown.st, st, chown.remote)
      && (!unknownIsReal || Lookup(db, st, chown.remote).Some? || (st.uid == 0 && st.gid == 0))
  {
    HashOfKey(st, chown.st);
    var before := StatReply(db, st, chown.remote, unknownIsReal);
    forall uid: U32, gid: U32
      ensures var m := WithIds(chown, uid, gid); var base := ChownBase(db, m);
        StatReply(RunDb(ProcessDb(db, m), between), st, chown.remote, unknownIsReal) ==
          if Seen(db, chown.st, st, chown.remote)
          then CopyFake(st, base.(uid := KeepId(base.uid, uid), gid := KeepId(base.gid, gid))) else before
    {
      StatAfterChown(db, WithIds(chown, uid, gid), between, st, unknownIsReal);
      WithIdsIsSeen(db, chown, uid, gid, st);
    }
    var other: U32 := if before.uid == 0 then 1 else 0;
    assert !Seen(db, chown.st, st, chown.remote) ==>
      !ChownIsReported(db, WithIds(chown, other, 0), between, st, unknownIsReal);
    WithIdsIsSeen(db, chown, UNCHANGED, UNCHANGED, st);
    assert Seen(db, chown.st, st, chown.remote) && unknownIsReal && Lookup(db, st, chown.remote).None?
      && !(st.uid == 0 && st.gid == 0)
      ==> !ChownIsReported(db, WithIds(chown, UNCHANGED, UNCHANGED), between, st, unknownIsReal);
    if Seen(db, chown.st, st, chown.remote) {
      forall uid: U32, gid: U32
        | !unknownIsReal || Lookup(db, st, chown.remote).Some? || (st.uid == 0 && st.gid == 0)
        ensures ChownIsReported(db, WithIds(chown, uid, gid), between, st, unknownIsReal)
      {
        WithIdsIsSeen(db, chown, uid, gid, st);
      }
    }
  }

  predicate IsDevice(st: FakeStat) { Fmt(st.mode) == S_IFCHR || Fmt(st.mode) == S_IFBLK }

  /** Without a device node of the file in the chain, requests with the same type see each other's node. */
  lemma {:induction false} SameTypeIsSeen(db: Db, key: FakeStat, st: FakeStat, remote: U32)
    requires |db| == HASH_TABLE_SIZE && key.dev == st.dev && key.ino == st.ino && Fmt(key.mode) == Fmt(st.mode)
    requires forall n | n in db[Hash(key)] && SameFile(n.buf, n.remote, key, remote) :: !IsDevice(n.buf)
    ensures Seen(db, key, st, remote)
  {
    SameTypeFinds(db[Hash(key)], key, st, remote);
  }

  lemma {:induction false} SameTypeFinds(c: Chain, key: FakeStat, st: FakeStat, remote: U32)
    requires key.dev == st.dev && key.ino == st.ino && Fmt(key.mode) == Fmt(st.mode)
    requires forall n | n in c && SameFile(n.buf, n.remote, key, remote) :: !IsDevice(n.buf)
    ensures FindIn(c, key, remote) == FindIn(c, st, remote)
  {
    if c != [] {
      assert c[0] in c;
      assert Matches(c[0], key, remote) <==> Matches(c[0], st, remote);
      forall n | n in c[1..] ensures n in c {}
      SameTypeFinds(c[1..], key, st, remote);
    }
  }

  /** Nor does a request with the same key miss it. */
  lemma {:induction false} SameKeyIsSeen(db: Db, key: FakeStat, st: FakeStat, remote: U32)
    requires |db| == HASH_TABLE_SIZE && SameKey(key, st)
    ensures Seen(db, key, st, remote)
  {
    SameKeyFinds(db[Hash(key)], key, st, remote);
  }

  /**
   * A file that was once a device: a chown that comes in while it is empty is stored in the device's
   * node, and once the file has a size a stat finds nothing and reports root, with unknown_is_real off.
   */
  lemma {:induction false} GrownFileLosesOwner() returns (old_: Msg, chown: Msg, st: FakeStat)
    ensures var db := RunDb(seq(HASH_TABLE_SIZE, _ => []), [old_]);
      && old_.id == CHOWN_FUNC && chown.id == CHOWN_FUNC && SameFile(chown.st, chown.remote, st, 0)
      && Fmt(chown.st.mode) == Fmt(st.mode) && chown.st.uid == 5
      && StatReply(ProcessDb(db, chown), st, 0, false).uid == 0
  {
    var reg := FakeStat(0, 0, 7, 0, 0, S_IFREG, 1, 0);
    var dev := reg.(mode := S_IFCHR);
    old_, chown, st := Msg(CHOWN_FUNC, 0, 0, dev, 0), Msg(CHOWN_FUNC, 0, 0, reg.(uid := 5), 0), reg.(size := 9);
    var empty: Db := seq(HASH_TABLE_SIZE, _ => []);
    assert [old_][..0] == [] && RunDb(empty, []) == empty;
    var db := RunDb(empty, [old_]);
    assert db == ProcessDb(empty, old_);
    HashOfKey(dev, st);
    HashOfKey(chown.st, st);
    var c := db[Hash(st)];
    assert c == [Node(dev, 0)];
    assert FindIn(c, chown.st, 0) == 0;
    assert c[1..] == [] && FindIn([], st, 0) == 0;
    assert FindIn(c, st, 0) == 1;
    assert RunDb(ProcessDb(db, chown), []) == ProcessDb(db, chown);
    StatAfterChown(db, chown, [], st, false);
  }

  // ----- unlink -----------------------------------------------------------------

  lemma {:induction false} FindNone(c: Chain, key: FakeStat, remote: U32)
    ensures FindIn(c, key, remote) == |c| <==> forall j | 0 <= j < |c| :: !Matches(c[j], key, remote)
  {
    if c != [] {
      FindNone(c[1..], key, remote);
      assert forall j | 0 <= j < |c[1..]| :: c[1..][j] == c[j + 1];
    }
  }

  /**
   * process_unlink erases one node.  The file is still known afterwards, which the source calls a
   * "cannot happen", exactly when a later node of the chain answers for the same key.
   */
  lemma {:induction false} UnlinkExactly(db: Db, m: Msg)
    requires InBuckets(db) && m.id == UNLINK_FUNC && LastLink(m.st) && Lookup(db, m.st, m.remote).Some?
    ensures var c := db[Hash(m.st)];
      Lookup(ProcessDb(db, m), m.st, m.remote).Some? <==>
      exists j :: FindIn(c, m.st, m.remote) < j < |c| && Matches(c[j], m.st, m.remote)
  {
    var b := Hash(m.st);
    var c := db[b];
    var i := FindIn(c, m.st, m.remote);
    var c' := ProcessDb(db, m)[b];
    assert c' == c[..i] + c[i + 1..];
    FindNone(c', m.st, m.remote);
    if j :| i < j < |c| && Matches(c[j], m.st, m.remote) {
      assert c'[j - 1] == c[j];
    }
    assert forall k | 0 <= k < i :: c'[k] == c[k];
    if j :| 0 <= j < |c'| && Matches(c'[j], m.st, m.remote) {
      assert c'[j] == c[j + 1];
    }
  }

  /** Two chowns of one inode, first a regular file and then a device, leave two nodes for an empty file. */
  lemma {:induction false} UnlinkCanLeaveTheFileKnown() returns (m1: Msg, m2: Msg, m3: Msg)
    ensures var db := RunDb(seq(HASH_TABLE_SIZE, _ => []), [m1, m2]);
      && m1.id == CHOWN_FUNC && m2.id == CHOWN_FUNC && m3.id == UNLINK_FUNC && LastLink(m3.st)
      && SameFile(m1.st, m1.remote, m3.st, m3.remote) && SameFile(m2.st, m2.remote, m3.st, m3.remote)
      && Lookup(ProcessDb(db, m3), m3.st, m3.remote).Some?
  {
    var reg := FakeStat(0, 0, 7, 0, 0, S_IFREG, 1, 0);
    var chr := reg.(mode := S_IFCHR);
    m1, m2, m3 := Msg(CHOWN_FUNC, 0, 0, reg, 0), Msg(CHOWN_FUNC, 0, 0, chr, 0), Msg(UNLINK_FUNC, 0, 0, reg, 0);
    var empty: Db := seq(HASH_TABLE_SIZE, _ => []);
    var b := Hash(reg);
    assert Hash(chr) == b;
    assert [m1, m2][..1] == [m1] && [m1][..0] == [];
    var db1 := RunDb(empty, [m1]);
    assert RunDb(empty, []) == empty;
    assert db1 == ProcessDb(RunDb(empty, [m1][..0]), m1);
    assert db1[b] == [Node(reg, 0)];
    var db2 := RunDb(empty, [m1, m2]);
    assert db2 == ProcessDb(RunDb(empty, [m1, m2][..1]), m2);
    assert !Matches(Node(reg, 0), chr, 0);
    assert db1[b][1..] == [] && FindIn(db1[b], chr, 0) == 1;
    assert Lookup(db1, chr, 0) == None;
    assert db2 == InsertOrOverwrite(db1, chr, 0) == Insert(db1, chr, 0);
    assert db2[b] == [Node(reg, 0)] + [Node(chr, 0)];
    assert FindIn(db2[b], reg, 0) == 0;
    assert ProcessDb(db2, m3)[b] == [Node(chr, 0)];
    assert Matches(Node(chr, 0), reg, 0);
  }
}
