/** What a table looks like after it was saved and loaded into an empty one. */
module FakedSaving {
  import opened FakedModel
  import opened FakedText

  /** All nodes, bucket by bucket. */
  function Flatten(db: Db): Chain {
    if db == [] then [] else Flatten(db[..|db| - 1]) + db[|db| - 1]
  }

  lemma {:induction false} FlattenStep(db: Db, b: nat)
    requires b < |db|
    ensures Flatten(db[..b + 1]) == Flatten(db[..b]) + db[b]
  {
    assert db[..b + 1][..b] == db[..b];
  }

  lemma {:induction false} FlattenUpdate(db: Db, b: nat, c: Chain)
    requires b < |db|
    ensures |Flatten(db[b := c])| == |Flatten(db)| - |db[b]| + |c|
    decreases |db|
  {
    var init := db[..|db| - 1];
    if b < |db| - 1 {
      assert db[b := c][..|db| - 1] == init[b := c];
      FlattenUpdate(init, b, c);
    } else {
      assert db[b := c][..|db| - 1] == init;
    }
  }

  /** The table as init_hash_table leaves it. */
  function EmptyDb(n: nat): (db: Db)
    ensures |db| == n && forall b | 0 <= b < n :: db[b] == []
  {
    if n == 0 then [] else EmptyDb(n - 1) + [[]]
  }

  lemma {:induction false} FlattenEmpty(n: nat)
    ensures Flatten(EmptyDb(n)) == []
  {
    if n > 0 {
      FlattenEmpty(n - 1);
      assert EmptyDb(n)[..n - 1] == EmptyDb(n - 1);
    }
  }

  /** The nodes as they come back: everything but the size. */
  function Strip(c: Chain, junk: U64): Chain {
    if c == [] then [] else [c[0].(buf := c[0].buf.(size := junk))] + Strip(c[1..], junk)
  }

  /** Those of a list of nodes that hash into one bucket. */
  function Bucket(c: Chain, b: nat): Chain {
    if c == [] then []
    else if Hash(c[0].buf) == b then [c[0]] + Bucket(c[1..], b)
    else Bucket(c[1..], b)
  }

  /** data_insert of each node in turn. */
  function InsertNodes(c: Chain, remote: U32): (db: Db)
    ensures |db| == HASH_TABLE_SIZE
    decreases |c|
  {
    if c == [] then EmptyDb(HASH_TABLE_SIZE) else Insert(InsertNodes(c[..|c| - 1], remote), c[|c| - 1].buf, remote)
  }

  /** The loop of load_database on the records it scans. */
  function InsertRecords(db: Db, rs: seq<Record>, remote: U32, junk: U64): (r: Db)
    requires |db| == HASH_TABLE_SIZE
    ensures |r| == HASH_TABLE_SIZE
    decreases |rs|
  {
    if rs == [] then db else InsertRecords(Insert(db, StatOf(rs[0], junk), remote), rs[1..], remote, junk)
  }

  /** No node answers for the key of a later one. */
  predicate NoClash(c: Chain, remote: U32) {
    forall i, j | 0 <= i < j < |c| :: !Matches(c[i], c[j].buf, remote)
  }

  lemma {:induction false} BucketAppend(a: Chain, b: Chain, k: nat)
    ensures Bucket(a + b, k) == Bucket(a, k) + Bucket(b, k)
  {
    if a == [] {
      assert a + b == b;
    } else {
      assert (a + b)[1..] == a[1..] + b;
      BucketAppend(a[1..], b, k);
    }
  }

  lemma {:induction false} StripAppend(a: Chain, b: Chain, junk: U64)
    ensures Strip(a + b, junk) == Strip(a, junk) + Strip(b, junk)
  {
    if a == [] {
      assert a + b == b;
    } else {
      assert (a + b)[1..] == a[1..] + b;
      StripAppend(a[1..], b, junk);
    }
  }

  lemma {:induction false} BucketMembers(c: Chain, k: nat)
    ensures forall n :: n in Bucket(c, k) <==> n in c && Hash(n.buf) == k
  {
    if c != [] {
      BucketMembers(c[1..], k);
      assert forall n :: n in c <==> n == c[0] || n in c[1..];
    }
  }

  /** Without clashes every node is appended to its bucket. */
  lemma {:induction false} InsertNodesBuckets(c: Chain, remote: U32)
    requires NoClash(c, remote) && forall n | n in c :: n.remote == remote
    ensures forall b | 0 <= b < HASH_TABLE_SIZE :: InsertNodes(c, remote)[b] == Bucket(c, b)
    decreases |c|
  {
    if c != [] {
      var init, n := c[..|c| - 1], c[|c| - 1];
      InsertNodesBuckets(init, remote);
      var h := Hash(n.buf);
      var chain := InsertNodes(init, remote)[h];
      BucketMembers(init, h);
      forall j | 0 <= j < |chain| ensures !Matches(chain[j], n.buf, remote) {
        assert chain[j] in Bucket(init, h) && chain[j] in init;
      }
      FindNone(chain, n.buf, remote);
      assert c == init + [n];
      forall b | 0 <= b < HASH_TABLE_SIZE ensures InsertNodes(c, remote)[b] == Bucket(c, b) {
        BucketAppend(init, [n], b);
        assert Bucket([n][1..], b) == [];
      }
    }
  }

  /** data_insert adds a node unless it overwrites one. */
  lemma {:induction false} InsertCount(db: Db, st: FakeStat, remote: U32)
    requires |db| == HASH_TABLE_SIZE
    ensures |Flatten(Insert(db, st, remote))| ==
      |Flatten(db)| + if FindIn(db[Hash(st)], st, remote) < |db[Hash(st)]| then 0 else 1
  {
    var h := Hash(st);
    var i := FindIn(db[h], st, remote);
    FlattenUpdate(db, h, if i < |db[h]| then db[h][i := Node(st, remote)] else db[h] + [Node(st, remote)]);
  }

  /** Every clash loses a node. */
  lemma {:induction false} InsertNodesCount(c: Chain, remote: U32)
    requires forall n | n in c :: n.remote == remote
    ensures |Flatten(InsertNodes(c, remote))| <= |c|
    ensures !NoClash(c, remote) ==> |Flatten(InsertNodes(c, remote))| < |c|
    decreases |c|
  {
    if c == [] {
      FlattenEmpty(HASH_TABLE_SIZE);
    } else {
      var init, n := c[..|c| - 1], c[|c| - 1];
      InsertNodesCount(init, remote);
      assert c == init + [n];
      InsertCount(InsertNodes(init, remote), n.buf, remote);
      if NoClash(init, remote) && !NoClash(c, remote) {
        ClashIsFound(init, n, remote);
      }
    }
  }

  lemma {:induction false} ClashIsFound(init: Chain, n: Node, remote: U32)
    requires NoClash(init, remote) && !NoClash(init + [n], remote) && forall x | x in init :: x.remote == remote
    ensures FindIn(InsertNodes(init, remote)[Hash(n.buf)], n.buf, remote) < |InsertNodes(init, remote)[Hash(n.buf)]|
  {
    var c := init + [n];
    var i, j :| 0 <= i < j < |c| && Matches(c[i], c[j].buf, remote);
    assert forall x, y | 0 <= x < y < |init| :: c[x] == init[x] && c[y] == init[y] && !Matches(c[x], c[y].buf, remote);
    assert j == |init|;
    var h := Hash(n.buf);
    InsertNodesBuckets(init, remote);
    BucketMembers(init, h);
    HashOfKey(init[i].buf, n.buf);
    assert init[i] in Bucket(init, h);
    FindNone(Bucket(init, h), n.buf, remote);
  }

  // ----- saving --------------------------------------------------------------------

  /** What load_database should rebuild: the saved id's chains, in order, without their sizes. */
  function Rebuilt(db: Db, remote: U32, junk: U64): (r: Db)
    ensures |r| == |db| && forall b | 0 <= b < |db| :: r[b] == Strip(Saved(db[b], remote), junk)
  {
    if db == [] then [] else Rebuilt(db[..|db| - 1], remote, junk) + [Strip(Saved(db[|db| - 1], remote), junk)]
  }

  function SavedNodes(db: Db, remote: U32, junk: U64): Chain { Strip(Saved(Flatten(db), remote), junk) }

  lemma {:induction false} OneBucket(c: Chain, remote: U32, junk: U64, k: nat, b: nat)
    requires forall n | n in c :: Hash(n.buf) == k
    ensures Bucket(Strip(Saved(c, remote), junk), b) == if b == k then Strip(Saved(c, remote), junk) else []
  {
    if c != [] {
      OneBucket(c[1..], remote, junk, k, b);
      assert c[0] in c;
      if c[0].remote == remote {
        var rest := Saved(c[1..], remote);
        assert ([c[0]] + rest)[1..] == rest;
        var n := c[0].(buf := c[0].buf.(size := junk));
        assert ([n] + Strip(rest, junk))[1..] == Strip(rest, junk);
        HashOfKey(n.buf, c[0].buf);
      }
    }
  }

  lemma {:induction false} BucketOfSaved(db: Db, n: nat, remote: U32, junk: U64, b: nat)
    requires InBuckets(db) && n <= |db| && b < |db|
    ensures Bucket(Strip(Saved(Flatten(db[..n]), remote), junk), b) ==
      if b < n then Strip(Saved(db[b], remote), junk) else []
  {
    if n > 0 {
      BucketOfSaved(db, n - 1, remote, junk, b);
      FlattenStep(db, n - 1);
      SavedAppend(Flatten(db[..n - 1]), db[n - 1], remote);
      StripAppend(Saved(Flatten(db[..n - 1]), remote), Saved(db[n - 1], remote), junk);
      BucketAppend(Strip(Saved(Flatten(db[..n - 1]), remote), junk), Strip(Saved(db[n - 1], remote), junk), b);
      OneBucket(db[n - 1], remote, junk, n - 1, b);
    }
  }

  lemma {:induction false} StripLength(c: Chain, junk: U64)
    ensures |Strip(c, junk)| == |c|
  {
    if c != [] {
      StripLength(c[1..], junk);
    }
  }

  lemma {:induction false} SavedRemote(c: Chain, remote: U32, junk: U64)
    ensures forall n | n in Strip(Saved(c, remote), junk) :: n.remote == remote
  {
    if c != [] {
      SavedRemote(c[1..], remote, junk);
      if c[0].remote == remote {
        var rest := Saved(c[1..], remote);
        assert ([c[0]] + rest)[1..] == rest;
      }
    }
  }

  lemma {:induction false} RebuiltCount(db: Db, n: nat, remote: U32, junk: U64)
    requires n <= |db|
    ensures |Flatten(Rebuilt(db, remote, junk)[..n])| == |Saved(Flatten(db[..n]), remote)|
  {
    if n > 0 {
      RebuiltCount(db, n - 1, remote, junk);
      FlattenStep(db, n - 1);
      FlattenStep(Rebuilt(db, remote, junk), n - 1);
      SavedAppend(Flatten(db[..n - 1]), db[n - 1], remote);
      StripLength(Saved(db[n - 1], remote), junk);
    }
  }

  /** Inserting the saved nodes one by one rebuilds all chains exactly if no saved node answers for a later one. */
  lemma {:induction false} InsertRebuildsExactly(db: Db, remote: U32, junk: U64)
    requires InBuckets(db)
    ensures InsertNodes(SavedNodes(db, remote, junk), remote) == Rebuilt(db, remote, junk) <==>
      NoClash(SavedNodes(db, remote, junk), remote)
  {
    var c := SavedNodes(db, remote, junk);
    assert db[..|db|] == db;
    SavedRemote(Flatten(db), remote, junk);
    if NoClash(c, remote) {
      InsertNodesBuckets(c, remote);
      forall b | 0 <= b < HASH_TABLE_SIZE ensures InsertNodes(c, remote)[b] == Rebuilt(db, remote, junk)[b] {
        BucketOfSaved(db, |db|, remote, junk, b);
      }
    } else {
      InsertNodesCount(c, remote);
      RebuiltCount(db, |db|, remote, junk);
      assert Rebuilt(db, remote, junk)[..|db|] == Rebuilt(db, remote, junk);
      StripLength(Saved(Flatten(db), remote), junk);
    }
  }

  /** Distinct files cannot clash. */
  lemma {:induction false} DistinctFilesDoNotClash(c: Chain, remote: U32)
    requires forall i, j | 0 <= i < j < |c| :: c[i].buf.dev != c[j].buf.dev || c[i].buf.ino != c[j].buf.ino
    ensures NoClash(c, remote)
  {}

  lemma {:induction false} InsertRecordsAppend(db: Db, rs: seq<Record>, r: Record, remote: U32, junk: U64)
    requires |db| == HASH_TABLE_SIZE
    ensures InsertRecords(db, rs + [r], remote, junk) ==
      Insert(InsertRecords(db, rs, remote, junk), StatOf(r, junk), remote)
    decreases |rs|
  {
    if rs == [] {
      assert rs + [r] == [r] && [r][1..] == [];
    } else {
      assert (rs + [r])[1..] == rs[1..] + [r];
      InsertRecordsAppend(Insert(db, StatOf(rs[0], junk), remote), rs[1..], r, remote, junk);
    }
  }

  /** Loading records is inserting the nodes they were printed from, sizes apart. */
  lemma {:induction false} RecordsAreNodes(c: Chain, remote: U32, junk: U64)
    ensures InsertRecords(EmptyDb(HASH_TABLE_SIZE), RecordsOf(c), remote, junk) == InsertNodes(Strip(c, junk), remote)
    decreases |c|
  {
    if c != [] {
      var init, n := c[..|c| - 1], c[|c| - 1];
      assert c == init + [n];
      RecordsAreNodes(init, remote, junk);
      RecordsOfAppend(init, n);
      InsertRecordsAppend(EmptyDb(HASH_TABLE_SIZE), RecordsOf(init), RecordOf(n.buf), remote, junk);
      StripLast(init, n, junk);
      ReadBack(n.buf, junk);
      var s := Strip(c, junk);
      assert s[..|s| - 1] == Strip(init, junk) && s[|s| - 1].buf == StatOf(RecordOf(n.buf), junk);
    }
  }

  lemma {:induction false} StripLast(init: Chain, n: Node, junk: U64)
    ensures Strip(init + [n], junk) == Strip(init, junk) + [n.(buf := n.buf.(size := junk))]
  {
    StripAppend(init, [n], junk);
    assert Strip([n][1..], junk) == [];
  }

  /** Every field but size survives being printed as 64 bits and assigned back. */
  lemma {:induction false} ReadBack(st: FakeStat, junk: U64)
    ensures StatOf(RecordOf(st), junk) == st.(size := junk)
  {}

  /**
   * save_database and then load_database into an empty table: the saved id's chains and all fields but
   * size come back if and only if no saved node answers for a later one; distinct files never do.
   */
  lemma {:induction false} SaveLoadExactly(db: Db, remote: U32, junk: U64)
    requires InBuckets(db)
    ensures InsertRecords(EmptyDb(HASH_TABLE_SIZE), Records(FileText(Flatten(db), remote)), remote, junk) ==
      Rebuilt(db, remote, junk)
      <==> NoClash(SavedNodes(db, remote, junk), remote)
  {
    FileRoundTrip(Flatten(db), remote);
    RecordsAreNodes(Saved(Flatten(db), remote), remote, junk);
    InsertRebuildsExactly(db, remote, junk);
  }
}
