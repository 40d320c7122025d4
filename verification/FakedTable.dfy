/** The hash table of faked.c and the request handlers, changing the table in place. */
module FakedDaemon {
  import opened Options
  import opened FakedModel
  import opened FakedText
  import opened FakedSaving

  /** A data_node_t pointer: the bucket and the place in its chain. */
  type Pos = (nat, nat)

  /** The nodes before a position. */
  function Before(db: Db, b: nat, i: nat): Chain
    requires b < |db| && i <= |db[b]|
  {
    Flatten(db[..b]) + db[b][..i]
  }

  /** The position is the first one at or after the start of bucket `from`. */
  ghost predicate FirstFrom(db: Db, from: nat, pos: Option<Pos>) {
    if pos.None? then forall b | from <= b < |db| :: db[b] == []
    else
      var (b, i) := pos.value;
      from <= b < |db| && i == 0 && db[b] != [] && forall c | from <= c < b :: db[c] == []
  }

  ghost predicate IsPos(db: Db, pos: Pos) { pos.0 < |db| && pos.1 < |db[pos.0]| }

  lemma {:induction false} EmptyBuckets(db: Db, from: nat, upTo: nat)
    requires from <= upTo <= |db| && forall c | from <= c < upTo :: db[c] == []
    ensures Flatten(db[..upTo]) == Flatten(db[..from])
    decreases upTo
  {
    if from < upTo {
      EmptyBuckets(db, from, upTo - 1);
      FlattenStep(db, upTo - 1);
    }
  }

  class Daemon {
    const table: array<Chain>
    const unknownIsReal: bool

    ghost predicate Valid()
      reads table
    {
      table.Length == HASH_TABLE_SIZE && InBuckets(table[..])
    }

    /** init_hash_table */
    constructor (unknownIsReal: bool)
      ensures Valid() && fresh(table) && this.unknownIsReal == unknownIsReal
      ensures forall b | 0 <= b < HASH_TABLE_SIZE :: table[b] == []
    {
      this.unknownIsReal := unknownIsReal;
      table := new Chain[HASH_TABLE_SIZE](_ => []);
    }

    /** data_find */
    method Find(key: FakeStat, remote: U32) returns (pos: Option<Pos>)
      requires Valid()
      ensures pos.None? <==> Lookup(table[..], key, remote).None?
      ensures pos.None? <==>
        forall b, i | 0 <= b < table.Length && 0 <= i < |table[b]| :: !Matches(table[b][i], key, remote)
      ensures pos.Some? ==>
        pos.value == (Hash(key), FindIn(table[Hash(key)], key, remote)) && IsPos(table[..], pos.value)
    {
      LookupIsScan(table[..], key, remote);
      var b := Hash(key);
      var n := 0;
      while n < |table[b]|
        invariant 0 <= n <= |table[b]|
        invariant forall j | 0 <= j < n :: !Matches(table[b][j], key, remote)
      {
        if Matches(table[b][n], key, remote) {
          return Some((b, n));
        }
        n := n + 1;
      }
      return None;
    }

    /** memcpy or field writes through data_node_get. */
    method WriteNode(pos: Pos, st: FakeStat)
      requires Valid() && IsPos(table[..], pos)
      requires st.dev == table[pos.0][pos.1].buf.dev && st.ino == table[pos.0][pos.1].buf.ino
      modifies table
      ensures Valid() && table[..] == Write(old(table[..]), pos.0, pos.1, st)
    {
      var (b, i) := pos;
      WriteInBuckets(table[..], b, i, st);
      table[b] := table[b][i := Node(st, table[b][i].remote)];
    }

    /** data_insert */
    method DataInsert(buf: FakeStat, remote: U32)
      requires Valid()
      modifies table
      ensures Valid() && table[..] == Insert(old(table[..]), buf, remote)
    {
      InsertInBuckets(table[..], buf, remote);
      var b := Hash(buf);
      var n := 0;
      while n < |table[b]| && !Matches(table[b][n], buf, remote)
        invariant 0 <= n <= |table[b]|
        invariant forall j | 0 <= j < n :: !Matches(table[b][j], buf, remote)
      {
        n := n + 1;
      }
      if n < |table[b]| {
        table[b] := table[b][n := Node(buf, remote)];
      } else {
        table[b] := table[b] + [Node(buf, remote)];
      }
    }

    /** data_erase */
    method DataErase(pos: Pos)
      requires Valid() && IsPos(table[..], pos)
      modifies table
      ensures Valid() && table[..] == Erase(old(table[..]), pos.0, pos.1)
    {
      var (b, i) := pos;
      table[b] := table[b][..i] + table[b][i + 1..];
    }

    /** insert_or_overwrite */
    method InsertOrOverwriteNode(st: FakeStat, remote: U32)
      requires Valid()
      modifies table
      ensures Valid() && table[..] == InsertOrOverwrite(old(table[..]), st, remote)
    {
      var i := Find(st, remote);
      if i.None? {
        DataInsert(st, remote);
      } else {
        WriteNode(i.value, st);
      }
    }

    /** data_node_next; None is both the NULL start and the end. */
    method NodeNext(n: Option<Pos>) returns (next: Option<Pos>)
      requires Valid() && (n.Some? ==> IsPos(table[..], n.value))
      ensures n.None? ==> FirstFrom(table[..], 0, next)
      ensures n.Some? && n.value.1 + 1 < |table[n.value.0]| ==> next == Some((n.value.0, n.value.1 + 1))
      ensures n.Some? && n.value.1 + 1 == |table[n.value.0]| ==> FirstFrom(table[..], n.value.0 + 1, next)
    {
      if n.Some? && n.value.1 + 1 < |table[n.value.0]| {
        return Some((n.value.0, n.value.1 + 1));
      }
      var tablePos := if n.None? then 0 else Hash(table[n.value.0][n.value.1].buf) + 1;
      ghost var from := tablePos;
      while tablePos < HASH_TABLE_SIZE && table[tablePos] == []
        invariant from <= tablePos <= HASH_TABLE_SIZE
        invariant forall c | from <= c < tablePos :: table[c] == []
      {
        tablePos := tablePos + 1;
      }
      if tablePos < HASH_TABLE_SIZE {
        return Some((tablePos, 0));
      }
      return None;
    }

    /** data_size */
    method DataSize() returns (size: nat)
      requires Valid()
      ensures size == |Flatten(table[..])|
    {
      size := 0;
      for tablePos := 0 to HASH_TABLE_SIZE
        invariant size == |Flatten(table[..][..tablePos])|
      {
        FlattenStep(table[..], tablePos);
        var n := 0;
        ghost var start := size;
        while n < |table[tablePos]|
          invariant 0 <= n <= |table[tablePos]| && size == start + n
        {
          size := size + 1;
          n := n + 1;
        }
      }
      assert table[..][..HASH_TABLE_SIZE] == table[..];
    }

    /** The loop of debugdata and save_database: every node exactly once, in table order. */
    method VisitAll() returns (seen: Chain)
      requires Valid()
      ensures seen == Flatten(table[..])
    {
      ghost var db := table[..];
      seen := [];
      var i := NodeNext(None);
      Reached(db, 0, i);
      while i.Some?
        invariant i.Some? ==> IsPos(db, i.value) && seen == Before(db, i.value.0, i.value.1)
        invariant i.None? ==> seen == Flatten(db)
        decreases |Flatten(db)| - |seen|, i.Some?
      {
        var (b, k) := i.value;
        assert db[b][..k] + [db[b][k]] == db[b][..k + 1];
        PositionBound(db, b, k);
        seen := seen + [table[b][k]];
        ghost var last := k + 1 == |db[b]|;
        i := NodeNext(i);
        if last {
          FlattenStep(db, b);
          assert db[b][..k + 1] == db[b];
          Reached(db, b + 1, i);
        }
      }
    }

    lemma {:induction false} Reached(db: Db, from: nat, i: Option<Pos>)
      requires from <= |db| && FirstFrom(db, from, i)
      ensures i.Some? ==> IsPos(db, i.value) && Before(db, i.value.0, i.value.1) == Flatten(db[..from])
      ensures i.None? ==> Flatten(db) == Flatten(db[..from])
    {
      if i.Some? {
        EmptyBuckets(db, from, i.value.0);
      } else {
        EmptyBuckets(db, from, |db|);
        assert db[..|db|] == db;
      }
    }

    lemma {:induction false} PositionBound(db: Db, b: nat, k: nat)
      requires b < |db| && k < |db[b]|
      ensures |Before(db, b, k)| < |Flatten(db)|
      decreases |db|
    {
      if b < |db| - 1 {
        var init := db[..|db| - 1];
        assert init[..b] == db[..b];
        PositionBound(init, b, k);
      }
    }

    /** save_database for a file that can be opened. */
    method SaveDatabase(remote: U32) returns (text: string)
      requires Valid()
      ensures text == FileText(Flatten(table[..]), remote)
    {
      var nodes := VisitAll();
      text := "";
      for i := 0 to |nodes|
        invariant text == FileText(nodes[..i], remote)
      {
        assert nodes[..i + 1][..i] == nodes[..i];
        if nodes[i].remote == remote {
          text := text + Line(RecordOf(nodes[i].buf));
        }
      }
      assert nodes[..|nodes|] == nodes;
    }

    /** load_database; `ok` is its return value, 1 when the input ended or did not begin a record. */
    method LoadDatabase(text: string, remote: U32, junk: U64) returns (ok: bool)
      requires Valid()
      modifies table
      ensures Valid() && table[..] == InsertRecords(old(table[..]), Records(text), remote, junk)
      ensures ok <==> LastScan(text) == Eof || LastScan(text) == Partial(0)
    {
      var input := text;
      var r := ScanLine(input);
      while r.Full?
        invariant Valid() && r == ScanLine(input) && LastScan(input) == LastScan(text)
        invariant InsertRecords(table[..], Records(input), remote, junk) ==
          InsertRecords(old(table[..]), Records(text), remote, junk)
        decreases |input|
      {
        assert Records(input) == [r.record] + Records(r.rest);
        DataInsert(StatOf(r.record, junk), remote);
        input := r.rest;
        r := ScanLine(input);
      }
      ok := r.Eof? || r.n == 0;
    }

    method ProcessChown(m: Msg)
      requires Valid()
      modifies table
      ensures Valid() && table[..] == ChownDb(old(table[..]), m)
    {
      var i := Find(m.st, m.remote);
      if i.Some? {
        var st := table[i.value.0][i.value.1].buf;
        if m.st.uid != UNCHANGED {
          st := st.(uid := m.st.uid);
        }
        if m.st.gid != UNCHANGED {
          st := st.(gid := m.st.gid);
        }
        WriteNode(i.value, st);
      } else {
        var st := m.st;
        if st.uid == UNCHANGED {
          st := st.(uid := 0);
        }
        if st.gid == UNCHANGED {
          st := st.(gid := 0);
        }
        InsertOrOverwriteNode(st, m.remote);
      }
    }

    /** `m'` is the message buffer afterwards: an unknown file's ids are zeroed in it. */
    method ProcessChmod(m: Msg) returns (m': Msg)
      requires Valid() && m.id == CHMOD_FUNC
      modifies table
      ensures Valid() && table[..] == ChmodDb(old(table[..]), m)
      ensures m' == ProcessBuf(old(table[..]), m, unknownIsReal)
    {
      m' := m;
      var i := Find(m.st, m.remote);
      var st;
      if i.Some? {
        st := table[i.value.0][i.value.1].buf;
        if Fmt(m.st.mode) != Fmt(st.mode) && Fmt(m.st.mode) != S_IFREG {
          st := st.(mode := m.st.mode);
        } else {
          st := st.(mode := WithFmt(m.st.mode, st.mode));
        }
        WriteNode(i.value, st);
      } else {
        st := m.st.(uid := 0, gid := 0);
        m' := m.(st := st);
      }
      InsertOrOverwriteNode(st, m.remote);
    }

    method ProcessMknod(m: Msg) returns (m': Msg)
      requires Valid() && m.id == MKNOD_FUNC
      modifies table
      ensures Valid() && table[..] == MknodDb(old(table[..]), m)
      ensures m' == ProcessBuf(old(table[..]), m, unknownIsReal)
    {
      m' := m;
      var i := Find(m.st, m.remote);
      var st;
      if i.Some? {
        st := table[i.value.0][i.value.1].buf.(mode := m.st.mode, rdev := m.st.rdev);
        WriteNode(i.value, st);
      } else {
        st := m.st.(uid := 0, gid := 0);
        m' := m.(st := st);
      }
      InsertOrOverwriteNode(st, m.remote);
    }

    /** The reply is the request's own message with the file's fake data in it. */
    method ProcessStat(m: Msg) returns (reply: Msg)
      requires Valid() && m.id == STAT_FUNC
      ensures reply == ProcessBuf(table[..], m, unknownIsReal)
    {
      var i := Find(m.st, m.remote);
      if i.None? {
        reply := if unknownIsReal then m else m.(st := m.st.(uid := 0, gid := 0));
      } else {
        reply := m.(st := CopyFake(m.st, table[i.value.0][i.value.1].buf));
      }
    }

    method ProcessUnlink(m: Msg)
      requires Valid()
      modifies table
      ensures Valid() && table[..] == UnlinkDb(old(table[..]), m)
    {
      if m.st.nlink == 1 || (Fmt(m.st.mode) == S_IFDIR && m.st.nlink == 2) {
        var i := Find(m.st, m.remote);
        if i.Some? {
          DataErase(i.value);
        }
      }
    }

    /** process_msg */
    method ProcessMsg(m: Msg) returns (m': Msg, sent: Option<Msg>)
      requires Valid() && Defined(m.id)
      modifies table
      ensures Valid() && table[..] == ProcessDb(old(table[..]), m)
      ensures m' == ProcessBuf(old(table[..]), m, unknownIsReal)
      ensures sent == if m.id == STAT_FUNC then Some(m') else None
    {
      m', sent := m, None;
      if m.id == CHOWN_FUNC {
        ProcessChown(m);
      } else if m.id == CHMOD_FUNC {
        m' := ProcessChmod(m);
      } else if m.id == MKNOD_FUNC {
        m' := ProcessMknod(m);
      } else if m.id == STAT_FUNC {
        m' := ProcessStat(m);
        sent := Some(m');
      } else if m.id == UNLINK_FUNC {
        ProcessUnlink(m);
      }
    }
  }
}
