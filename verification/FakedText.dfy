/** The text format of save_database and load_database. */
module FakedText {
  import opened Options
  import opened FakedModel

  // ----- numbers ---------------------------------------------------------------

  /** The bases the format strings use. */
  type Base = b: int | b == 8 || b == 10 || b == 16 witness 10

  function DigitChar(d: nat): char
    requires d < 16
  {
    if d < 10 then ('0' as int + d) as char else ('a' as int + d - 10) as char
  }

  function DigitVal(c: char): (v: int)
    ensures -1 <= v < 16
  {
    if '0' <= c <= '9' then c as int - '0' as int
    else if 'a' <= c <= 'f' then c as int - 'a' as int + 10
    else if 'A' <= c <= 'F' then c as int - 'A' as int + 10
    else -1
  }

  predicate IsDigit(c: char, base: Base) { 0 <= DigitVal(c) < base }

  /** %llx, %llo and %llu of printf. */
  function Render(n: nat, base: Base): (s: string)
    ensures s != [] && IsDigit(s[0], base)
    decreases n
  {
    if n < base then [DigitChar(n)]
    else
      QuotientAndRemainder(n, base);
      Render(n / base, base) + [DigitChar(n % base)]
  }

  function ReadDigits(s: string, base: Base, acc: nat): (r: (nat, string))
    ensures |r.1| <= |s|
  {
    if s != [] && IsDigit(s[0], base) then ReadDigits(s[1..], base, acc * base + DigitVal(s[0])) else (acc, s)
  }

  predicate IsSpace(c: char) { c == ' ' || '\t' <= c <= '\r' }

  function SkipSpace(s: string): (r: string)
    ensures |r| <= |s|
  {
    if s != [] && IsSpace(s[0]) then SkipSpace(s[1..]) else s
  }

  /** The same conversions of scanf, for unsigned digits: white space is skipped, large values saturate. */
  function ReadNum(s: string, base: Base): (r: Option<(U64, string)>)
    ensures r.Some? ==> |r.value.1| <= |s|
  {
    var t := SkipSpace(s);
    if t == [] || !IsDigit(t[0], base) then None
    else
      var (v, rest) := ReadDigits(t, base, 0);
      Some((if v < TWO64 then v else TWO64 - 1, rest))
  }

  lemma {:induction false} OneDigit(d: nat, base: Base, t: string, acc: nat)
    requires d < base
    ensures ReadDigits([DigitChar(d)] + t, base, acc) == ReadDigits(t, base, acc * base + d)
  {
    assert DigitVal(DigitChar(d)) == d;
    assert ([DigitChar(d)] + t)[1..] == t;
  }

  lemma {:induction false} ReadRendered(n: nat, base: Base, t: string)
    ensures ReadDigits(Render(n, base) + t, base, 0) == ReadDigits(t, base, n)
    decreases n
  {
    if n < base {
      OneDigit(n, base, t, 0);
    } else {
      QuotientAndRemainder(n, base);
      ReadRendered(n / base, base, [DigitChar(n % base)] + t);
      LastDigit(n, base, t);
    }
  }

  lemma {:induction false} LastDigit(n: nat, base: Base, t: string)
    requires n >= base
    requires ReadDigits(Render(n / base, base) + ([DigitChar(n % base)] + t), base, 0)
      == ReadDigits([DigitChar(n % base)] + t, base, n / base)
    ensures ReadDigits(Render(n, base) + t, base, 0) == ReadDigits(t, base, n)
  {
    LastDigitSplits(n, base, t);
    OneDigit(n % base, base, t, n / base);
    QuotientAndRemainder(n, base);
  }

  lemma {:induction false} LastDigitSplits(n: nat, base: Base, t: string)
    requires n >= base
    ensures Render(n, base) + t == Render(n / base, base) + ([DigitChar(n % base)] + t)
  {}

  lemma {:induction false} QuotientAndRemainder(n: nat, base: Base)
    ensures n / base * base + n % base == n
    ensures n >= base ==> n / base < n
  {
    if base == 8 {
    } else if base == 10 {
    } else {
      assert base == 16;
    }
  }

  /** A number printed in a base reads back as itself when no digit follows. */
  lemma {:induction false} NumRoundTrip(n: U64, base: Base, t: string)
    requires t == [] || !IsDigit(t[0], base)
    ensures ReadNum(Render(n, base) + t, base) == Some((n, t))
  {
    ReadRendered(n, base, t);
  }

  // ----- one line ---------------------------------------------------------------

  /** The fields of the format string: the literal before each number, and its conversion. */
  const FORMAT: seq<(string, Base)> :=
    [("dev=", 16), (",ino=", 10), (",mode=", 8), (",uid=", 10), (",gid=", 10), (",nlink=", 10), (",rdev=", 10)]

  /** The seven numbers of a line. */
  type Record = r: seq<U64> | |r| == 7 witness [0, 0, 0, 0, 0, 0, 0]

  function RecordOf(st: FakeStat): Record { [st.dev, st.ino, st.mode, st.uid, st.gid, st.nlink, st.rdev] }

  function PrintFields(fs: seq<(string, Base)>, vs: seq<U64>): (s: string)
    requires |fs| == |vs|
    ensures s != []
  {
    if fs == [] then "\n" else fs[0].0 + (Render(vs[0], fs[0].1) + PrintFields(fs[1..], vs[1..]))
  }

  function Line(r: Record): string { PrintFields(FORMAT, r) }

  /** scanf with the rest of the format: the numbers converted before a mismatch, and what follows. */
  function ScanFields(fs: seq<(string, Base)>, s: string): (r: (seq<U64>, string))
    ensures |r.0| <= |fs| && |r.1| <= |s|
    ensures r.0 != [] ==> |r.1| + |fs[0].0| <= |s|
  {
    if fs == [] then ([], SkipSpace(s))
    else if !(fs[0].0 <= s) then ([], s)
    else
      var v := ReadNum(s[|fs[0].0|..], fs[0].1);
      if v.None? then ([], s)
      else
        var more := ScanFields(fs[1..], v.value.1);
        ([v.value.0] + more.0, more.1)
  }

  /** The result of scanf: end of input, the number of conversions before a mismatch, or all seven. */
  datatype Scan = Eof | Partial(n: nat) | Full(record: Record, rest: string)

  function ScanLine(s: string): (r: Scan)
    ensures r.Full? ==> |r.rest| < |s|
    ensures r.Partial? ==> r.n < 7
  {
    if s == [] then Eof
    else
      var (vs, rest) := ScanFields(FORMAT, s);
      if |vs| == 7 then Full(vs, rest) else Partial(|vs|)
  }

  predicate StartsWithComma(fs: seq<(string, Base)>) { fs != [] ==> fs[0].0 != "" && fs[0].0[0] == ',' }

  /** What is printed for the fields is scanned back, provided literals separate the numbers. */
  lemma {:induction false} FieldsRoundTrip(fs: seq<(string, Base)>, vs: seq<U64>, t: string)
    requires |fs| == |vs| && (t == [] || !IsSpace(t[0]))
    requires forall i | 0 < i < |fs| :: StartsWithComma(fs[i..])
    ensures ScanFields(fs, PrintFields(fs, vs) + t) == (vs, t)
  {
    if fs == [] {
      LineEnd(t);
    } else {
      TailSeparates(fs, vs, t);
      FieldsSplit(fs, vs, t);
      forall i | 0 < i < |fs[1..]| ensures StartsWithComma(fs[1..][i..]) {
        assert fs[1..][i..] == fs[i + 1..];
      }
      FieldsRoundTrip(fs[1..], vs[1..], t);
      FirstField(fs, vs, PrintFields(fs[1..], vs[1..]) + t, t);
    }
  }

  lemma {:induction false} LineEnd(t: string)
    requires t == [] || !IsSpace(t[0])
    ensures ScanFields([], PrintFields([], []) + t) == ([], t)
  {
    var s := PrintFields([], []) + t;
    assert s == "\n" + t && s[1..] == t && IsSpace(s[0]);
    assert SkipSpace(s) == SkipSpace(t) == t;
  }

  lemma {:induction false} FirstField(fs: seq<(string, Base)>, vs: seq<U64>, tail: string, t: string)
    requires fs != [] && |fs| == |vs| && tail != [] && (tail[0] == ',' || tail[0] == '\n')
    requires ScanFields(fs[1..], tail) == (vs[1..], t)
    ensures ScanFields(fs, fs[0].0 + (Render(vs[0], fs[0].1) + tail)) == (vs, t)
  {
    FieldRoundTrip(fs[0].0, vs[0], fs[0].1, tail);
    assert [vs[0]] + vs[1..] == vs;
  }

  lemma {:induction false} FieldsSplit(fs: seq<(string, Base)>, vs: seq<U64>, t: string)
    requires fs != [] && |fs| == |vs|
    ensures PrintFields(fs, vs) + t == fs[0].0 + (Render(vs[0], fs[0].1) + (PrintFields(fs[1..], vs[1..]) + t))
  {}

  lemma {:induction false} TailSeparates(fs: seq<(string, Base)>, vs: seq<U64>, t: string)
    requires fs != [] && |fs| == |vs| && forall i | 0 < i < |fs| :: StartsWithComma(fs[i..])
    ensures var tail := PrintFields(fs[1..], vs[1..]) + t; tail != [] && (tail[0] == ',' || tail[0] == '\n')
  {
    if |fs| > 1 {
      assert StartsWithComma(fs[1..]);
    }
  }

  lemma {:induction false} FieldRoundTrip(lit: string, n: U64, base: Base, tail: string)
    requires tail != [] && (tail[0] == ',' || tail[0] == '\n')
    ensures var s := lit + (Render(n, base) + tail); lit <= s && ReadNum(s[|lit|..], base) == Some((n, tail))
  {
    assert (lit + (Render(n, base) + tail))[|lit|..] == Render(n, base) + tail;
    NumRoundTrip(n, base, tail);
  }

  lemma {:induction false} LineRoundTrip(r: Record, t: string)
    requires t == [] || !IsSpace(t[0])
    ensures ScanLine(Line(r) + t) == Full(r, t)
  {
    FieldsRoundTrip(FORMAT, r, t);
  }

  // ----- the whole file ------------------------------------------------------------

  /** The lines for the nodes of one remote id, in the order given. */
  function FileText(nodes: Chain, remote: U32): string {
    if nodes == [] then ""
    else
      var rest := nodes[..|nodes| - 1];
      var n := nodes[|nodes| - 1];
      if n.remote == remote then FileText(rest, remote) + Line(RecordOf(n.buf)) else FileText(rest, remote)
  }

  function Saved(nodes: Chain, remote: U32): Chain {
    if nodes == [] then []
    else if nodes[0].remote == remote then [nodes[0]] + Saved(nodes[1..], remote)
    else Saved(nodes[1..], remote)
  }

  /** All records scanf gets from a text, up to the first line it cannot read. */
  function Records(s: string): (rs: seq<Record>)
    decreases |s|
  {
    var l := ScanLine(s);
    if l.Full? then [l.record] + Records(l.rest) else []
  }

  /** The scanf call that ends the loop. */
  function LastScan(s: string): (r: Scan)
    ensures !r.Full?
    decreases |s|
  {
    var l := ScanLine(s);
    if l.Full? then LastScan(l.rest) else l
  }

  /** The field assignments in load_database truncate to 32 bits; size is whatever the stack slot held. */
  function StatOf(r: Record, junk: U64): FakeStat {
    FakeStat(r[3] % 0x1_0000_0000, r[4] % 0x1_0000_0000, r[1], r[0], r[6],
             r[2] % 0x1_0000_0000, r[5] % 0x1_0000_0000, junk)
  }

  function RecordsOf(nodes: Chain): seq<Record> {
    if nodes == [] then [] else [RecordOf(nodes[0].buf)] + RecordsOf(nodes[1..])
  }

  function Lines(rs: seq<Record>): string {
    if rs == [] then "" else Line(rs[0]) + Lines(rs[1..])
  }

  lemma {:induction false} SavedAppend(a: Chain, b: Chain, remote: U32)
    ensures Saved(a + b, remote) == Saved(a, remote) + Saved(b, remote)
  {
    if a == [] {
      assert a + b == b;
    } else {
      assert (a + b)[1..] == a[1..] + b;
      SavedAppend(a[1..], b, remote);
    }
  }

  lemma {:induction false} LinesAppend(a: seq<Record>, r: Record)
    ensures Lines(a + [r]) == Lines(a) + Line(r)
  {
    if a == [] {
      assert a + [r] == [r] && Lines([r][1..]) == "";
    } else {
      assert (a + [r])[1..] == a[1..] + [r];
      LinesAppend(a[1..], r);
    }
  }

  lemma {:induction false} RecordsOfAppend(a: Chain, n: Node)
    ensures RecordsOf(a + [n]) == RecordsOf(a) + [RecordOf(n.buf)]
  {
    if a == [] {
      assert a + [n] == [n] && RecordsOf([n][1..]) == [];
    } else {
      assert (a + [n])[1..] == a[1..] + [n];
      RecordsOfAppend(a[1..], n);
    }
  }

  lemma {:induction false} FileTextIsLines(nodes: Chain, remote: U32)
    ensures FileText(nodes, remote) == Lines(RecordsOf(Saved(nodes, remote)))
  {
    if nodes != [] {
      var rest, n := nodes[..|nodes| - 1], nodes[|nodes| - 1];
      FileTextIsLines(rest, remote);
      assert nodes == rest + [n];
      SavedAppend(rest, [n], remote);
      assert Saved([n][1..], remote) == [];
      if n.remote == remote {
        assert Saved(nodes, remote) == Saved(rest, remote) + [n];
        RecordsOfAppend(Saved(rest, remote), n);
        LinesAppend(RecordsOf(Saved(rest, remote)), RecordOf(n.buf));
      } else {
        assert Saved(nodes, remote) == Saved(rest, remote);
      }
    }
  }

  lemma {:induction false} LinesRead(rs: seq<Record>)
    ensures Records(Lines(rs)) == rs && LastScan(Lines(rs)) == Eof
    ensures rs != [] ==> Lines(rs)[0] == 'd'
  {
    if rs != [] {
      LinesRead(rs[1..]);
      LineRoundTrip(rs[0], Lines(rs[1..]));
    }
  }

  /** Reading a saved file gives back the fields of exactly the saved nodes, in order. */
  lemma {:induction false} FileRoundTrip(nodes: Chain, remote: U32)
    ensures Records(FileText(nodes, remote)) == RecordsOf(Saved(nodes, remote))
    ensures LastScan(FileText(nodes, remote)) == Eof
  {
    FileTextIsLines(nodes, remote);
    LinesRead(RecordsOf(Saved(nodes, remote)));
  }

  // ----- what scanf takes for a number -----------------------------------------

  const LOWER := "0123456789abcdef"
  const UPPER := "0123456789ABCDEF"

  /** A character is worth its place among the digits, in either case. */
  lemma {:induction false} DigitExactly(c: char, k: nat)
    requires k < 16
    ensures DigitVal(c) == k <==> c == LOWER[k] || c == UPPER[k]
  {
    var (zero, a, upperA) := ('0' as int, 'a' as int, 'A' as int);
    assert if k < 10 then LOWER[k] as int == zero + k == UPPER[k] as int
      else LOWER[k] as int == a + k - 10 && UPPER[k] as int == upperA + k - 10;
  }

  /** The six characters of isspace. */
  lemma {:induction false} SpaceExactly(c: char)
    ensures IsSpace(c) <==> c in {' ', '\t', '\n', '\r', 11 as char, 12 as char}
  {}

  /** White space before a number does not matter, and without a digit after it nothing is converted. */
  lemma {:induction false} NumExactly(space: string, s: string, base: Base)
    requires forall i | 0 <= i < |space| :: IsSpace(space[i])
    ensures ReadNum(space + s, base) == ReadNum(s, base)
    ensures s == "" || !IsSpace(s[0]) ==> (ReadNum(s, base).None? <==> s == "" || !IsDigit(s[0], base))
  {
    if space == "" {
      assert space + s == s;
    } else {
      assert (space + s)[1..] == space[1..] + s;
      NumExactly(space[1..], s, base);
    }
  }
}
