/** Lines of a .config file: fgets into a 1024 byte buffer, strchr, and the two shapes conf_read_simple knows. */
module ConfText {
  import opened Options
  import opened Exprs

  const MKR := "MKR_"
  const NOT_SET := "is not set"

  /** What fgets(line, sizeof(line), in) stores at most. */
  const ROOM: nat := 1023

  /** strchr, as an offset. */
  function IndexOf(s: string, c: char): (k: Option<nat>)
    ensures k.Some? ==> k.value < |s| && s[k.value] == c && c !in s[..k.value]
    ensures k.None? ==> c !in s
  {
    if s == "" then None
    else if s[0] == c then Some(0)
    else
      var k := IndexOf(s[1..], c);
      if k.None? then None
      else
        assert s[..k.value + 1] == [s[0]] + s[1..][..k.value];
        Some(k.value + 1)
  }

  lemma {:induction false} IndexIs(a: string, c: char, b: string)
    requires c !in a
    ensures IndexOf(a + [c] + b, c) == Some(|a|)
  {
    if a != "" {
      assert a[0] in a;
      assert (a + [c] + b)[1..] == a[1..] + [c] + b;
      IndexIs(a[1..], c, b);
    }
  }

  /** How much one fgets call takes from a file that is not at its end. */
  function ChunkLen(s: string): (n: nat)
    requires s != ""
    ensures 0 < n <= |s| && n <= ROOM
    ensures '\n' !in s[..n - 1]
    ensures n == |s| || n == ROOM || s[n - 1] == '\n'
  {
    var k := IndexOf(s, '\n');
    var n := if k.Some? then k.value + 1 else |s|;
    assert k.Some? ==> s[..n - 1] == s[..k.value];
    if n <= ROOM then n else ROOM
  }

  /** The lines as conf_read_simple gets them. */
  function Chunks(s: string): seq<string>
    decreases |s|
  {
    if s == "" then [] else [s[..ChunkLen(s)]] + Chunks(s[ChunkLen(s)..])
  }

  /** A line that fits comes back alone; one that fills the buffer is separated from its newline. */
  lemma {:induction false} ChunksOfLine(line: string, rest: string)
    requires '\n' !in line && |line| <= ROOM
    ensures Chunks(line + "\n" + rest) == (if |line| < ROOM then [line + "\n"] else [line, "\n"]) + Chunks(rest)
  {
    var s := line + "\n" + rest;
    IndexIs(line, '\n', rest);
    if |line| < ROOM {
      assert s[..|line| + 1] == line + "\n" && s[|line| + 1..] == rest;
    } else {
      assert s[..ROOM] == line && s[ROOM..] == "\n" + rest;
      IndexIs("", '\n', rest);
      assert "" + "\n" + rest == "\n" + rest;
      assert ("\n" + rest)[..1] == "\n" && ("\n" + rest)[1..] == rest;
    }
  }

  datatype Parsed = Skip | Unset(name: string) | Assign(name: string, text: string)

  /** The newline and one carriage return before it are cut off; without a newline nothing is. */
  function CutEnd(v: string): (t: string)
    ensures t <= v && '\n' !in t
  {
    var j := IndexOf(v, '\n');
    if j.None? then v
    else if j.value > 0 && v[j.value - 1] == '\r' then
      assert v[..j.value - 1] == v[..j.value][..j.value - 1];
      v[..j.value - 1]
    else v[..j.value]
  }

  /** `# MKR_NAME is not set`, `MKR_NAME=text`, or something else. */
  function ParseLine(line: string): Parsed {
    if |line| >= 6 && line[0] == '#' && line[2..6] == MKR then
      var k := IndexOf(line[6..], ' ');
      if k.Some? && NOT_SET <= line[7 + k.value..] then Unset(line[6..6 + k.value]) else Skip
    else if MKR <= line then
      var k := IndexOf(line[4..], '=');
      if k.Some? then Assign(line[4..4 + k.value], CutEnd(line[5 + k.value..])) else Skip
    else Skip
  }

  /** No character that separates the parts of a line. */
  predicate Plain(name: string) { ' ' !in name && '=' !in name && '\n' !in name }

  function UnsetLine(name: string): string { "# " + MKR + name + " " + NOT_SET }

  function AssignLine(name: string, text: string): string { MKR + name + "=" + text }

  lemma {:induction false} ParseUnset(name: string, end: string)
    requires Plain(name)
    ensures ParseLine(UnsetLine(name) + end) == Unset(name)
  {
    var line := UnsetLine(name) + end;
    assert line[2..6] == MKR;
    assert line[6..] == name + " " + (NOT_SET + end);
    IndexIs(name, ' ', NOT_SET + end);
    assert line[7 + |name|..] == NOT_SET + end;
    assert line[6..6 + |name|] == name;
  }

  lemma {:induction false} ParseAssign(name: string, text: string, end: string)
    requires Plain(name)
    ensures ParseLine(AssignLine(name, text) + end) == Assign(name, CutEnd(text + end))
  {
    var line := AssignLine(name, text) + end;
    assert line[..4] == MKR && line[0] == 'M';
    assert line[4..] == name + "=" + (text + end);
    IndexIs(name, '=', text + end);
    assert line[5 + |name|..] == text + end && line[4..4 + |name|] == name;
  }

  lemma {:induction false} UnsetLineIsOne(name: string)
    requires Plain(name)
    ensures '\n' !in UnsetLine(name)
  {
    assert '\n' !in "# " + MKR && '\n' !in " " + NOT_SET;
    assert UnsetLine(name) == ("# " + MKR) + name + (" " + NOT_SET);
  }

  lemma {:induction false} AssignLineIsOne(name: string, text: string)
    requires Plain(name) && '\n' !in text
    ensures '\n' !in AssignLine(name, text)
  {
    assert '\n' !in MKR && '\n' !in "=";
  }

  /** Which texts survive: cutting the end off gives the text back unless it ends in a carriage return. */
  lemma {:induction false} CutNewline(text: string)
    requires '\n' !in text
    ensures CutEnd(text) == text
    ensures CutEnd(text + "\n") == (if text != "" && text[|text| - 1] == '\r' then text[..|text| - 1] else text)
  {
    IndexIs(text, '\n', "");
    assert text + "\n" + "" == text + "\n";
    assert (text + "\n")[..|text|] == text;
    if text != "" {
      assert (text + "\n")[..|text| - 1] == text[..|text| - 1];
    }
  }

  /** Whatever file a text is read from, it is short and has no newline. */
  lemma {:induction false} ParsedIsShort(line: string)
    requires |line| <= ROOM
    ensures var p := ParseLine(line); p.Assign? ==> '\n' !in p.text && 5 + |p.name| + |p.text| <= ROOM
  {}

  lemma {:induction false} ChunksAreShort(s: string)
    ensures forall i | 0 <= i < |Chunks(s)| :: |Chunks(s)[i]| <= ROOM
    decreases |s|
  {
    if s != "" {
      ChunksAreShort(s[ChunkLen(s)..]);
    }
  }
}
