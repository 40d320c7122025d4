/** What conf_write prints, conf_read_simple reads back. */
module ConfRoundTrip {
  import opened Options
  import opened Tristates
  import opened Exprs
  import opened MenuLinks
  import opened MenuWalk
  import opened ConfText
  import opened ConfReading
  import opened ConfWriting

  // ----- one symbol ---------------------------------------------------------------

  /** sym_lookup never makes two symbols of one name, and y, m, n are taken. */
  predicate NamesOk(syms: seq<ConfSym>) {
    && (forall i | 0 <= i < |syms| :: Plain(syms[i].name) && !Reserved(syms[i].name))
    && (forall i, j | 0 <= i < j < |syms| :: syms[i].name != syms[j].name)
  }

  /** A value that survives: it is valid for its type and its line comes back from the buffer as it was. */
  predicate Readable(name: string, t: SymType, s: Seen)
    requires IsLogical(t) || IsTextual(t)
  {
    && |SymLine(name, t, s)| <= ROOM
    && (t == Boolean ==> s.tri != MOD)
    && (IsTextual(t) ==>
          && TextValid(t, s.str) && '\n' !in s.str
          && (s.str != "" && s.str[|s.str| - 1] == '\r' ==> |SymLine(name, t, s)| == ROOM))
  }

  /** The user value that says the same as what the writer saw. */
  function SameUser(t: SymType, s: Seen): Def {
    if IsTextual(t) then Def(true, NO, Some(s.str)) else Def(true, s.tri, None)
  }

  lemma {:induction false} FindIs(syms: seq<ConfSym>, i: nat, from: nat)
    requires NamesOk(syms) && from <= i < |syms|
    ensures Find(syms, syms[i].name, from) == Some(i)
    decreases i - from
  {
    if from < i {
      FindIs(syms, i, from + 1);
    }
  }

  /** What reaches the parser of a line that fits: the last newline only if there is room for it. */
  function Received(line: string): string { if |line| < ROOM then line + "\n" else line }

  lemma {:induction false} UnsetReceived(name: string)
    requires Plain(name)
    ensures ParseLine(Received(UnsetLine(name))) == Unset(name) && '\n' !in UnsetLine(name)
  {
    ParseUnset(name, "\n");
    ParseUnset(name, "");
    UnsetLineIsOne(name);
    assert UnsetLine(name) + "" == UnsetLine(name);
  }

  lemma {:induction false} AssignReceived(name: string, text: string)
    requires Plain(name) && '\n' !in text
    requires text != "" && text[|text| - 1] == '\r' ==> |AssignLine(name, text)| >= ROOM
    ensures ParseLine(Received(AssignLine(name, text))) == Assign(name, text) && '\n' !in AssignLine(name, text)
  {
    ParseAssign(name, text, "\n");
    ParseAssign(name, text, "");
    CutNewline(text);
    AssignLineIsOne(name, text);
    assert AssignLine(name, text) + "" == AssignLine(name, text) && text + "" == text;
  }

  /** The value in the line of a symbol. */
  function Shown(t: SymType, s: Seen): string { if IsTextual(t) then s.str else TriName(s.tri) }

  function Meaning(name: string, t: SymType, s: Seen): Parsed {
    if IsLogical(t) && s.tri == NO then Unset(name) else Assign(name, Shown(t, s))
  }

  lemma {:induction false} SymLineParsed(name: string, t: SymType, s: Seen)
    requires (IsLogical(t) || IsTextual(t)) && Plain(name) && Readable(name, t, s)
    ensures '\n' !in SymLine(name, t, s)
    ensures ParseLine(Received(SymLine(name, t, s))) == Meaning(name, t, s)
  {
    if IsLogical(t) && s.tri == NO {
      UnsetReceived(name);
    } else {
      AssignReceived(name, Shown(t, s));
    }
  }

  /** A symbol's user value is set and its choice told. */
  function Told(syms: seq<ConfSym>, st: State, i: nat, d: Def): (r: State)
    requires Fits(syms, st) && i < |syms|
    ensures Fits(syms, r) && r.types == st.types && r.defs == st.defs[i := d] && |r.choices| == |st.choices|
  {
    UpdateChoice(syms, st.(defs := st.defs[i := d]), i)
  }

  /** One written line gives its symbol the value the writer saw, and tells its choice. */
  lemma {:induction false} SymLineRead(syms: seq<ConfSym>, st: State, i: nat, s: Seen, rest: string)
    requires Fits(syms, st) && NamesOk(syms) && i < |syms| && st.defs[i] == UNSET
    requires (IsLogical(st.types[i]) || IsTextual(st.types[i])) && Readable(syms[i].name, st.types[i], s)
    ensures var t := st.types[i];
      ReadOn(syms, st, SymLine(syms[i].name, t, s) + "\n" + rest) ==
      ReadOn(syms, Told(syms, st, i, SameUser(t, s)), rest)
  {
    var t, name := st.types[i], syms[i].name;
    SymLineParsed(name, t, s);
    ReadLine(syms, st, SymLine(name, t, s), rest);
    FindIs(syms, i, 0);
    SymApplied(syms, st, i, s);
  }

  lemma {:induction false} SymApplied(syms: seq<ConfSym>, st: State, i: nat, s: Seen)
    requires Fits(syms, st) && i < |syms| && Find(syms, syms[i].name, 0) == Some(i) && st.defs[i] == UNSET
    requires IsLogical(st.types[i]) || IsTextual(st.types[i])
    requires st.types[i] == Boolean ==> s.tri != MOD
    requires IsTextual(st.types[i]) ==> TextValid(st.types[i], s.str)
    ensures Apply(syms, st, Meaning(syms[i].name, st.types[i], s))
      == Told(syms, st, i, SameUser(st.types[i], s))
  {
    assert st.types[i := st.types[i]] == st.types;
  }

  // ----- comments -------------------------------------------------------------------

  predicate HarmlessText(text: string) { '\n' !in text && |text| + 2 <= ROOM && !(MKR <= text) }

  /** A line that is neither shape changes nothing. */
  lemma {:induction false} CommentRead(syms: seq<ConfSym>, st: State, line: string, rest: string)
    requires Fits(syms, st)
    requires line == "" || line == "#" || (exists text :: line == "# " + text && HarmlessText(text))
    ensures ReadOn(syms, st, line + "\n" + rest) == ReadOn(syms, st, rest)
  {
    if line != "" && line != "#" {
      var text :| line == "# " + text && HarmlessText(text);
      assert |text| >= 4 ==> line[2..6] == text[..4] && (line + "\n")[2..6] == text[..4];
      assert |text| == 3 ==> (line + "\n")[2..6][3] == '\n';
    }
    ReadLine(syms, st, line, rest);
  }

  lemma {:induction false} CommentTextRead(syms: seq<ConfSym>, st: State, prompt: string, rest: string)
    requires Fits(syms, st) && HarmlessText(prompt)
    ensures ReadOn(syms, st, CommentText(prompt) + rest) == ReadOn(syms, st, rest)
  {
    var d := "#" + "\n" + rest;
    var c := "# " + prompt + "\n" + d;
    var b := "#" + "\n" + c;
    assert CommentText(prompt) + rest == "" + "\n" + b;
    CommentRead(syms, st, "", b);
    CommentRead(syms, st, "#", c);
    CommentRead(syms, st, "# " + prompt, d);
    CommentRead(syms, st, "#", rest);
  }

  predicate HarmlessTop(top: Banner) { HarmlessText(top.text) && (top.stamp.Some? ==> HarmlessText(top.stamp.value)) }

  lemma {:induction false} HeaderRead(syms: seq<ConfSym>, st: State, top: Banner, rest: string)
    requires Fits(syms, st) && HarmlessTop(top)
    ensures ReadOn(syms, st, Header(top) + rest) == ReadOn(syms, st, rest)
  {
    var c := "#" + "\n" + rest;
    var b := if top.stamp.Some? then "# " + top.stamp.value + "\n" + c else c;
    var a := "# " + top.text + "\n" + b;
    assert Header(top) + rest == "#" + "\n" + a;
    CommentRead(syms, st, "#", a);
    CommentRead(syms, st, "# " + top.text, b);
    if top.stamp.Some? {
      CommentRead(syms, st, "# " + top.stamp.value, c);
    }
    CommentRead(syms, st, "#", rest);
  }

  // ----- choices --------------------------------------------------------------------

  ghost predicate HasMember(syms: seq<ConfSym>, st: State, c: nat, v: Tristate)
    requires Fits(syms, st)
  {
    exists i :: 0 <= i < |syms| && syms[i].choice == Some(c) && st.defs[i].tri == v
  }

  /** What a choice symbol's user value says about its members' user values. */
  ghost predicate ChoiceAgrees(syms: seq<ConfSym>, st: State, c: nat)
    requires Fits(syms, st) && c < |st.choices|
  {
    var d := st.choices[c];
    && (forall i | 0 <= i < |syms| && syms[i].choice == Some(c) :: st.defs[i].tri <= d.tri)
    && (d.tri != NO ==> HasMember(syms, st, c, d.tri))
    && (d.tri == YES ==> d.pick.Some?)
    && (d.pick.Some? ==>
      d.pick.value < |syms| && syms[d.pick.value].choice == Some(c) && st.defs[d.pick.value].tri == YES)
    && (!d.has ==> HasMember(syms, st, c, MOD) && HasMember(syms, st, c, YES))
  }

  ghost predicate ChoicesAgree(syms: seq<ConfSym>, st: State)
    requires Fits(syms, st)
  {
    forall c | 0 <= c < |st.choices| :: ChoiceAgrees(syms, st, c)
  }

  lemma {:induction false} MemberStays(syms: seq<ConfSym>, st: State, i: nat, d: Def, c: nat, v: Tristate)
    requires Fits(syms, st) && i < |syms| && st.defs[i].tri == NO && v != NO && HasMember(syms, st, c, v)
    ensures HasMember(syms, st.(defs := st.defs[i := d]), c, v)
  {
    var j :| 0 <= j < |syms| && syms[j].choice == Some(c) && st.defs[j].tri == v;
    assert st.defs[i := d][j].tri == v;
  }

  /** A member that had no value so far gets one, and the choice learns of it. */
  lemma {:induction false} ChoiceStep(syms: seq<ConfSym>, st: State, i: nat, d: Def, c: nat)
    requires Fits(syms, st) && i < |syms| && st.defs[i].tri == NO && c < |st.choices| && ChoiceAgrees(syms, st, c)
    ensures ChoiceAgrees(syms, Told(syms, st, i, d), c)
  {
    var st1 := st.(defs := st.defs[i := d]);
    var st2 := UpdateChoice(syms, st1, i);
    forall v: Tristate | v != NO && HasMember(syms, st, c, v) ensures HasMember(syms, st2, c, v) {
      MemberStays(syms, st, i, d, c, v);
      SameMembers(syms, st1, st2, c, v);
    }
    if syms[i].choice == Some(c) {
      assert st2.defs[i].tri == d.tri;
      assert HasMember(syms, st2, c, d.tri);
    }
  }

  lemma {:induction false} SameMembers(syms: seq<ConfSym>, a: State, b: State, c: nat, v: Tristate)
    requires Fits(syms, a) && Fits(syms, b) && a.defs == b.defs && HasMember(syms, a, c, v)
    ensures HasMember(syms, b, c, v)
  {
    var j :| 0 <= j < |syms| && syms[j].choice == Some(c) && a.defs[j].tri == v;
    assert b.defs[j].tri == v;
  }

  // ----- the whole file -------------------------------------------------------------

  predicate Typed(t: SymType) { IsLogical(t) || IsTextual(t) }

  ghost predicate Occurs(job: Job, ids: seq<Id>, i: nat) { exists k :: 0 <= k < |ids| && job.entry(ids[k]) == OfSym(i) }

  /** What the file's contents must be like for it to say what was meant. */
  ghost predicate Printable(job: Job, ids: seq<Id>)
    requires job.Ok()
  {
    && NamesOk(job.syms)
    && (forall k | 0 <= k < |ids| ::
      job.entry(ids[k]).Comment? && job.entry(ids[k]).visible ==> HarmlessText(job.entry(ids[k]).prompt))
    && (forall i | 0 <= i < |job.syms| && Typed(job.types[i]) && job.seen[i].write && Occurs(job, ids, i) ::
          Readable(job.syms[i].name, job.types[i], job.seen[i]))
  }

  /** What a symbol's user value should be after reading. */
  ghost function UserValue(job: Job, ids: seq<Id>, i: nat): Def
    requires job.Ok() && i < |job.syms|
  {
    if job.seen[i].write && Typed(job.types[i]) && Occurs(job, ids, i) then SameUser(job.types[i], job.seen[i])
      else UNSET
  }

  /** The user values after reading: those of the written symbols, and what was known of the others. */
  ghost predicate ReadFrom(job: Job, ids: seq<Id>, w: set<nat>, before: State, after: State)
    requires job.Ok() && Fits(job.syms, before) && Fits(job.syms, after)
  {
    && after.types == before.types
    && forall i | 0 <= i < |job.syms| :: after.defs[i] ==
         if i in w && Typed(job.types[i]) && Occurs(job, ids, i) then SameUser(job.types[i], job.seen[i])
           else before.defs[i]
  }

  lemma {:induction false} OccursStep(job: Job, ids: seq<Id>, i: nat)
    requires ids != []
    ensures Occurs(job, ids, i) <==> job.entry(ids[0]) == OfSym(i) || Occurs(job, ids[1..], i)
  {
    if Occurs(job, ids, i) {
      var k :| 0 <= k < |ids| && job.entry(ids[k]) == OfSym(i);
      assert k > 0 ==> job.entry(ids[1..][k - 1]) == OfSym(i);
    }
    if Occurs(job, ids[1..], i) {
      var k :| 0 <= k < |ids[1..]| && job.entry(ids[1..][k]) == OfSym(i);
      assert job.entry(ids[k + 1]) == OfSym(i);
    }
  }

  /** One entry's text: the state it is read into, with the symbol's value if it printed one. */
  function AfterEntry(job: Job, st: State, e: Id, w: set<nat>): (r: State)
    requires job.Ok() && Fits(job.syms, st)
    ensures Fits(job.syms, r)
  {
    match job.entry(e)
    case OfSym(i) =>
      if i in w && Typed(job.types[i])
      then Told(job.syms, st, i, SameUser(job.types[i], job.seen[i]))
      else st
    case _ => st
  }

  lemma {:induction false} EntryRead(job: Job, st: State, e: Id, w: set<nat>, rest: string)
    requires job.Ok() && Fits(job.syms, st) && Printable(job, [e]) && st.types == job.types
    requires forall i | i in w && i < |job.syms| :: job.seen[i].write && st.defs[i] == UNSET
    ensures ReadOn(job.syms, st, job.Text(e, w) + rest) == ReadOn(job.syms, AfterEntry(job, st, e, w), rest)
  {
    assert "" + rest == rest;
    assert job.entry([e][0]) == job.entry(e);
    assert job.entry(e).OfSym? ==> Occurs(job, [e], job.entry(e).i);
    match job.entry(e)
    case Comment(visible, prompt) =>
      if visible {
        CommentTextRead(job.syms, st, prompt, rest);
      }
    case OfSym(i) =>
      if i in w && Typed(job.types[i]) {
        SymLineRead(job.syms, st, i, job.seen[i], rest);
      }
    case OfChoice =>
  }

  lemma {:induction false} EntryEffect(job: Job, st: State, e: Id, w: set<nat>)
    requires job.Ok() && Fits(job.syms, st) && ChoicesAgree(job.syms, st) && st.types == job.types
    requires forall i | i in w && i < |job.syms| :: st.defs[i] == UNSET
    ensures var r := AfterEntry(job, st, e, w);
      && ChoicesAgree(job.syms, r) && r.types == st.types
      && forall i | 0 <= i < |job.syms| :: r.defs[i] ==
           if i in w && Typed(job.types[i]) && job.entry(e) == OfSym(i) then SameUser(job.types[i], job.seen[i])
             else st.defs[i]
  {
    if job.entry(e).OfSym? {
      var i := job.entry(e).i;
      if i in w && Typed(job.types[i]) {
        var d := SameUser(job.types[i], job.seen[i]);
        forall c | 0 <= c < |st.choices| ensures ChoiceAgrees(job.syms, AfterEntry(job, st, e, w), c) {
          ChoiceStep(job.syms, st, i, d, c);
        }
      }
    }
  }

  lemma {:induction false} PrintableParts(job: Job, ids: seq<Id>)
    requires job.Ok() && ids != [] && Printable(job, ids)
    ensures Printable(job, [ids[0]]) && Printable(job, ids[1..])
  {
    forall i ensures Occurs(job, [ids[0]], i) || Occurs(job, ids[1..], i) ==> Occurs(job, ids, i) {
      OccursStep(job, ids, i);
      OccursStep(job, [ids[0]], i);
    }
  }

  /** The body of the file, whatever was read before it. */
  lemma {:induction false} BodyRead(job: Job, st: State, ids: seq<Id>, w: set<nat>)
    requires job.Ok() && Fits(job.syms, st) && Printable(job, ids) && ChoicesAgree(job.syms, st)
    requires st.types == job.types
    requires forall i | i in w && i < |job.syms| :: job.seen[i].write && st.defs[i] == UNSET
    ensures var r := ReadOn(job.syms, st, job.Body(ids, w));
      ReadFrom(job, ids, w, st, r) && ChoicesAgree(job.syms, r)
    decreases |ids|
  {
    if ids != [] {
      var e, w' := ids[0], w - job.Done(ids[0]);
      var st1 := AfterEntry(job, st, e, w);
      PrintableParts(job, ids);
      EntryRead(job, st, e, w, job.Body(ids[1..], w'));
      EntryEffect(job, st, e, w);
      BodyRead(job, st1, ids[1..], w');
      forall i | 0 <= i < |job.syms|
        ensures Occurs(job, ids, i) <==> job.entry(e) == OfSym(i) || Occurs(job, ids[1..], i)
      {
        OccursStep(job, ids, i);
      }
    }
  }

  // ----- the main results -------------------------------------------------------------

  lemma {:induction false} ResetAgrees(syms: seq<ConfSym>, st: State)
    requires Fits(syms, st) && OthersUnset(st)
    ensures ChoicesAgree(syms, Reset(syms, st))
  {
    ResetIsUnset(syms, st);
  }

  /**
   * conf_write, then conf_read_simple on its output: exactly the symbols that were written have a user
   * value, it says what the writer saw, and every choice knows as much as its members.
   */
  method WriteThenRead(l: Links, root: Id, job: Job, top: Banner, config: Config, ghost kids: Forest)
    requires job.Ok() && Ordered(l, One(root, kids)) && l.Parent(root) == None
    requires config.Valid() && config.syms == job.syms && config.types == job.types
    requires Printable(job, Pre(kids)) && HarmlessTop(top)
    modifies config
    ensures config.Valid() && config.types == old(config.types)
    ensures forall i | 0 <= i < |job.syms| :: config.defs[i] == UserValue(job, Pre(kids), i)
    ensures ChoicesAgree(job.syms, config.Now())
  {
    var out := ConfWrite(l, root, job, top, kids);
    ghost var start := Reset(job.syms, config.Now());
    ResetAgrees(job.syms, config.Now());
    ResetIsUnset(job.syms, config.Now());
    HeaderRead(job.syms, start, top, job.Body(Pre(kids), job.Pending()));
    BodyRead(job, start, Pre(kids), job.Pending());
    config.ReadSimple(out);
  }

  /** If exactly one member of a choice was y, the choice's user value is y and its pick is that member. */
  lemma {:induction false} ChoiceReadBack(syms: seq<ConfSym>, st: State, c: nat, i: nat)
    requires Fits(syms, st) && c < |st.choices| && ChoiceAgrees(syms, st, c)
    requires i < |syms| && syms[i].choice == Some(c) && st.defs[i].tri == YES
    requires forall j | 0 <= j < |syms| && syms[j].choice == Some(c) && j != i :: st.defs[j].tri != YES
    ensures st.choices[c].tri == YES && st.choices[c].pick == Some(i)
    ensures (forall j | 0 <= j < |syms| && syms[j].choice == Some(c) :: st.defs[j].tri != MOD) ==> st.choices[c].has
  {}

  // ----- which texts survive ------------------------------------------------------------

  predicate ShortText(name: string, text: string) { '\n' !in text && 5 + |name| + |text| <= ROOM }

  /** A value read from a file has no newline and had to share the buffer with its name. */
  predicate ValueShort(syms: seq<ConfSym>, st: State, i: nat)
    requires Fits(syms, st) && i < |syms|
  {
    st.defs[i].val.Some? ==> ShortText(syms[i].name, st.defs[i].val.value)
  }

  lemma {:induction false} ShortApply(syms: seq<ConfSym>, st: State, i: nat, p: Parsed)
    requires Fits(syms, st) && i < |syms| && ValueShort(syms, st, i) && (p.Assign? ==> ShortText(p.name, p.text))
    ensures ValueShort(syms, Apply(syms, st, p), i)
  {}

  lemma {:induction false} ShortAll(syms: seq<ConfSym>, st: State, i: nat, lines: seq<string>)
    requires Fits(syms, st) && i < |syms| && ValueShort(syms, st, i)
    requires forall k | 0 <= k < |lines| :: |lines[k]| <= ROOM
    ensures ValueShort(syms, ApplyAll(syms, st, lines), i)
    decreases |lines|
  {
    if lines != [] {
      ParsedIsShort(lines[0]);
      ShortApply(syms, st, i, ParseLine(lines[0]));
      ShortAll(syms, Apply(syms, st, ParseLine(lines[0])), i, lines[1..]);
    }
  }

  lemma {:induction false} ReadValuesAreShort(syms: seq<ConfSym>, st: State, i: nat, content: string)
    requires Fits(syms, st) && i < |syms| && (st.types[i] == Other ==> ValueShort(syms, st, i))
    ensures ValueShort(syms, ReadOn(syms, Reset(syms, st), content), i)
  {
    ChunksAreShort(content);
    ShortAll(syms, Reset(syms, st), i, Chunks(content));
  }

  /** A text whose line is received as another text, or that is not valid, does not come back. */
  lemma {:induction false} LostText(syms: seq<ConfSym>, st: State, i: nat, text: string, got: string)
    requires Fits(syms, st) && NamesOk(syms) && i < |syms| && IsTextual(st.types[i]) && st.defs[i] == UNSET
    requires '\n' !in text && |AssignLine(syms[i].name, text)| <= ROOM
    requires ParseLine(Received(AssignLine(syms[i].name, text))) == Assign(syms[i].name, got)
    requires got != text || !TextValid(st.types[i], text)
    ensures ReadOn(syms, st, AssignLine(syms[i].name, text) + "\n").defs[i].val != Some(text)
  {
    var line := AssignLine(syms[i].name, text);
    AssignLineIsOne(syms[i].name, text);
    ReadLine(syms, st, line, "");
    assert line + "\n" + "" == line + "\n";
    FindIs(syms, i, 0);
    AssignedValue(syms, st, i, got);
  }

  /** An assignment stores exactly the text it was parsed with, if that is valid. */
  lemma {:induction false} AssignedValue(syms: seq<ConfSym>, st: State, i: nat, got: string)
    requires Fits(syms, st) && i < |syms| && IsTextual(st.types[i]) && Find(syms, syms[i].name, 0) == Some(i)
    ensures Apply(syms, st, Assign(syms[i].name, got)).defs[i].val ==
      if TextValid(st.types[i], got) then Some(got) else st.defs[i].val
  {}

  /** A carriage return at the end is lost, unless the line fills the buffer to the last byte. */
  lemma {:induction false} ReturnIsLost(name: string, text: string)
    requires Plain(name) && '\n' !in text && |AssignLine(name, text)| < ROOM && text != "" && text[|text| - 1] == '\r'
    ensures ParseLine(Received(AssignLine(name, text))) == Assign(name, text[..|text| - 1])
  {
    ParseAssign(name, text, "\n");
    CutNewline(text);
  }

  /** The line of a string, int or hex symbol gives its value back if and only if the value is Readable. */
  lemma {:induction false} ReadBackExactly(syms: seq<ConfSym>, st: State, i: nat, s: Seen)
    requires Fits(syms, st) && NamesOk(syms) && i < |syms| && IsTextual(st.types[i])
    ensures var name, t := syms[i].name, st.types[i];
      ReadOn(syms, Reset(syms, st), SymLine(name, t, s) + "\n").defs[i] == SameUser(t, s) <==> Readable(name, t, s)
  {
    var name, t, start := syms[i].name, st.types[i], Reset(syms, st);
    var line := SymLine(name, t, s);
    assert line + "\n" + "" == line + "\n";
    if Readable(name, t, s) {
      SymLineRead(syms, start, i, s, "");
    } else if '\n' in s.str || |line| > ROOM {
      ReadValuesAreShort(syms, st, i, line + "\n");
      assert |line| == 5 + |name| + |s.str|;
    } else if s.str != "" && s.str[|s.str| - 1] == '\r' && |line| < ROOM {
      ReturnIsLost(name, s.str);
      LostText(syms, start, i, s.str, s.str[..|s.str| - 1]);
    } else {
      AssignReceived(name, s.str);
      LostText(syms, start, i, s.str, s.str);
    }
  }
}
