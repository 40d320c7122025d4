/** What a choice symbol knows after a whole file has been read: the history of its members' values. */
module ConfChoices {
  import opened Options
  import opened Tristates
  import opened Exprs
  import opened ConfText
  import opened ConfReading

  /** A line gave a value to a member of a choice. */
  datatype Tell = Tell(member: nat, tri: Tristate)

  /** The symbol whose line was taken: a known one, and not with a text that its type refuses. */
  function Taken(syms: seq<ConfSym>, st: State, p: Parsed): Option<nat>
    requires Fits(syms, st)
  {
    match p
    case Skip => None
    case Unset(name) => Find(syms, name, 0)
    case Assign(name, text) =>
      var k := Find(syms, name, 0);
      if k.Some? && SetSymVal(st.types[k.value], st.defs[k.value], text).bad then None else k
  }

  /** What one line tells choice `c`: the value that a member has after it. */
  function Telling(syms: seq<ConfSym>, st: State, p: Parsed, c: nat): seq<Tell>
    requires Fits(syms, st)
  {
    var k := Taken(syms, st, p);
    if k.Some? && syms[k.value].choice == Some(c) then [Tell(k.value, Apply(syms, st, p).defs[k.value].tri)] else []
  }

  /** The same for all lines, in the order of the file. */
  function Tells(syms: seq<ConfSym>, st: State, lines: seq<string>, c: nat): seq<Tell>
    requires Fits(syms, st)
    decreases |lines|
  {
    if lines == [] then []
    else
      var p := ParseLine(lines[0]);
      Telling(syms, st, p, c) + Tells(syms, Apply(syms, st, p), lines[1..], c)
  }

  /** Some member got m after one had got y. */
  ghost predicate ModAfterYes(told: seq<Tell>) {
    exists i, j :: 0 <= i < j < |told| && told[i].tri == YES && told[j].tri == MOD
  }

  ghost predicate LastYes(told: seq<Tell>, member: nat) {
    exists k :: 0 <= k < |told| && told[k] == Tell(member, YES) && forall j | k < j < |told| :: told[j].tri != YES
  }

  /** The choice has the largest value of all, picked the last y, and has no user value after a clash. */
  ghost predicate Knows(d: ChoiceDef, told: seq<Tell>) {
    && (forall k | 0 <= k < |told| :: told[k].tri <= d.tri)
    && (d.tri != NO ==> exists k :: 0 <= k < |told| && told[k].tri == d.tri)
    && (d.pick.Some? <==> d.tri == YES)
    && (d.pick.Some? ==> LastYes(told, d.pick.value))
    && (d.has <==> !ModAfterYes(told))
  }

  lemma {:induction false} LearnKnows(d: ChoiceDef, told: seq<Tell>, member: nat, tri: Tristate)
    requires Knows(d, told)
    ensures Knows(Learn(d, member, tri), told + [Tell(member, tri)])
  {
    var r, longer := Learn(d, member, tri), told + [Tell(member, tri)];
    assert longer[|told|] == Tell(member, tri);
    if d.tri != NO {
      var k :| 0 <= k < |told| && told[k].tri == d.tri;
      assert longer[k].tri == d.tri;
    }
    if r.pick.Some? && tri != YES {
      var k :| 0 <= k < |told| && told[k] == Tell(d.pick.value, YES) && forall j | k < j < |told| :: told[j].tri != YES;
      assert longer[k] == told[k];
    }
    if ModAfterYes(told) {
      var i, j :| 0 <= i < j < |told| && told[i].tri == YES && told[j].tri == MOD;
      assert longer[i].tri == YES && longer[j].tri == MOD;
    }
    if ModAfterYes(longer) && !ModAfterYes(told) {
      var i, j :| 0 <= i < j < |longer| && longer[i].tri == YES && longer[j].tri == MOD;
      assert told[i].tri == YES && j == |told|;
    }
  }

  lemma {:induction false} LineKnows(syms: seq<ConfSym>, st: State, p: Parsed, c: nat, told: seq<Tell>)
    requires Fits(syms, st) && c < |st.choices| && Knows(st.choices[c], told)
    ensures Knows(Apply(syms, st, p).choices[c], told + Telling(syms, st, p, c))
  {
    var k := Taken(syms, st, p);
    assert told + [] == told;
    if k.Some? && syms[k.value].choice == Some(c) {
      var tri := Apply(syms, st, p).defs[k.value].tri;
      LearnKnows(st.choices[c], told, k.value, tri);
    }
  }

  lemma {:induction false} LinesKnow(syms: seq<ConfSym>, st: State, lines: seq<string>, c: nat, told: seq<Tell>)
    requires Fits(syms, st) && c < |st.choices| && Knows(st.choices[c], told)
    ensures Knows(ApplyAll(syms, st, lines).choices[c], told + Tells(syms, st, lines, c))
    decreases |lines|
  {
    if lines == [] {
      assert told + [] == told;
    } else {
      var p := ParseLine(lines[0]);
      var st1, tell := Apply(syms, st, p), Telling(syms, st, p, c);
      var rest := Tells(syms, st1, lines[1..], c);
      assert told + Tells(syms, st, lines, c) == told + tell + rest by {
        assert Tells(syms, st, lines, c) == tell + rest;
      }
      assert Knows(st1.choices[c], told + tell) by {
        LineKnows(syms, st, p, c, told);
      }
      LinesKnow(syms, st1, lines[1..], c, told + tell);
    }
  }

  /** After any file: a choice has lost its user value if and only if a member got m after one had got y. */
  lemma {:induction false} ChoiceAfterFile(syms: seq<ConfSym>, st: State, content: string, c: nat)
    requires Fits(syms, st) && c < |st.choices|
    ensures var start, lines := Reset(syms, st), Chunks(content);
      Knows(ReadOn(syms, start, content).choices[c], Tells(syms, start, lines, c))
  {
    var start, lines := Reset(syms, st), Chunks(content);
    LinesKnow(syms, start, lines, c, []);
    assert [] + Tells(syms, start, lines, c) == Tells(syms, start, lines, c);
  }
}
