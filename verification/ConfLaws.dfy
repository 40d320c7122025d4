/** Which texts are values, what an assignment in the file does to each type of symbol, and what is written. */
module ConfLaws {
  import opened Options
  import opened Tristates
  import opened Exprs
  import opened ConfText
  import opened ConfReading
  import opened MenuLinks
  import opened ConfWriting

  const DECIMAL := "0123456789"
  const HEXADECIMAL := "0123456789abcdefABCDEF"

  /** At least one character, and all of them from the alphabet. */
  predicate Word(alphabet: string, s: string) { s != "" && forall i | 0 <= i < |s| :: s[i] in alphabet }

  lemma {:induction false} Alphabets(c: char)
    ensures IsDigit(c) <==> c in DECIMAL
    ensures IsXDigit(c) <==> c in HEXADECIMAL
  {
    if IsDigit(c) {
      assert DECIMAL[c as int - '0' as int] == c;
    }
    if IsXDigit(c) {
      var k := if IsDigit(c) then c as int - '0' as int
        else if c <= 'F' then c as int - 'A' as int + 16 else c as int - 'a' as int + 10;
      assert HEXADECIMAL[k] == c;
    }
  }

  lemma {:induction false} Words(s: string)
    ensures Digits(s) <==> Word(DECIMAL, s)
    ensures XDigits(s) <==> Word(HEXADECIMAL, s)
  {
    forall c: char ensures IsDigit(c) <==> c in DECIMAL {
      Alphabets(c);
    }
    forall c: char ensures IsXDigit(c) <==> c in HEXADECIMAL {
      Alphabets(c);
    }
  }

  /** A decimal number: a lone zero, or digits of which the first is not zero. */
  predicate Decimal(s: string) { s == "0" || (Word(DECIMAL, s) && s[0] != '0') }

  /** An int symbol takes decimal numbers with at most one minus sign, which zero may have too. */
  lemma {:induction false} IntExactly(s: string)
    ensures TextValid(Int, s) <==> Decimal(s) || exists d :: s == "-" + d && Decimal(d)
  {
    Words(s);
    if s != "" && s[0] == '-' {
      Words(s[1..]);
      assert s == "-" + s[1..];
      assert !Decimal(s) by {
        assert '-' !in DECIMAL;
      }
      assert TextValid(Int, s) <==> Decimal(s[1..]);
    }
  }

  /** The prefix, and then digits. */
  ghost predicate Prefixed(s: string) { exists d :: (s == "0x" + d || s == "0X" + d) && Word(HEXADECIMAL, d) }

  lemma {:induction false} PrefixedExactly(s: string)
    ensures Prefixed(s) <==> |s| >= 2 && s[0] == '0' && s[1] in "xX" && Word(HEXADECIMAL, s[2..])
  {
    if Prefixed(s) {
      var d :| (s == "0x" + d || s == "0X" + d) && Word(HEXADECIMAL, d);
      assert d == s[2..];
    }
    if |s| >= 2 && s[0] == '0' && s[1] in "xX" {
      assert s == "0x" + s[2..] || s == "0X" + s[2..];
    }
  }

  /** A hex symbol takes hex digits, alone or behind 0x or 0X, but not the prefix without a digit. */
  lemma {:induction false} HexExactly(s: string)
    ensures TextValid(Hex, s) <==> Word(HEXADECIMAL, s) || Prefixed(s)
  {
    PrefixedExactly(s);
    Words(s);
    if |s| >= 2 && s[0] == '0' && s[1] in "xX" {
      Words(s[2..]);
      Alphabets(s[1]);
    }
  }

  /** Only the first character counts, m only for a tristate; any other text changes nothing and is no error. */
  lemma {:induction false} LogicalAssignment(t: SymType, d: Def, rest: string)
    requires t == Boolean || t == Tri
    ensures SetSymVal(t, d, "y" + rest) == Stored(t, Def(true, YES, d.val), false)
    ensures SetSymVal(t, d, "n" + rest) == Stored(t, Def(true, NO, d.val), false)
    ensures SetSymVal(Tri, d, "m" + rest) == Stored(Tri, Def(true, MOD, d.val), false)
    ensures SetSymVal(Boolean, d, "m" + rest) == Stored(Boolean, d, false)
    ensures SetSymVal(t, d, "") == Stored(t, d, false)
    ensures forall c | c !in "ymn" :: SetSymVal(t, d, [c] + rest) == Stored(t, d, false)
  {
    forall c | c !in "ymn" ensures SetSymVal(t, d, [c] + rest) == Stored(t, d, false) {
      assert "ymn"[0] == 'y' && "ymn"[1] == 'm' && "ymn"[2] == 'n';
    }
  }

  /** A string is any text, a logical value one that begins with y, m or n; other types have no values. */
  lemma {:induction false} OtherTexts(t: SymType, s: string)
    ensures TextValid(Str, s) && !TextValid(Unknown, s) && !TextValid(Other, s)
    ensures t == Boolean || t == Tri ==> (TextValid(t, s) <==> s != "" && s[0] in {'y', 'Y', 'm', 'M', 'n', 'N'})
  {
    assert "yYmMnN" == ['y', 'Y', 'm', 'M', 'n', 'N'];
  }

  /** A text that is refused leaves the symbol as it was; any other is its user value from then on. */
  lemma {:induction false} TextAssignment(t: SymType, d: Def, text: string)
    requires t == Int || t == Hex || t == Str
    ensures TextValid(t, text) ==> SetSymVal(t, d, text) == Stored(t, Def(true, d.tri, Some(text)), false)
    ensures !TextValid(t, text) ==> SetSymVal(t, d, text) == Stored(t, d, true)
  {}

  /** A symbol that only the file knows becomes a string, unless its text begins with a quote: that is an error. */
  lemma {:induction false} OtherAssignment(d: Def, text: string)
    ensures (text != "" && text[0] == '"') ==> SetSymVal(Other, d, text) == Stored(Other, d, true)
    ensures (text == "" || text[0] != '"') ==>
      SetSymVal(Other, d, text) == Stored(Str, Def(true, d.tri, Some(text)), false)
    ensures SetSymVal(Unknown, d, text) == Stored(Unknown, d, false)
  {}

  /** A line speaks of the first symbol of its name, and of none if that is the name of a constant. */
  lemma {:induction false} FindExactly(syms: seq<ConfSym>, name: string, i: nat)
    ensures Find(syms, name, 0) == Some(i) <==>
      && name !in {"y", "m", "n"}
      && i < |syms| && syms[i].name == name && forall j | 0 <= j < i :: syms[j].name != name
  {
    if name !in {"y", "m", "n"} {
      FindFrom(syms, name, 0);
    }
  }

  lemma {:induction false} FindFrom(syms: seq<ConfSym>, name: string, from: nat)
    requires from <= |syms| && name !in {"y", "m", "n"}
    ensures var k := Find(syms, name, from);
      && (k.Some? ==> forall j | from <= j < k.value :: syms[j].name != name)
      && (k.None? ==> forall j | from <= j < |syms| :: syms[j].name != name)
    decreases |syms| - from
  {
    if from < |syms| && syms[from].name != name {
      FindFrom(syms, name, from + 1);
    }
  }

  // ----- the text of the file -----------------------------------------------------------

  /** The header: a lone #, the banner, the time unless it is turned off, a lone #. */
  lemma {:induction false} HeaderText(top: Banner)
    ensures top.stamp.Some? ==>
      Header(top) == "#\n# " + top.text + "\n# " + top.stamp.value + "\n#\n"
    ensures top.stamp.None? ==> Header(top) == "#\n# " + top.text + "\n#\n"
  {}

  /** What the file says of an entry, the `first` that stands for its symbol or a later one. */
  ghost predicate SaysOf(job: Job, e: Id, first: bool, text: string)
    requires job.Ok()
  {
    match job.entry(e)
    case Comment(visible, prompt) => text == if visible then "\n#\n# " + prompt + "\n#\n" else ""
    case OfChoice => text == ""
    case OfSym(i) =>
      var (name, t, s) := (job.syms[i].name, job.types[i], job.seen[i]);
      if !first || !s.write || t == Unknown || t == Other then text == ""
      else if t == Int || t == Hex || t == Str then text == "MKR_" + name + "=" + s.str + "\n"
      else if s.tri == YES then text == "MKR_" + name + "=y\n"
      else if s.tri == MOD then text == "MKR_" + name + "=m\n"
      else text == "# MKR_" + name + " is not set\n"
  }

  /** The symbol of the entry has no earlier one. */
  ghost predicate IsFirstEntry(job: Job, ids: seq<Id>, k: nat)
    requires k < |ids|
  {
    forall j | 0 <= j < k :: job.entry(ids[j]) != job.entry(ids[k])
  }

  /** The symbols of `w` that no entry before the k-th stands for. */
  ghost function Left(job: Job, ids: seq<Id>, k: nat, w: set<nat>): set<nat>
    requires k <= |ids|
  {
    set i | i in w && forall j | 0 <= j < k :: job.entry(ids[j]) != OfSym(i)
  }

  lemma {:induction false} LeftStep(job: Job, ids: seq<Id>, k: nat, w: set<nat>)
    requires 0 < k <= |ids|
    ensures Left(job, ids[1..], k - 1, w - job.Done(ids[0])) == Left(job, ids, k, w)
  {
    forall i ensures i in Left(job, ids[1..], k - 1, w - job.Done(ids[0])) <==> i in Left(job, ids, k, w) {
      assert forall j | 0 < j < k :: ids[1..][j - 1] == ids[j];
    }
  }

  lemma {:induction false} BodySplit(job: Job, ids: seq<Id>, k: nat, w: set<nat>)
    requires job.Ok() && k < |ids|
    ensures var w' := Left(job, ids, k, w);
      job.Body(ids, w) ==
      job.Body(ids[..k], w) + job.Text(ids[k], w') + job.Body(ids[k + 1..], w' - job.Done(ids[k]))
  {
    if k == 0 {
      assert Left(job, ids, k, w) == w && ids[..k] == [];
    } else {
      var w1 := w - job.Done(ids[0]);
      BodySplit(job, ids[1..], k - 1, w1);
      LeftStep(job, ids, k, w);
      var rest, w' := ids[1..], Left(job, ids, k, w);
      assert rest[..k - 1] == ids[..k][1..] && rest[k..] == ids[k + 1..] && rest[k - 1] == ids[k];
      var before := job.Body(ids[..k][1..], w1);
      var text, after := job.Text(ids[k], w'), job.Body(ids[k + 1..], w' - job.Done(ids[k]));
      assert job.Body(ids[..k], w) == job.Text(ids[0], w) + before;
      assert job.Body(rest, w1) == before + text + after;
      assert job.Body(ids, w) == job.Text(ids[0], w) + job.Body(rest, w1);
      Regrouped(job.Text(ids[0], w), before, text, after);
    }
  }

  lemma {:induction false} Regrouped(a: string, b: string, c: string, d: string)
    ensures a + (b + c + d) == (a + b) + c + d
  {}

  /** What conf_write prints for every entry, at its place between what comes before and after. */
  lemma {:induction false} FileSays(job: Job, ids: seq<Id>, k: nat) returns (text: string, w: set<nat>)
    requires job.Ok() && k < |ids|
    ensures job.Body(ids, job.Pending()) == job.Body(ids[..k], job.Pending()) + text + job.Body(ids[k + 1..], w)
    ensures SaysOf(job, ids[k], IsFirstEntry(job, ids, k), text)
  {
    BodySplit(job, ids, k, job.Pending());
    var w1 := Left(job, ids, k, job.Pending());
    text, w := job.Text(ids[k], w1), w1 - job.Done(ids[k]);
    TextSays(job, ids[k], w1, IsFirstEntry(job, ids, k));
  }

  lemma {:induction false} TextSays(job: Job, e: Id, w: set<nat>, first: bool)
    requires job.Ok()
    requires job.entry(e).OfSym? ==> (job.entry(e).i in w <==> job.seen[job.entry(e).i].write && first)
    ensures SaysOf(job, e, first, job.Text(e, w))
  {
    match job.entry(e)
    case Comment(visible, prompt) =>
      CommentSays(prompt);
    case OfChoice =>
    case OfSym(i) =>
      var (name, t, s) := (job.syms[i].name, job.types[i], job.seen[i]);
      UnsetSays(name);
      AssignSays(name, if IsTextual(t) then s.str else TriName(s.tri));
      YesAndMod(name);
  }

  lemma {:induction false} CommentSays(prompt: string)
    ensures CommentText(prompt) == "\n#\n# " + prompt + "\n#\n"
  {}

  lemma {:induction false} UnsetSays(name: string)
    ensures UnsetLine(name) + "\n" == "# MKR_" + name + " is not set\n"
  {}

  lemma {:induction false} AssignSays(name: string, text: string)
    ensures AssignLine(name, text) + "\n" == "MKR_" + name + "=" + text + "\n"
  {}

  lemma {:induction false} YesAndMod(name: string)
    ensures "MKR_" + name + "=" + "y" + "\n" == "MKR_" + name + "=y\n"
    ensures "MKR_" + name + "=" + "m" + "\n" == "MKR_" + name + "=m\n"
  {}
}
