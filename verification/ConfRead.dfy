/** conf_read_simple(name, S_DEF_USER) with conf_set_sym_val and sym_string_valid. */
module ConfReading {
  import opened Options
  import opened Tristates
  import opened Exprs
  import opened ConfText

  /** A named symbol and, for a choice value, the choice it belongs to. */
  datatype ConfSym = ConfSym(name: string, choice: Option<nat>)

  /** def[S_DEF_USER] and the SYMBOL_DEF_USER flag. */
  datatype Def = Def(has: bool, tri: Tristate, val: Option<string>)

  /** The same of a choice symbol, whose value is the picked symbol. */
  datatype ChoiceDef = ChoiceDef(has: bool, tri: Tristate, pick: Option<nat>)

  datatype State = State(types: seq<SymType>, defs: seq<Def>, choices: seq<ChoiceDef>)

  const UNSET := Def(false, NO, None)
  const NEW_CHOICE := ChoiceDef(true, NO, None)

  predicate Fits(syms: seq<ConfSym>, st: State) {
    && |syms| == |st.types| == |st.defs|
    && forall i | 0 <= i < |syms| :: syms[i].choice.Some? ==> syms[i].choice.value < |st.choices|
  }

  /** symbol_yes, symbol_mod and symbol_no answer to their names whatever else there is. */
  predicate Reserved(name: string) { name == "y" || name == "m" || name == "n" }

  /** sym_find: the symbol of a name; the three constants are of no type, so nothing is stored in them. */
  function Find(syms: seq<ConfSym>, name: string, from: nat): (k: Option<nat>)
    requires from <= |syms|
    ensures k.Some? ==> from <= k.value < |syms| && syms[k.value].name == name && !Reserved(name)
    ensures k.None? ==> Reserved(name) || forall i | from <= i < |syms| :: syms[i].name != name
    decreases |syms| - from
  {
    if from == |syms| || Reserved(name) then None
    else if syms[from].name == name then Some(from)
    else Find(syms, name, from + 1)
  }

  // ----- sym_string_valid -------------------------------------------------------

  predicate IsDigit(c: char) { '0' <= c <= '9' }

  predicate IsXDigit(c: char) { IsDigit(c) || 'a' <= c <= 'f' || 'A' <= c <= 'F' }

  predicate Digits(s: string) { s != "" && forall i | 0 <= i < |s| :: IsDigit(s[i]) }

  predicate XDigits(s: string) { s != "" && forall i | 0 <= i < |s| :: IsXDigit(s[i]) }

  /** An optional minus sign and digits without a leading zero. */
  predicate IntText(s: string) {
    var d := if s != "" && s[0] == '-' then s[1..] else s;
    Digits(d) && (d[0] == '0' ==> |d| == 1)
  }

  /** Hex digits, behind 0x or 0X or alone. */
  predicate HexText(s: string) {
    XDigits(if |s| >= 2 && s[0] == '0' && (s[1] == 'x' || s[1] == 'X') then s[2..] else s)
  }

  predicate TextValid(t: SymType, s: string) {
    match t
    case Str => true
    case Int => IntText(s)
    case Hex => HexText(s)
    case Boolean => s != "" && s[0] in "yYmMnN"
    case Tri => s != "" && s[0] in "yYmMnN"
    case Unknown => false
    case Other => false
  }

  /** A C string read one character at a time ends in NUL. */
  function CharAt(s: string, i: nat): char { if i < |s| then s[i] else '\0' }

  /** sym_string_valid with its two scanning loops. */
  method SymStringValid(t: SymType, s: string) returns (ok: bool)
    ensures ok <==> TextValid(t, s)
  {
    match t
    case Str => return true;
    case Int =>
      var i := 0;
      if CharAt(s, 0) == '-' {
        i := 1;
      }
      ghost var d := s[if s != "" && s[0] == '-' then 1 else 0..];
      assert d == if s != "" && s[0] == '-' then s[1..] else s;
      var ch := CharAt(s, i);
      if !IsDigit(ch) {
        return false;
      }
      assert d[0] == ch;
      if ch == '0' && i + 1 < |s| {
        return false;
      }
      ghost var start := i;
      i := i + 1;
      while i < |s|
        invariant start < i <= |s| && start + |d| == |s| && d == s[start..]
        invariant forall j | start <= j < i :: IsDigit(s[j])
      {
        if !IsDigit(s[i]) {
          assert d[i - start] == s[i];
          return false;
        }
        i := i + 1;
      }
      return true;
    case Hex =>
      var i := if CharAt(s, 0) == '0' && (CharAt(s, 1) == 'x' || CharAt(s, 1) == 'X') then 2 else 0;
      ghost var d, start := s[i..], i;
      if i == |s| {
        return false;
      }
      while i < |s|
        invariant start <= i <= |s| && d == s[start..]
        invariant forall j | start <= j < i :: IsXDigit(s[j])
      {
        if !IsXDigit(s[i]) {
          assert d[i - start] == s[i];
          return false;
        }
        i := i + 1;
      }
      return true;
    case Boolean => return s != "" && s[0] in "yYmMnN";
    case Tri => return s != "" && s[0] in "yYmMnN";
    case Unknown => return false;
    case Other => return false;
  }

  // ----- one line ---------------------------------------------------------------

  datatype Stored = Stored(typ: SymType, def: Def, bad: bool)

  /** conf_set_sym_val: the new type and user value, and whether it returned 1. */
  function SetSymVal(t: SymType, d: Def, p: string): Stored {
    match t
    case Tri => Stored(t, if CharAt(p, 0) == 'm' then d.(tri := MOD, has := true) else TwoVal(d, p), false)
    case Boolean => Stored(t, TwoVal(d, p), false)
    case Other => if CharAt(p, 0) == '"' then Stored(t, d, true)
      else Stored(Str, d.(val := Some(p), has := true), false)
    case Unknown => Stored(t, d, false)
    case _ => if TextValid(t, p) then Stored(t, d.(val := Some(p), has := true), false) else Stored(t, d, true)
  }

  function TwoVal(d: Def, p: string): Def {
    if CharAt(p, 0) == 'y' then d.(tri := YES, has := true)
    else if CharAt(p, 0) == 'n' then d.(tri := NO, has := true)
    else d
  }

  /** What a choice learns of a value that one of its members was given. */
  function Learn(c: ChoiceDef, member: nat, tri: Tristate): ChoiceDef {
    var c1 := if tri == MOD && c.tri == YES then c.(has := false)
      else if tri == YES then c.(pick := Some(member)) else c;
    c1.(tri := Max(c.tri, tri))
  }

  function UpdateChoice(syms: seq<ConfSym>, st: State, i: nat): State
    requires Fits(syms, st) && i < |syms|
  {
    if syms[i].choice.None? then st
    else
      var c := syms[i].choice.value;
      st.(choices := st.choices[c := Learn(st.choices[c], i, st.defs[i].tri)])
  }

  function Apply(syms: seq<ConfSym>, st: State, p: Parsed): (r: State)
    requires Fits(syms, st)
    ensures Fits(syms, r) && |r.choices| == |st.choices|
  {
    match p
    case Skip => st
    case Unset(name) =>
      var k := Find(syms, name, 0);
      if k.None? then st
      else
        var i := k.value;
        var st1 := if st.types[i] == Boolean || st.types[i] == Tri
          then st.(defs := st.defs[i := st.defs[i].(tri := NO, has := true)]) else st;
        UpdateChoice(syms, st1, i)
    case Assign(name, text) =>
      var k := Find(syms, name, 0);
      if k.None? then st
      else
        var i := k.value;
        var s := SetSymVal(st.types[i], st.defs[i], text);
        var st1 := st.(types := st.types[i := s.typ], defs := st.defs[i := s.def]);
        if s.bad then st1 else UpdateChoice(syms, st1, i)
  }

  function ApplyAll(syms: seq<ConfSym>, st: State, lines: seq<string>): (r: State)
    requires Fits(syms, st)
    ensures Fits(syms, r) && |r.choices| == |st.choices|
    decreases |lines|
  {
    if lines == [] then st else ApplyAll(syms, Apply(syms, st, ParseLine(lines[0])), lines[1..])
  }

  /** Reading `content` on top of what is already known. */
  function ReadOn(syms: seq<ConfSym>, st: State, content: string): (r: State)
    requires Fits(syms, st)
    ensures Fits(syms, r)
  {
    ApplyAll(syms, st, Chunks(content))
  }

  /**
   * The loop over all symbols before the first line, which passes over those of type S_OTHER: the others
   * have no user value afterwards, but the choices do.
   */
  function Reset(syms: seq<ConfSym>, st: State): (r: State)
    requires Fits(syms, st)
    ensures Fits(syms, r)
  {
    var defs := seq(|syms|, i requires 0 <= i < |syms| => if st.types[i] == Other then st.defs[i] else UNSET);
    State(st.types, defs, seq(|st.choices|, _ => NEW_CHOICE))
  }

  /** A symbol of type S_OTHER never has a user value: an assignment that gives it one changes its type. */
  predicate OthersUnset(st: State) {
    |st.types| == |st.defs| && forall i | 0 <= i < |st.types| && st.types[i] == Other :: st.defs[i] == UNSET
  }

  lemma {:induction false} StillUnset(syms: seq<ConfSym>, st: State, p: Parsed)
    requires Fits(syms, st) && OthersUnset(st)
    ensures OthersUnset(Apply(syms, st, p))
  {}

  lemma {:induction false} ResetIsUnset(syms: seq<ConfSym>, st: State)
    requires Fits(syms, st) && OthersUnset(st)
    ensures OthersUnset(Reset(syms, st)) && forall i | 0 <= i < |syms| :: Reset(syms, st).defs[i] == UNSET
  {}

  lemma {:induction false} ReadLine(syms: seq<ConfSym>, st: State, line: string, rest: string)
    requires Fits(syms, st) && '\n' !in line && |line| <= ROOM
    ensures ReadOn(syms, st, line + "\n" + rest) ==
      ReadOn(syms, Apply(syms, st, ParseLine(if |line| < ROOM then line + "\n" else line)), rest)
  {
    ChunksOfLine(line, rest);
    if |line| < ROOM {
      ApplyOne(syms, st, line + "\n", Chunks(rest));
    } else {
      ApplyOne(syms, st, line, ["\n"] + Chunks(rest));
      assert [line, "\n"] + Chunks(rest) == [line] + (["\n"] + Chunks(rest));
      ApplyOne(syms, Apply(syms, st, ParseLine(line)), "\n", Chunks(rest));
    }
  }

  lemma {:induction false} ReadFirst(syms: seq<ConfSym>, st: State, rest: string)
    requires Fits(syms, st) && rest != ""
    ensures var n := ChunkLen(rest);
      ReadOn(syms, st, rest) == ReadOn(syms, Apply(syms, st, ParseLine(rest[..n])), rest[n..])
  {
    ApplyOne(syms, st, rest[..ChunkLen(rest)], Chunks(rest[ChunkLen(rest)..]));
  }

  lemma {:induction false} ApplyOne(syms: seq<ConfSym>, st: State, line: string, lines: seq<string>)
    requires Fits(syms, st)
    ensures ApplyAll(syms, st, [line] + lines) == ApplyAll(syms, Apply(syms, st, ParseLine(line)), lines)
  {
    assert ([line] + lines)[0] == line && ([line] + lines)[1..] == lines;
  }

  /** All symbols with their types and user values, as conf_read_simple updates them. */
  class Config {
    const syms: seq<ConfSym>
    var types: seq<SymType>
    var defs: seq<Def>
    var choices: seq<ChoiceDef>

    constructor (syms: seq<ConfSym>, types: seq<SymType>, choices: nat)
      requires |types| == |syms|
      requires forall i | 0 <= i < |syms| :: syms[i].choice.Some? ==> syms[i].choice.value < choices
      ensures Valid() && this.syms == syms && this.types == types && |this.choices| == choices
    {
      this.syms, this.types := syms, types;
      this.defs, this.choices := seq(|syms|, _ => UNSET), seq(choices, _ => NEW_CHOICE);
    }

    function Now(): State
      reads this
    {
      State(types, defs, choices)
    }

    ghost predicate Valid()
      reads this
    {
      Fits(syms, Now()) && OthersUnset(Now())
    }

    method SetChoice(i: nat)
      requires Valid() && i < |syms|
      modifies this`choices
      ensures Valid() && Now() == UpdateChoice(syms, old(Now()), i)
    {
      if syms[i].choice.Some? {
        var c := syms[i].choice.value;
        var cs := choices[c];
        var tri := defs[i].tri;
        match tri {
          case 0 =>
          case 1 =>
            if cs.tri == YES {
              cs := cs.(has := false);
            }
          case _ => cs := cs.(pick := Some(i));
        }
        choices := choices[c := cs.(tri := Max(cs.tri, tri))];
      }
    }

    method SetSym(i: nat, p: string) returns (bad: bool)
      requires Valid() && i < |syms|
      modifies this`types, this`defs
      ensures Valid() && choices == old(choices)
      ensures var s := SetSymVal(old(types[i]), old(defs[i]), p);
        types == old(types)[i := s.typ] && defs == old(defs)[i := s.def] && bad == s.bad
    {
      bad := false;
      var t := types[i];
      if t == Tri && CharAt(p, 0) == 'm' {
        defs := defs[i := defs[i].(tri := MOD, has := true)];
      } else if t == Tri || t == Boolean {
        if CharAt(p, 0) == 'y' {
          defs := defs[i := defs[i].(tri := YES, has := true)];
        } else if CharAt(p, 0) == 'n' {
          defs := defs[i := defs[i].(tri := NO, has := true)];
        }
      } else if t != Unknown {
        if t == Other && CharAt(p, 0) != '"' {
          types := types[i := Str];
        }
        var ok := SymStringValid(types[i], p);
        if ok {
          defs := defs[i := defs[i].(val := Some(p), has := true)];
        }
        bad := !ok;
      }
    }

    method ReadOne(line: string)
      requires Valid()
      modifies this`types, this`defs, this`choices
      ensures Valid() && Now() == Apply(syms, old(Now()), ParseLine(line))
    {
      StillUnset(syms, Now(), ParseLine(line));
      match ParseLine(line)
      case Skip =>
      case Unset(name) =>
        var k := Find(syms, name, 0);
        if k.Some? {
          if types[k.value] == Boolean || types[k.value] == Tri {
            defs := defs[k.value := defs[k.value].(tri := NO, has := true)];
          }
          SetChoice(k.value);
        }
      case Assign(name, text) =>
        var k := Find(syms, name, 0);
        if k.Some? {
          var bad := SetSym(k.value, text);
          if !bad {
            SetChoice(k.value);
          }
        }
    }

    /** conf_read_simple: forget all user values, then one fgets after the other. */
    method ReadSimple(content: string)
      requires Valid()
      modifies this`types, this`defs, this`choices
      ensures Valid() && Now() == ReadOn(syms, Reset(syms, old(Now())), content)
    {
      var (ts, ds) := (types, defs);
      defs := seq(|syms|, i requires 0 <= i < |syms| => if ts[i] == Other then ds[i] else UNSET);
      choices := seq(|choices|, _ => NEW_CHOICE);
      assert Now() == Reset(syms, old(Now()));
      ReadLines(content);
    }

    /** while (fgets(line, sizeof(line), in)) */
    method ReadLines(content: string)
      requires Valid()
      modifies this`types, this`defs, this`choices
      ensures Valid() && Now() == ReadOn(syms, old(Now()), content)
    {
      var rest := content;
      while rest != ""
        invariant Valid() && ReadOn(syms, Now(), rest) == ReadOn(syms, old(Now()), content)
        decreases |rest|
      {
        var n := ChunkLen(rest);
        ReadFirst(syms, Now(), rest);
        ReadOne(rest[..n]);
        rest := rest[n..];
      }
    }
  }
}
