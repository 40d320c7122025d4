/** conf_write: the walk over the menus, what it prints, and that conf_read_simple gets it back. */
module ConfWriting {
  import opened Options
  import opened Tristates
  import opened Exprs
  import opened MenuLinks
  import opened MenuWalk
  import opened ConfText
  import opened ConfReading

  /** What a menu entry makes the writer print: a comment, a symbol, or nothing for a choice. */
  datatype Entry = Comment(visible: bool, prompt: string) | OfSym(i: nat) | OfChoice

  /** A symbol's SYMBOL_WRITE flag and value after sym_calc_value. */
  datatype Seen = Seen(write: bool, tri: Tristate, str: string)

  predicate IsTextual(t: SymType) { t == Int || t == Hex || t == Str }

  predicate IsLogical(t: SymType) { t == Boolean || t == Tri }

  /** The line printed for a symbol, without its newline. */
  function SymLine(name: string, t: SymType, s: Seen): (r: string)
    requires IsLogical(t) || IsTextual(t)
  {
    if IsTextual(t) then AssignLine(name, s.str)
    else if s.tri == NO then UnsetLine(name)
    else AssignLine(name, TriName(s.tri))
  }

  function SymText(name: string, t: SymType, s: Seen): string {
    if IsLogical(t) || IsTextual(t) then SymLine(name, t, s) + "\n" else ""
  }

  function CommentText(prompt: string): string { "" + "\n" + ("#" + "\n" + ("# " + prompt + "\n" + ("#" + "\n" + ""))) }

  /** One menu configuration: what each entry is, the symbols' names and types, and what was calculated for them. */
  datatype Job = Job(entry: Id -> Entry, syms: seq<ConfSym>, types: seq<SymType>, seen: seq<Seen>)
  {
    ghost predicate Ok() {
      |syms| == |types| == |seen| && forall e: Id :: entry(e).OfSym? ==> entry(e).i < |syms|
    }

    /** What one entry adds to the file while `pending` holds the symbols whose SYMBOL_WRITE is still set. */
    function Text(e: Id, pending: set<nat>): string
      requires Ok()
    {
      match entry(e)
      case Comment(visible, prompt) => if visible then CommentText(prompt) else ""
      case OfSym(i) => if i in pending then SymText(syms[i].name, types[i], seen[i]) else ""
      case OfChoice => ""
    }

    function Done(e: Id): set<nat> { if entry(e).OfSym? then {entry(e).i} else {} }

    function Body(ids: seq<Id>, pending: set<nat>): string
      requires Ok()
      decreases |ids|
    {
      if ids == [] then "" else Text(ids[0], pending) + Body(ids[1..], pending - Done(ids[0]))
    }

    function Pending(): set<nat>
      requires Ok()
    {
      set i: nat | i < |seen| && seen[i].write
    }
  }

  /** The comment at the top: the banner in the user's language and, unless turned off, ctime's line. */
  datatype Banner = Banner(text: string, stamp: Option<string>)

  function Header(top: Banner): string {
    "#" + "\n" + ("# " + top.text + "\n"
      + (if top.stamp.Some? then "# " + top.stamp.value + "\n" + ("#" + "\n" + "") else "#" + "\n" + ""))
  }

  /** conf_write.  Clearing SYMBOL_WRITE keeps a symbol with several entries from being printed twice. */
  method ConfWrite(l: Links, root: Id, job: Job, top: Banner, ghost kids: Forest) returns (out: string)
    requires job.Ok() && Ordered(l, One(root, kids)) && l.Parent(root) == None
    ensures out == Header(top) + job.Body(Pre(kids), job.Pending())
  {
    out := Header(top);
    var write := job.Pending();
    var menu := l.List(root);
    ghost var cur, p := kids, Top(root);
    ghost var goal := Header(top) + job.Body(Pre(kids), job.Pending());
    assert Remaining(kids, p) == Pre(kids);
    while menu.Some?
      invariant At(l, cur, p) && menu == First(cur, None)
      invariant out + job.Body(Remaining(cur, p), write) == goal
      invariant menu.None? ==> Remaining(cur, p) == []
      decreases |Remaining(cur, p)|
    {
      ghost var ids, e, w, soFar := Remaining(cur, p), menu.value, write, out;
      var text;
      text, write := WriteEntry(job, menu.value, write);
      out := out + text;
      menu, cur, p := NextEntry(l, menu.value, cur, p);
      BodyStep(job, soFar, ids, e, Remaining(cur, p), w);
    }
  }

  /** Its body: the entry's text, and what is still to be written. */
  method WriteEntry(job: Job, e: Id, write: set<nat>) returns (text: string, write': set<nat>)
    requires job.Ok()
    ensures text == job.Text(e, write) && write' == write - job.Done(e)
  {
    text, write' := "", write;
    match job.entry(e)
    case Comment(visible, prompt) =>
      if visible {
        text := CommentText(prompt);
      }
    case OfSym(i) =>
      if i in write {
        write' := write - {i};
        text := SymText(job.syms[i].name, job.types[i], job.seen[i]);
      }
    case OfChoice =>
  }

  lemma {:induction false} BodyStep(job: Job, out: string, ids: seq<Id>, e: Id, rest: seq<Id>, w: set<nat>)
    requires job.Ok() && ids == [e] + rest
    ensures out + job.Body(ids, w) == out + job.Text(e, w) + job.Body(rest, w - job.Done(e))
  {
    assert ids[0] == e && ids[1..] == rest;
  }
}
