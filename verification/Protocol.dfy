/**
 * send_get_fakem against get_msg: clients, a semaphore that the kernel releases for a killed holder,
 * two message queues, and a daemon that may process its last message again after a signal.
 */
module FakerootProtocol {
  import opened Options
  import opened FakedModel

  type Pid = int

  /** A message with the request it was computed from, and the database it was computed with. */
  datatype Tagged = Tagged(msg: Msg, origin: Msg, db: Db)

  /** Where a client stands in send_get_fakem. */
  datatype Phase =
    | Idle                    // outside
    | Blocked(st: FakeStat)   // in semaphore_up
    | Entered(st: FakeStat)   // holds the semaphore, nothing sent yet
    | Waiting                 // in the msgrcv loop
    | Received(reply: Tagged) // loop left, before semaphore_down
    | Dead

  /** `serial` is the static counter, `sent` the latest request, `result` what the latest call returned. */
  datatype Client = Client(phase: Phase, serial: int, sent: Option<Msg>, result: Option<Tagged>)
  {
    predicate Holds() { phase.Entered? || phase.Waiting? || phase.Received? }
  }

  /** `buf` is the daemon's message buffer, `busy` that process_msg is about to run on it. */
  datatype Sys = Sys(
    clients: map<Pid, Client>,
    sem: int,
    toDaemon: seq<Msg>,
    toClients: seq<Tagged>,
    db: Db,
    buf: Option<Tagged>,
    busy: bool,
    unknownIsReal: bool)

  datatype Action =
    | Call(c: Pid, st: FakeStat)
    | Acquire(c: Pid)
    | Send(c: Pid)
    | Receive(c: Pid)
    | Release(c: Pid)
    | OneWay(c: Pid, m: Msg)
    | Kill(c: Pid)
    | DaemonReceive
    | DaemonProcess
    | DaemonInterrupted

  function WithPhase(s: Sys, c: Pid, p: Phase): map<Pid, Client>
    requires c in s.clients
  {
    s.clients[c := s.clients[c].(phase := p)]
  }

  /** Distinct pids, each starting with whatever serial number it inherited; semctl has set the semaphore to 1. */
  predicate Init(s: Sys) {
    && s.sem == 1 && s.toDaemon == [] && s.toClients == [] && s.buf == None && !s.busy
    && s.db == seq(HASH_TABLE_SIZE, _ => [])
    && forall c | c in s.clients :: s.clients[c].phase == Idle && s.clients[c].sent == None
  }

  /** The system can start with any clients, whatever their serial numbers are. */
  lemma {:induction false} CanStart(serials: map<Pid, int>, unknownIsReal: bool) returns (s: Sys)
    ensures Init(s) && s.clients.Keys == serials.Keys && s.unknownIsReal == unknownIsReal
    ensures forall c | c in serials :: s.clients[c].serial == serials[c]
  {
    var clients := map c | c in serials :: Client(Idle, serials[c], None, None);
    s := Sys(clients, 1, [], [], seq(HASH_TABLE_SIZE, _ => []), None, false, unknownIsReal);
  }

  /** The request a client puts into the queue: pid and serial number are its own. */
  function Request(c: Pid, serial: int, st: FakeStat): Msg { Msg(STAT_FUNC, c, serial, st, 0) }

  /** do msgrcv while (buf->serial != serial || buf->pid != pid) */
  predicate Accepts(c: Pid, serial: int, m: Msg) { m.serial == serial && m.pid == c }

  predicate Next(s: Sys, a: Action, s': Sys) {
    match a
    case Call(c, st) =>
      && c in s.clients && s.clients[c].phase == Idle
      && s' == s.(clients := WithPhase(s, c, Blocked(st)))
    case Acquire(c) =>
      && c in s.clients && s.clients[c].phase.Blocked? && s.sem > 0
      && s' == s.(sem := s.sem - 1, clients := WithPhase(s, c, Entered(s.clients[c].phase.st)))
    case Send(c) =>
      && c in s.clients && s.clients[c].phase.Entered?
      && var me := s.clients[c];
      && var m := Request(c, me.serial + 1, me.phase.st);
      && s' == s.(toDaemon := s.toDaemon + [m],
                  clients := s.clients[c := me.(phase := Waiting, serial := me.serial + 1, sent := Some(m))])
    case Receive(c) =>
      && c in s.clients && s.clients[c].phase == Waiting && s.toClients != []
      && var r := s.toClients[0];
      && s' == s.(toClients := s.toClients[1..],
                  clients := WithPhase(s, c, if Accepts(c, s.clients[c].serial, r.msg) then Received(r) else Waiting))
    case Release(c) =>
      && c in s.clients && s.clients[c].phase.Received?
      && var me := s.clients[c];
      && s' == s.(sem := s.sem + 1, clients := s.clients[c := me.(phase := Idle, result := Some(me.phase.reply))])
    case OneWay(c, m) =>
      && c in s.clients && s.clients[c].phase == Idle && m.id != STAT_FUNC && Defined(m.id)
      && s' == s.(toDaemon := s.toDaemon + [m])
    case Kill(c) =>
      && c in s.clients && s.clients[c].phase != Dead
      && s' == s.(sem := if s.clients[c].Holds() then s.sem + 1 else s.sem, clients := WithPhase(s, c, Dead))
    case DaemonReceive =>
      && !s.busy && s.toDaemon != []
      && var m := s.toDaemon[0];
      && s' == s.(toDaemon := s.toDaemon[1..], busy := true, buf := Some(Tagged(m.(remote := 0), m, s.db)))
    case DaemonProcess =>
      && s.busy && s.buf.Some? && |s.db| == HASH_TABLE_SIZE
      && var m := s.buf.value;
      && var after := Tagged(ProcessBuf(s.db, m.msg, s.unknownIsReal), m.origin, s.db);
      && s' == s.(busy := false, db := ProcessDb(s.db, m.msg), buf := Some(after),
                  toClients := if m.msg.id == STAT_FUNC then s.toClients + [after] else s.toClients)
    case DaemonInterrupted =>
      && !s.busy && s.buf.Some?
      && s' == s.(busy := true)
  }

  // ----- answers ------------------------------------------------------------------

  /** What `k` rounds of process_stat make of a file's data in one database. */
  function Answered(db: Db, st: FakeStat, k: nat, unknownIsReal: bool): (r: FakeStat)
    requires |db| == HASH_TABLE_SIZE
    ensures r.dev == st.dev && r.ino == st.ino && r.nlink == st.nlink
  {
    if k == 0 then st else StatReply(db, Answered(db, st, k - 1, unknownIsReal), 0, unknownIsReal)
  }

  /** The message is the daemon's answer, computed at least `least` times, to the stat request `origin`. */
  ghost predicate IsAnswer(t: Tagged, least: nat, unknownIsReal: bool) {
    && t.origin.id == STAT_FUNC && |t.db| == HASH_TABLE_SIZE
    && exists k :: k >= least && t.msg == t.origin.(remote := 0, st := Answered(t.db, t.origin.st, k, unknownIsReal))
  }

  /** The daemon's answer to a stat request, computed once and from the request as it was sent. */
  ghost predicate Once(t: Tagged, unknownIsReal: bool) {
    && t.origin.id == STAT_FUNC && |t.db| == HASH_TABLE_SIZE
    && t.msg == t.origin.(remote := 0, st := StatReply(t.db, t.origin.st, 0, unknownIsReal))
  }

  /** The first reply to `m` in the queue is such an answer; later ones may have been computed again from it. */
  ghost predicate FirstOnce(q: seq<Tagged>, m: Msg, unknownIsReal: bool) {
    q != [] && if q[0].origin == m then Once(q[0], unknownIsReal) else FirstOnce(q[1..], m, unknownIsReal)
  }

  ghost predicate Unanswered(q: seq<Tagged>, m: Msg) { forall t | t in q :: t.origin != m }

  lemma {:induction false} FirstOnceGrows(q: seq<Tagged>, t: Tagged, m: Msg, unknownIsReal: bool)
    ensures FirstOnce(q, m, unknownIsReal) ==> FirstOnce(q + [t], m, unknownIsReal)
    ensures Unanswered(q, m) && t.origin == m && Once(t, unknownIsReal) ==> FirstOnce(q + [t], m, unknownIsReal)
  {
    if q != [] {
      assert (q + [t])[1..] == q[1..] + [t];
      assert q[0] in q && forall x | x in q[1..] :: x in q;
      FirstOnceGrows(q[1..], t, m, unknownIsReal);
    }
  }

  // ----- the invariant --------------------------------------------------------------

  /** A stat request carries a serial number its sender has reached, and at that number it is the latest one. */
  ghost predicate Known(s: Sys, m: Msg) {
    m.id == STAT_FUNC ==>
      && m.pid in s.clients && m.serial <= s.clients[m.pid].serial
      && (m.serial == s.clients[m.pid].serial ==> s.clients[m.pid].sent == Some(m))
  }

  ghost predicate Exclusive(s: Sys) {
    && (s.sem == 0 || s.sem == 1)
    && (s.sem == 1 ==> forall c | c in s.clients :: !s.clients[c].Holds())
    && (s.sem == 0 ==> exists c :: c in s.clients && s.clients[c].Holds())
    && forall c, d | c in s.clients && d in s.clients && s.clients[c].Holds() && s.clients[d].Holds() :: c == d
  }

  ghost predicate Messages(s: Sys) {
    && |s.db| == HASH_TABLE_SIZE && InBuckets(s.db)
    && (s.busy ==> s.buf.Some?)
    && (forall m | m in s.toDaemon :: Known(s, m) && Defined(m.id))
    && (forall t | t in s.toClients :: IsAnswer(t, 1, s.unknownIsReal) && Known(s, t.origin))
    && (s.buf.Some? ==>
        && s.buf.value.msg.id == s.buf.value.origin.id && Defined(s.buf.value.msg.id)
        && Known(s, s.buf.value.origin)
        && (s.buf.value.msg.id == STAT_FUNC ==>
            IsAnswer(s.buf.value, 0, s.unknownIsReal) && s.buf.value.db == s.db))
  }

  ghost predicate Queued(s: Sys, m: Msg) {
    multiset(s.toDaemon)[m] == 1 && Unanswered(s.toClients, m) && (s.buf.Some? ==> s.buf.value.origin != m)
  }

  ghost predicate InHand(s: Sys, m: Msg) {
    && m !in s.toDaemon && Unanswered(s.toClients, m)
    && s.busy && s.buf.Some? && s.buf.value.origin == m && s.buf.value.msg == m.(remote := 0)
  }

  ghost predicate Replied(s: Sys, m: Msg) { m !in s.toDaemon && FirstOnce(s.toClients, m, s.unknownIsReal) }

  /**
   * The latest request of a waiting client is queued exactly once and not answered, or about to be
   * processed for the first time, or answered, and then the first answer is the one computed once.
   */
  ghost predicate Pending(s: Sys, m: Msg) { Queued(s, m) || InHand(s, m) || Replied(s, m) }

  ghost predicate ClientOk(s: Sys, c: Pid)
    requires c in s.clients
  {
    var me := s.clients[c];
    && (me.sent.Some? ==> me.sent.value.id == STAT_FUNC && me.sent.value.pid == c && me.sent.value.serial == me.serial)
    && (me.phase.Waiting? ==> me.sent.Some? && Pending(s, me.sent.value))
    && (me.phase.Received? ==> Once(me.phase.reply, s.unknownIsReal) && me.sent == Some(me.phase.reply.origin))
  }

  ghost predicate Inv(s: Sys) {
    Exclusive(s) && Messages(s) && forall c | c in s.clients :: ClientOk(s, c)
  }

  lemma {:induction false} InitInv(s: Sys)
    requires Init(s)
    ensures Inv(s)
  {}

  /** One more round of process_stat on an answer is an answer. */
  lemma {:induction false} AnswerAgain(s: Sys)
    requires Messages(s) && s.buf.Some? && s.buf.value.msg.id == STAT_FUNC
    ensures IsAnswer(Tagged(ProcessBuf(s.db, s.buf.value.msg, s.unknownIsReal), s.buf.value.origin, s.db), 1,
      s.unknownIsReal)
  {
    var t := s.buf.value;
    var k :| k >= 0 && t.msg == t.origin.(remote := 0, st := Answered(t.db, t.origin.st, k, s.unknownIsReal));
    assert ProcessBuf(s.db, t.msg, s.unknownIsReal) ==
      t.origin.(remote := 0, st := Answered(s.db, t.origin.st, k + 1, s.unknownIsReal));
  }

  lemma {:induction false} ExclusiveStep(s: Sys, a: Action, s': Sys)
    requires Exclusive(s) && Next(s, a, s')
    ensures Exclusive(s')
  {
    match a
    case Acquire(c) => assert s'.clients[c].Holds();
    case Send(c) => assert s'.clients[c].Holds();
    case Receive(c) => assert s'.clients[c].Holds();
    case Release(c) => assert s.clients[c].Holds();
    case Kill(c) =>
      if s'.sem == 0 {
        var h :| h in s.clients && s.clients[h].Holds();
        assert s'.clients[h].Holds();
      }
    case Call(c, _) =>
      if s'.sem == 0 {
        var h :| h in s.clients && s.clients[h].Holds();
        assert s'.clients[h].Holds();
      }
    case _ =>
  }

  /** What is known about a message stays known: only its own sender's next request can outdate it. */
  lemma {:induction false} KnownStep(s: Sys, a: Action, s': Sys, m: Msg)
    requires Inv(s) && Next(s, a, s') && Known(s, m)
    ensures Known(s', m)
  {}

  lemma {:induction false} MessagesStep(s: Sys, a: Action, s': Sys)
    requires Inv(s) && Next(s, a, s')
    ensures Messages(s')
  {
    forall m | Known(s, m) ensures Known(s', m) {
      KnownStep(s, a, s', m);
    }
    match a
    case Send(c) =>
      assert Known(s', s'.clients[c].sent.value);
    case DaemonReceive =>
      var m := s.toDaemon[0];
      assert m in s.toDaemon;
      if m.id == STAT_FUNC {
        assert m.(remote := 0) == m.(remote := 0, st := Answered(s.db, m.st, 0, s.unknownIsReal));
      }
    case DaemonProcess =>
      ProcessInBuckets(s.db, s.buf.value.msg);
      if s.buf.value.msg.id == STAT_FUNC {
        AnswerAgain(s);
      }
    case _ =>
  }

  lemma {:induction false} PendingStep(s: Sys, a: Action, s': Sys, c: Pid)
    requires Inv(s) && Next(s, a, s') && c in s.clients
    requires s.clients[c].phase.Waiting? && s'.clients[c].phase.Waiting?
    ensures Pending(s', s.clients[c].sent.value)
  {
    assert ClientOk(s, c);
    var m := s.clients[c].sent.value;
    match a
    case Receive(d) => PendingReceive(s, s', c, d);
    case DaemonReceive => PendingTaken(s, s', m);
    case DaemonProcess => PendingProcessed(s, s', m);
    case OneWay(_, q) =>
      assert q != m;
      assert multiset(s'.toDaemon)[m] == multiset(s.toDaemon)[m];
    case _ =>
  }

  /** The waiter takes a reply that is not its own. */
  lemma {:induction false} PendingReceive(s: Sys, s': Sys, c: Pid, d: Pid)
    requires Inv(s) && Next(s, Receive(d), s') && c in s.clients
    requires s.clients[c].phase.Waiting? && s'.clients[c].phase.Waiting?
    ensures Pending(s', s.clients[c].sent.value)
  {
    assert ClientOk(s, c);
    var m, t := s.clients[c].sent.value, s.toClients[0];
    assert s.clients[c].Holds() && s.clients[d].Holds();
    assert d == c && t in s.toClients && IsAnswer(t, 1, s.unknownIsReal);
    assert t.origin != m by {
      assert !Accepts(c, s.clients[c].serial, t.msg);
    }
    assert forall x | x in s'.toClients :: x in s.toClients;
  }

  /** The daemon takes a message. */
  lemma {:induction false} PendingTaken(s: Sys, s': Sys, m: Msg)
    requires Next(s, DaemonReceive, s') && Pending(s, m)
    ensures Pending(s', m)
  {
    assert s.toDaemon == [s.toDaemon[0]] + s'.toDaemon;
    assert multiset(s.toDaemon) == multiset{s.toDaemon[0]} + multiset(s'.toDaemon);
    assert m in s.toDaemon <==> multiset(s.toDaemon)[m] > 0;
    assert m in s'.toDaemon <==> multiset(s'.toDaemon)[m] > 0;
  }

  /** The daemon processes what it has in its buffer. */
  lemma {:induction false} PendingProcessed(s: Sys, s': Sys, m: Msg)
    requires Messages(s) && Next(s, DaemonProcess, s') && Pending(s, m) && m.id == STAT_FUNC
    ensures Pending(s', m)
  {
    var t := s.buf.value;
    var after := Tagged(ProcessBuf(s.db, t.msg, s.unknownIsReal), t.origin, s.db);
    FirstOnceGrows(s.toClients, after, m, s.unknownIsReal);
    assert InHand(s, m) ==> Once(after, s.unknownIsReal);
    assert forall x | x in s'.toClients :: x in s.toClients || x == after;
  }

  lemma {:induction false} BystanderStep(s: Sys, a: Action, s': Sys, c: Pid)
    requires Inv(s) && Next(s, a, s') && c in s.clients && s'.clients[c] == s.clients[c]
    ensures ClientOk(s', c)
  {
    assert ClientOk(s, c);
    if s.clients[c].phase.Waiting? {
      PendingStep(s, a, s', c);
    }
  }

  lemma {:induction false} ClientStep(s: Sys, a: Action, s': Sys, c: Pid)
    requires Inv(s) && Next(s, a, s') && c in s'.clients
    ensures ClientOk(s', c)
  {
    assert ClientOk(s, c);
    if s'.clients[c] == s.clients[c] {
      BystanderStep(s, a, s', c);
    } else if a.Send? {
      SendStep(s, c, s');
    } else if a.Receive? {
      ReceiveStep(s, c, s');
    } else {
      assert !s'.clients[c].phase.Waiting? && !s'.clients[c].phase.Received?;
    }
  }

  /** A new request has a serial number that nothing in the system carries yet. */
  lemma {:induction false} SendStep(s: Sys, c: Pid, s': Sys)
    requires Inv(s) && Next(s, Send(c), s')
    ensures ClientOk(s', c)
  {
    var m := s'.clients[c].sent.value;
    assert !Known(s, m);
    assert m !in s.toDaemon && Unanswered(s.toClients, m) && (s.buf.Some? ==> s.buf.value.origin != m);
    assert multiset(s'.toDaemon)[m] == multiset(s.toDaemon)[m] + 1;
  }

  lemma {:induction false} ReceiveStep(s: Sys, c: Pid, s': Sys)
    requires Inv(s) && Next(s, Receive(c), s') && s'.clients[c] != s.clients[c]
    ensures ClientOk(s', c)
  {
    assert ClientOk(s, c);
    var t := s.toClients[0];
    assert t in s.toClients && Known(s, t.origin) && IsAnswer(t, 1, s.unknownIsReal);
    assert t.origin == s.clients[c].sent.value;
    assert Replied(s, t.origin);
  }

  /** Every step of a client, the kernel or the daemon keeps the invariant. */
  lemma {:induction false} InvStep(s: Sys, a: Action, s': Sys)
    requires Inv(s) && Next(s, a, s')
    ensures Inv(s')
  {
    ExclusiveStep(s, a, s');
    MessagesStep(s, a, s');
    forall c | c in s'.clients ensures ClientOk(s', c) {
      ClientStep(s, a, s', c);
    }
  }

  // ----- whole runs -----------------------------------------------------------------

  ghost predicate IsRun(states: seq<Sys>, actions: seq<Action>) {
    && |states| == |actions| + 1
    && forall i | 0 <= i < |actions| :: Next(states[i], actions[i], states[i + 1])
  }

  lemma {:induction false} RunInv(states: seq<Sys>, actions: seq<Action>, i: nat)
    requires IsRun(states, actions) && Inv(states[0]) && i < |states|
    ensures Inv(states[i])
    decreases i
  {
    if i > 0 {
      RunInv(states, actions, i - 1);
      InvStep(states[i - 1], actions[i - 1], states[i]);
    }
  }

  /** The daemon computed the reply in step `j`, from the database that it had then. */
  ghost predicate ComputedAt(states: seq<Sys>, actions: seq<Action>, j: nat, t: Tagged)
    requires |states| == |actions| + 1 && j < |actions|
  {
    actions[j] == DaemonProcess && states[j + 1].buf == Some(t) && states[j].db == t.db
  }

  predicate Has(s: Sys, c: Pid, t: Tagged) {
    t in s.toClients || (c in s.clients && s.clients[c].phase == Received(t))
  }

  lemma {:induction false} ReplyWasComputed(states: seq<Sys>, actions: seq<Action>, i: nat, c: Pid, t: Tagged)
      returns (j: nat)
    requires IsRun(states, actions) && Init(states[0]) && i < |states| && Has(states[i], c, t)
    ensures j < i && ComputedAt(states, actions, j, t)
    decreases i
  {
    assert i > 0;
    var s, s' := states[i - 1], states[i];
    assert Next(s, actions[i - 1], s');
    if Has(s, c, t) {
      j := ReplyWasComputed(states, actions, i - 1, c, t);
    } else {
      j := i - 1;
    }
  }

  /** Before step `i`, the latest call of `c` was in step `k`, for the file `st`. */
  ghost predicate AskedAt(actions: seq<Action>, k: nat, i: nat, c: Pid, st: FakeStat) {
    && k < i <= |actions| && actions[k] == Call(c, st)
    && forall n | k < n < i :: !(actions[n].Call? && actions[n].c == c)
  }

  /** Which call a client is working on, and the request that it makes of it. */
  lemma {:induction false} CallOf(states: seq<Sys>, actions: seq<Action>, i: nat, c: Pid) returns (k: nat)
    requires IsRun(states, actions) && Init(states[0]) && i < |states| && c in states[i].clients
    requires states[i].clients[c].phase.Blocked? || states[i].clients[c].Holds()
    ensures k < i && c in states[k].clients
    ensures AsksFor(states[i].clients[c], c, states[k].clients[c].serial)
    ensures AskedAt(actions, k, i, c, Subject(states[i].clients[c]))
    decreases i
  {
    assert i > 0;
    k := i - 1;
    if !(actions[k].Call? && actions[k].c == c) {
      StepOfCall(states, actions, i, c);
      k := CallOf(states, actions, i - 1, c);
    } else {
      assert Next(states[k], actions[k], states[i]);
    }
  }

  /** The file that a client has been called for. */
  function Subject(me: Client): FakeStat
    requires me.phase.Blocked? || me.phase.Entered? || me.sent.Some?
  {
    if me.phase.Blocked? then me.phase.st else if me.phase.Entered? then me.phase.st else me.sent.value.st
  }

  /** Since its call at serial number `serial` it has sent nothing, or one request, its own. */
  predicate AsksFor(me: Client, c: Pid, serial: int) {
    if me.phase.Blocked? || me.phase.Entered? then me.serial == serial
    else
      me.sent.Some? && me.sent.value == Msg(STAT_FUNC, c, serial + 1, me.sent.value.st, 0) && me.serial == serial + 1
  }

  /** One step within a call. */
  lemma {:induction false} StepOfCall(states: seq<Sys>, actions: seq<Action>, i: nat, c: Pid)
    requires IsRun(states, actions) && 0 < i < |states| && !(actions[i - 1].Call? && actions[i - 1].c == c)
    requires c in states[i].clients && (states[i].clients[c].phase.Blocked? || states[i].clients[c].Holds())
    ensures c in states[i - 1].clients
    ensures var (me, me') := (states[i - 1].clients[c], states[i].clients[c]);
      && (me.phase.Blocked? || me.Holds())
      && forall serial :: (me.phase.Blocked? || me.phase.Entered? || me.sent.Some?) && AsksFor(me, c, serial) ==>
           (me'.phase.Blocked? || me'.phase.Entered? || me'.sent.Some?) && AsksFor(me', c, serial)
           && Subject(me') == Subject(me)
  {
    assert Next(states[i - 1], actions[i - 1], states[i]);
  }

  lemma {:induction false} SerialsGrow(states: seq<Sys>, actions: seq<Action>, i: nat, k: nat, c: Pid)
    requires IsRun(states, actions) && i <= k < |states| && c in states[k].clients
    ensures c in states[i].clients && states[i].clients[c].serial <= states[k].clients[c].serial
    decreases k
  {
    if i < k {
      assert Next(states[k - 1], actions[k - 1], states[k]);
      SerialsGrow(states, actions, i, k - 1, c);
    }
  }

  /**
   * In every interleaving, a client that returns from send_get_fakem returns the daemon's answer about the
   * file that it was called for: the request was made by its latest call, and the answer was computed
   * during that call, once and from that request.
   */
  lemma {:induction false} ReturnsOwnAnswer(states: seq<Sys>, actions: seq<Action>, i: nat, c: Pid)
      returns (k: nat, j: nat, st: FakeStat)
    requires IsRun(states, actions) && Init(states[0]) && i < |actions| && actions[i] == Release(c)
    ensures AskedAt(actions, k, i, c, st) && k < j < i
    ensures c in states[i + 1].clients && states[i + 1].clients[c].result.Some?
    ensures var me, reply := states[i].clients[c], states[i + 1].clients[c].result.value;
      && ComputedAt(states, actions, j, reply) && |reply.db| == HASH_TABLE_SIZE
      && reply.origin == Msg(STAT_FUNC, c, me.serial, st, 0)
      && reply.msg == Msg(STAT_FUNC, c, me.serial, StatReply(reply.db, st, 0, states[i].unknownIsReal), 0)
  {
    InitInv(states[0]);
    RunInv(states, actions, i);
    assert Next(states[i], actions[i], states[i + 1]);
    assert ClientOk(states[i], c);
    var reply := states[i].clients[c].phase.reply;
    k := CallOf(states, actions, i, c);
    st := reply.origin.st;
    j := ReplyWasComputed(states, actions, i, c, reply);
    if j <= k {
      RunInv(states, actions, j + 1);
      assert Known(states[j + 1], reply.origin);
      assert j != k;
      SerialsGrow(states, actions, j + 1, k, c);
      assert false;
    }
  }

  /** A reply to a live waiter's current request is never taken out of the queue by another client. */
  lemma {:induction false} NoTheft(states: seq<Sys>, actions: seq<Action>, i: nat, c: Pid, w: Pid)
    requires IsRun(states, actions) && Init(states[0]) && i < |actions| && actions[i] == Receive(c)
    requires w in states[i].clients && states[i].clients[w].phase.Waiting? && states[i].toClients != []
    requires Accepts(w, states[i].clients[w].serial, states[i].toClients[0].msg)
    ensures c == w && states[i + 1].clients[w].phase == Received(states[i].toClients[0])
  {
    InitInv(states[0]);
    RunInv(states, actions, i);
    assert Next(states[i], actions[i], states[i + 1]);
    assert states[i].clients[c].Holds() && states[i].clients[w].Holds();
  }

  // ----- a waiting client can always be served ----------------------------------------

  /** Work left until the queues are drained. */
  function Work(s: Sys): nat { 3 * |s.toDaemon| + (if s.busy then 2 else 0) + |s.toClients| }

  /** The next step of the daemon, or of the waiting client once the daemon has nothing to do. */
  lemma {:induction false} Serve(s: Sys, c: Pid) returns (a: Action, s': Sys)
    requires Inv(s) && c in s.clients && s.clients[c].phase.Waiting?
    ensures Next(s, a, s') && Work(s') < Work(s)
    ensures a == DaemonReceive || a == DaemonProcess || a == Receive(c)
    ensures s'.clients[c].phase.Waiting? || s'.clients[c].phase.Received?
  {
    if s.busy {
      var m := s.buf.value;
      var after := Tagged(ProcessBuf(s.db, m.msg, s.unknownIsReal), m.origin, s.db);
      a := DaemonProcess;
      s' := s.(busy := false, db := ProcessDb(s.db, m.msg), buf := Some(after),
               toClients := if m.msg.id == STAT_FUNC then s.toClients + [after] else s.toClients);
    } else if s.toDaemon != [] {
      var m := s.toDaemon[0];
      a := DaemonReceive;
      s' := s.(toDaemon := s.toDaemon[1..], busy := true, buf := Some(Tagged(m.(remote := 0), m, s.db)));
    } else {
      assert ClientOk(s, c) && s.toClients != [];
      var r := s.toClients[0];
      a := Receive(c);
      s' := s.(toClients := s.toClients[1..],
               clients := WithPhase(s, c, if Accepts(c, s.clients[c].serial, r.msg) then Received(r) else Waiting));
    }
  }

  /** No reply is ever lost: from every reachable state the daemon and a waiting client alone reach its reply. */
  lemma {:induction false} WaiterIsServed(s: Sys, c: Pid) returns (states: seq<Sys>, actions: seq<Action>)
    requires Inv(s) && c in s.clients && s.clients[c].phase.Waiting?
    ensures IsRun(states, actions) && states[0] == s && |actions| <= Work(s)
    ensures forall a | a in actions :: a == DaemonReceive || a == DaemonProcess || a == Receive(c)
    ensures c in states[|actions|].clients && states[|actions|].clients[c].phase.Received?
    decreases Work(s)
  {
    var a, s' := Serve(s, c);
    if s'.clients[c].phase.Received? {
      return [s, s'], [a];
    }
    InvStep(s, a, s');
    var rest, more := WaiterIsServed(s', c);
    states, actions := [s] + rest, [a] + more;
  }

  // ----- why it matters that the first reply is taken -----------------------------------

  /**
   * Processing an answer again is not the same as processing the request once: the first round replaces
   * the size, and with the size of the stored node another node can answer.
   */
  lemma {:induction false} AnsweringTwiceDiffers() returns (db: Db, st: FakeStat)
    ensures |db| == HASH_TABLE_SIZE && InBuckets(db)
    ensures Answered(db, st, 1, false).uid == 2 && Answered(db, st, 2, false).uid == 1
  {
    var reg := FakeStat(2, 0, 7, 0, 0, S_IFREG, 1, 0);
    var dev := reg.(uid := 1, mode := S_IFCHR);
    st := reg.(size := 9);
    var b := Hash(st);
    db := seq(HASH_TABLE_SIZE, i => if i == b then [Node(dev, 0), Node(reg, 0)] else []);
    HashOfKey(dev, st);
    HashOfKey(reg, st);
    var c := db[b];
    assert c == [Node(dev, 0), Node(reg, 0)] && c[1..] == [Node(reg, 0)];
    assert FindIn(c[1..], st, 0) == 0 && FindIn(c, st, 0) == 1;
    assert Answered(db, st, 0, false) == st;
    var once := Answered(db, st, 1, false);
    assert once == CopyFake(st, reg);
    assert FindIn(c, once, 0) == 0;
  }

  // ----- why the loop tests pid and serial number --------------------------------------

  lemma {:induction false} Then(states: seq<Sys>, actions: seq<Action>, a: Action, s: Sys)
      returns (states': seq<Sys>, actions': seq<Action>)
    requires IsRun(states, actions) && Next(states[|actions|], a, s)
    ensures IsRun(states', actions') && states'[0] == states[0] && states' == states + [s] && states'[|actions'|] == s
  {
    states', actions' := states + [s], actions + [a];
    forall i | 0 <= i < |actions'| ensures Next(states'[i], actions'[i], states'[i + 1]) {
      assert i < |actions| ==> Next(states[i], actions[i], states[i + 1]);
    }
  }

  /** A client enters and sends a request. */
  lemma {:induction false} Ask(states: seq<Sys>, actions: seq<Action>, c: Pid, st: FakeStat)
      returns (states': seq<Sys>, actions': seq<Action>)
    requires IsRun(states, actions)
    requires var s := states[|actions|]; s.sem == 1 && s.toDaemon == [] && c in s.clients && s.clients[c].phase == Idle
    ensures IsRun(states', actions') && states'[0] == states[0]
    ensures var s, s' := states[|actions|], states'[|actions'|];
      var m := Request(c, s.clients[c].serial + 1, st);
      s' == s.(sem := 0, toDaemon := [m],
               clients := s.clients[c := s.clients[c].(phase := Waiting, serial := m.serial, sent := Some(m))])
  {
    var s := states[|actions|];
    var s1 := s.(clients := WithPhase(s, c, Blocked(st)));
    states', actions' := Then(states, actions, Call(c, st), s1);
    var s2 := s1.(sem := 0, clients := WithPhase(s1, c, Entered(st)));
    states', actions' := Then(states', actions', Acquire(c), s2);
    var m := Request(c, s.clients[c].serial + 1, st);
    var waiting := s2.clients[c].(phase := Waiting, serial := m.serial, sent := Some(m));
    var s3 := s2.(toDaemon := [m], clients := s2.clients[c := waiting]);
    states', actions' := Then(states', actions', Send(c), s3);
  }

  /** The only waiter is killed, and its request answered nevertheless. */
  lemma {:induction false} KillAndAnswer(states: seq<Sys>, actions: seq<Action>, c: Pid, m: Msg)
      returns (states': seq<Sys>, actions': seq<Action>)
    requires IsRun(states, actions) && m.id == STAT_FUNC
    requires var s := states[|actions|];
      s.sem == 0 && s.toDaemon == [m] && s.toClients == [] && !s.busy && |s.db| == HASH_TABLE_SIZE
      && c in s.clients && s.clients[c].phase == Waiting
    ensures IsRun(states', actions') && states'[0] == states[0]
    ensures var s, s' := states[|actions|], states'[|actions'|];
      && s'.sem == 1 && s'.toDaemon == [] && s'.clients == WithPhase(s, c, Dead)
      && |s'.toClients| == 1 && s'.toClients[0].origin == m
  {
    var s := states[|actions|];
    var s1 := s.(sem := 1, clients := WithPhase(s, c, Dead));
    states', actions' := Then(states, actions, Kill(c), s1);
    var s2 := s1.(toDaemon := [], busy := true, buf := Some(Tagged(m.(remote := 0), m, s.db)));
    states', actions' := Then(states', actions', DaemonReceive, s2);
    var after := Tagged(ProcessBuf(s.db, m.(remote := 0), s.unknownIsReal), m, s.db);
    var s3 := s2.(busy := false, db := ProcessDb(s.db, m.(remote := 0)), buf := Some(after), toClients := [after]);
    states', actions' := Then(states', actions', DaemonProcess, s3);
  }

  /** A client that is killed while it waits leaves its answer in the queue for the next waiter to find. */
  lemma {:induction false} StaleReplyIsReachable(s: Sys, c: Pid, d: Pid, st: FakeStat)
      returns (states: seq<Sys>, actions: seq<Action>)
    requires Init(s) && c in s.clients && d in s.clients && c != d
    ensures IsRun(states, actions) && states[0] == s
    ensures var last := states[|actions|];
      && d in last.clients && last.clients[d].phase.Waiting? && last.clients[d].sent.Some?
      && |last.toClients| == 1 && last.toClients[0].origin != last.clients[d].sent.value
  {
    states, actions := Ask([s], [], c, st);
    states, actions := KillAndAnswer(states, actions, c, Request(c, s.clients[c].serial + 1, st));
    states, actions := Ask(states, actions, d, st);
  }
}
