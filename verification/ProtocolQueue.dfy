/** First in, first out: the daemon's table is what the requests make of it in the order they were sent. */
module FakerootQueue {
  import opened FakedModel
  import opened FakerootProtocol

  /** What a step puts into the daemon's queue. */
  ghost function Sending(s: Sys, a: Action): seq<Msg> {
    match a
    case Send(c) =>
      if c in s.clients && s.clients[c].phase.Entered?
      then [Msg(STAT_FUNC, c, s.clients[c].serial + 1, s.clients[c].phase.st, 0)] else []
    case OneWay(_, m) => [m]
    case _ => []
  }

  /** Everything sent before step `i`, in order. */
  ghost function Sent(states: seq<Sys>, actions: seq<Action>, i: nat): seq<Msg>
    requires i <= |actions| && i <= |states|
  {
    if i == 0 then [] else Sent(states, actions, i - 1) + Sending(states[i - 1], actions[i - 1])
  }

  /** How many messages the daemon received before step `i`. */
  ghost function Received(actions: seq<Action>, i: nat): nat
    requires i <= |actions|
  {
    if i == 0 then 0 else Received(actions, i - 1) + if actions[i - 1].DaemonReceive? then 1 else 0
  }

  /** The daemon zeroes the remote id of what it receives. */
  function Local(ms: seq<Msg>): seq<Msg> { seq(|ms|, i requires 0 <= i < |ms| => ms[i].(remote := 0)) }

  /** The queue is what was sent and not yet received, and the buffer holds the last message that was. */
  ghost predicate InOrder(s: Sys, sent: seq<Msg>, received: nat) {
    && received <= |sent| && s.toDaemon == sent[received..]
    && (s.busy ==> s.buf.Some?)
    && (s.buf.Some? ==> received > 0 && s.buf.value.origin == sent[received - 1])
  }

  lemma {:induction false} OrderStep(s: Sys, a: Action, s': Sys, sent: seq<Msg>, received: nat)
    requires Next(s, a, s') && InOrder(s, sent, received)
    ensures InOrder(s', sent + Sending(s, a), received + if a.DaemonReceive? then 1 else 0)
  {
    var longer := sent + Sending(s, a);
    assert longer[received..] == s.toDaemon + Sending(s, a);
  }

  lemma {:induction false} FirstInFirstOut(states: seq<Sys>, actions: seq<Action>, i: nat)
    requires IsRun(states, actions) && Init(states[0]) && i < |states|
    ensures InOrder(states[i], Sent(states, actions, i), Received(actions, i))
  {
    if i > 0 {
      FirstInFirstOut(states, actions, i - 1);
      assert Next(states[i - 1], actions[i - 1], states[i]);
      OrderStep(states[i - 1], actions[i - 1], states[i], Sent(states, actions, i - 1), Received(actions, i - 1));
    }
  }

  /** What was received is processed but for the one message that the daemon is about to process. */
  ghost predicate TableUpTo(s: Sys, empty: Db, sent: seq<Msg>, received: nat)
    requires InOrder(s, sent, received) && |empty| == HASH_TABLE_SIZE
  {
    && s.db == RunDb(empty, Local(sent[..received - if s.busy then 1 else 0]))
    && (s.busy ==> s.buf.value.msg == sent[received - 1].(remote := 0))
  }

  lemma {:induction false} TableStep(s: Sys, a: Action, s': Sys, empty: Db, sent: seq<Msg>, received: nat)
    requires Next(s, a, s') && !a.DaemonInterrupted? && |empty| == HASH_TABLE_SIZE
    requires InOrder(s, sent, received) && TableUpTo(s, empty, sent, received)
    requires InOrder(s', sent + Sending(s, a), received + if a.DaemonReceive? then 1 else 0)
    ensures TableUpTo(s', empty, sent + Sending(s, a), received + if a.DaemonReceive? then 1 else 0)
  {
    var longer := sent + Sending(s, a);
    assert forall n | 0 <= n <= |sent| :: longer[..n] == sent[..n];
    if a.DaemonProcess? {
      var done := Local(sent[..received]);
      assert done[..received - 1] == Local(sent[..received - 1]);
      assert RunDb(empty, done) == ProcessDb(RunDb(empty, done[..received - 1]), done[received - 1]);
    }
  }

  /**
   * As long as no signal makes the daemon process a message twice, its table is what the requests received so
   * far make of an empty one, in the order in which they were sent.
   */
  lemma {:induction false} TableIsOfRequests(states: seq<Sys>, actions: seq<Action>, i: nat)
    requires IsRun(states, actions) && Init(states[0]) && i < |states|
    requires forall n | 0 <= n < i :: !actions[n].DaemonInterrupted?
    ensures var (sent, received) := (Sent(states, actions, i), Received(actions, i));
      InOrder(states[i], sent, received) && TableUpTo(states[i], seq(HASH_TABLE_SIZE, _ => []), sent, received)
  {
    FirstInFirstOut(states, actions, i);
    var empty: Db := seq(HASH_TABLE_SIZE, _ => []);
    if i == 0 {
      assert Local([]) == [];
      assert RunDb(empty, []) == empty;
    } else {
      TableIsOfRequests(states, actions, i - 1);
      FirstInFirstOut(states, actions, i - 1);
      assert Next(states[i - 1], actions[i - 1], states[i]);
      TableStep(states[i - 1], actions[i - 1], states[i], empty, Sent(states, actions, i - 1),
        Received(actions, i - 1));
    }
  }

  /**
   * What a client gets back is then the answer from exactly the requests that were sent before its own: all of
   * them, by whichever client, and none that was sent later.
   */
  lemma {:induction false} AnswerSeesAllEarlier(states: seq<Sys>, actions: seq<Action>, i: nat, c: Pid)
      returns (j: nat, n: nat)
    requires IsRun(states, actions) && Init(states[0]) && i < |actions| && actions[i] == Release(c)
    requires forall m | 0 <= m < i :: !actions[m].DaemonInterrupted?
    ensures c in states[i + 1].clients && states[i + 1].clients[c].result.Some?
    ensures var (reply, sent) := (states[i + 1].clients[c].result.value, Sent(states, actions, i));
      && n < |sent| && sent[n] == Msg(STAT_FUNC, c, states[i].clients[c].serial, reply.origin.st, 0)
      && reply.msg.st ==
         StatReply(RunDb(seq(HASH_TABLE_SIZE, _ => []), Local(sent[..n])), sent[n].st, 0, states[i].unknownIsReal)
  {
    var k, st;
    k, j, st := ReturnsOwnAnswer(states, actions, i, c);
    var reply, sent := states[i + 1].clients[c].result.value, Sent(states, actions, j);
    n := AnsweredFrom(states, actions, j, reply);
    SentGrows(states, actions, j, i);
    assert Sent(states, actions, i)[..n] == sent[..n];
  }

  /** Which request a reply answers, and the table it was computed from. */
  lemma {:induction false} AnsweredFrom(states: seq<Sys>, actions: seq<Action>, j: nat, t: Tagged) returns (n: nat)
    requires IsRun(states, actions) && Init(states[0]) && j < |actions| && ComputedAt(states, actions, j, t)
    requires forall m | 0 <= m < j :: !actions[m].DaemonInterrupted?
    ensures var sent := Sent(states, actions, j);
      n < |sent| && t.origin == sent[n] && t.db == RunDb(seq(HASH_TABLE_SIZE, _ => []), Local(sent[..n]))
  {
    TableIsOfRequests(states, actions, j);
    assert Next(states[j], actions[j], states[j + 1]);
    n := Received(actions, j) - 1;
  }

  lemma {:induction false} SentGrows(states: seq<Sys>, actions: seq<Action>, j: nat, i: nat)
    requires j <= i <= |actions| && i <= |states|
    ensures Sent(states, actions, j) <= Sent(states, actions, i)
  {
    if j < i {
      SentGrows(states, actions, j, i - 1);
    }
  }
}
