/** main_loop of server/server.c: the pointer program over a whole run, and what the
    laws of modules Requests, Elements and Safety say about it. */
module MainLoop {
  import opened Bytes
  import opened Machine
  import opened ServerLoop
  import opened Requests
  import opened Safety
  import opened Wakeups
  import opened Elements
  import opened Histories
  import opened Timeouts

  lemma RunOneMore(sv: Server, events: seq<Event>, i: nat, clock: Clock, sent: seq<Answer>, goal: (Server, seq<Answer>))
    requires i < |events|
    requires var (end, log) := Run(sv, events[i..], clock); (end, sent + log) == goal
    ensures var (sv1, more) := Step(sv, events[i], clock);
      var (end, log) := Run(sv1, events[i + 1..], clock);
      (end, (sent + more) + log) == goal
  {
    assert events[i..][1..] == events[i + 1..];
    var (sv1, more) := Step(sv, events[i], clock);
    var (end, log) := Run(sv1, events[i + 1..], clock);
    assert sent + (more + log) == (sent + more) + log;
  }

  /** One request or one tick. */
  method Handle(host: Host, e: Event, clock: Clock) returns (sent: seq<Answer>)
    requires host.Valid()
    modifies host, host.db, host.db.repr, host.pending, host.pending.repr
    ensures host.Valid() && fresh(host.db.repr - old(host.db.repr)) && fresh(host.pending.repr - old(host.pending.repr))
    ensures (host.Abs(), sent) == Step(old(host.Abs()), e, clock)
  {
    match e {
      case Request(client, cmd) => sent := host.Serve(client, cmd, clock);
      case Tick => sent := host.DoHangingJobs(clock);
    }
  }

  method HandleAll(host: Host, events: seq<Event>, clock: Clock) returns (log: seq<Answer>)
    requires host.Valid()
    modifies host, host.db, host.db.repr, host.pending, host.pending.repr
    ensures host.Valid()
    ensures (host.Abs(), log) == Run(old(host.Abs()), events, clock)
  {
    log := [];
    ghost var goal := Run(host.Abs(), events, clock);
    assert events[0..] == events && [] + goal.1 == goal.1;
    for i := 0 to |events|
      invariant host.Valid()
      invariant fresh(host.db.repr - old(host.db.repr)) && fresh(host.pending.repr - old(host.pending.repr))
      invariant var (end, rest) := Run(host.Abs(), events[i..], clock); (end, log + rest) == goal
    {
      RunOneMore(host.Abs(), events, i, clock, log, goal);
      var sent := Handle(host, events[i], clock);
      log := log + sent;
    }
    assert log + [] == log;
  }

  /** What holds of a new server after any events. */
  ghost predicate Laws(events: seq<Event>, clock: Clock, sv: Server, log: seq<Answer>) {
    // each request received was answered exactly once or still waits, and no other was
    && (forall id: nat :: Answered(log, id) + Waiting(sv.pending, id) == if id < sv.issued then 1 else 0)
    // the newest requests are first in the pending list
    && NewestFirst(sv)
    // after a tick whoever waits names only keys that do not exist
    && (events != [] && events[|events| - 1].Tick? ==> NobodyMissed(sv))
    // no list is ever empty and no entry is used that is not there
    && (SingleKeyEvents(events) ==> NoEmptyList(sv.keys) && forall a <- log :: a.reply != Crash)
    // what was pushed is in a list, was delivered, was taken for a reply that could not carry
    // it, or was lost by a misdirected move
    && (OnlyMoves(events) ==> forall x :: Balanced(events, clock, sv, log, x))
    // whoever is told that the time is up asked for a timeout other than 0 and waited so long
    && (forall x <- log :: InTime(x))
    // a key that is only pushed to and popped from is a list with two ends
    && (forall k :: (forall e <- events :: e.Request? ==> EndUse(e.cmd, k)) ==>
          History([], log, k, Content(sv.keys, k)))
    // what one end of a queue took in is what left the other end and what is left, in order
    && (forall k :: (forall e <- events :: e.Request? ==> QueueUse(e.cmd, k)) ==>
        && Departed(log, k) + Content(sv.keys, k) == Queued(log, k)
        && (AllSent(log, k) <==> Dequeued(log, k) + Content(sv.keys, k) == Queued(log, k)))
  }

  ghost predicate Balanced(events: seq<Event>, clock: Clock, sv: Server, log: seq<Answer>, x: Bytes) {
    Total(sv.keys, x) + Count(AllDelivered(log), x)
    + Count(AllWithheld(log), x) + Count(AllLost(START, events, clock), x)
    == Count(AllAccepted(log), x)
  }

  lemma RunKeepsLaws(events: seq<Event>, clock: Clock)
    ensures var (sv, log) := Run(START, events, clock); Laws(events, clock, sv, log)
  {
    var (sv, log) := Run(START, events, clock);
    SingleReply(START, events, clock);
    RunKeepsNewestFirst(START, events, clock);
    if events != [] && events[|events| - 1].Tick? {
      assert events == events[..|events| - 1] + [Tick];
      var at := RunLosesNoWakeup(START, events[..|events| - 1], clock);
    }
    if SingleKeyEvents(events) { RunKeepsListsNonEmpty(START, events, clock); }
    if OnlyMoves(events) {
      forall x ensures Balanced(events, clock, sv, log, x) {
        RunConserves(START, events, clock, x);
      }
    }
    RunInTime(START, events, clock);
    forall k | forall e <- events :: e.Request? ==> EndUse(e.cmd, k)
      ensures History([], log, k, Content(sv.keys, k))
    {
      RunIsHistory(START, events, clock, k);
    }
    forall k | forall e <- events :: e.Request? ==> QueueUse(e.cmd, k)
      ensures Departed(log, k) + Content(sv.keys, k) == Queued(log, k)
      ensures AllSent(log, k) <==> Dequeued(log, k) + Content(sv.keys, k) == Queued(log, k)
    {
      RunIsFifo(START, events, clock, k);
      RunDeliversInOrder(START, events, clock, k);
      assert [] + Queued(log, k) == Queued(log, k);
    }
  }

  /** Start up, and handle any requests, and ticks at any readings of the clock. */
  method StartAndRun(hash: Bytes -> nat, events: seq<Event>, clock: Clock) returns (host: Host, log: seq<Answer>)
    ensures host.Valid() && Laws(events, clock, host.Abs(), log)
  {
    host := new Host(hash);
    log := HandleAll(host, events, clock);
    RunKeepsLaws(events, clock);
  }
}
