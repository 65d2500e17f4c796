/** Every request is answered exactly once or is still pending, and a tick takes
    exactly the answered actions off the pending list. */
module Requests {
  import opened Machine

  /** How many of the actions wait on behalf of request id. */
  function Waiting(actions: seq<Action>, id: nat): nat {
    if actions == [] then 0 else (if actions[0].id == id then 1 else 0) + Waiting(actions[1..], id)
  }

  /** How many of the answers are to request id. */
  function Answered(log: seq<Answer>, id: nat): nat {
    if log == [] then 0 else (if log[0].id == id then 1 else 0) + Answered(log[1..], id)
  }

  lemma {:induction false} AnsweredConcat(a: seq<Answer>, b: seq<Answer>, id: nat)
    ensures Answered(a + b, id) == Answered(a, id) + Answered(b, id)
  {
    if a == [] {
      assert a + b == b;
    } else {
      assert (a + b)[1..] == a[1..] + b;
      AnsweredConcat(a[1..], b, id);
    }
  }

  lemma {:induction false} SweepBalance(m: Keys, arr: seq<Item>, todo: seq<Action>,
                                       readings: nat, clock: Clock, id: nat)
    ensures var s := SweepFrom(m, arr, todo, readings, clock);
      Waiting(s.left, id) + Answered(s.answers, id) == Waiting(todo, id)
    decreases |todo|
  {
    if todo != [] {
      var (m1, arr1, done) := Visit(m, arr, todo[0], clock(readings));
      SweepBalance(m1, arr1, todo[1..], readings + 1, clock, id);
      var rest := SweepFrom(m1, arr1, todo[1..], readings + 1, clock);
      var s := SweepFrom(m, arr, todo, readings, clock);
      match done {
        case None => assert s.left[1..] == rest.left;
        case Some(r) => assert s.answers[1..] == rest.answers;
      }
    }
  }

  lemma ReceiveBalance(sv: Server, client: nat, cmd: Cmd, clock: Clock, id: nat)
    ensures var (sv1, sent) := Receive(sv, client, cmd, clock);
      && sv1.issued == sv.issued + 1
      && Waiting(sv1.pending, id) + Answered(sent, id)
         == Waiting(sv.pending, id) + if id == sv.issued then 1 else 0
  {
    var (sv1, sent) := Receive(sv, client, cmd, clock);
    if sent == [] {
      assert sv1.pending[1..] == sv.pending;
    } else {
      assert sent[1..] == [];
    }
  }

  /** Over any run, request by request: answers sent plus actions still pending
      are the actions pending at the start plus the requests received. */
  lemma {:induction false} RunBalance(sv: Server, events: seq<Event>, clock: Clock, id: nat)
    ensures var (sv1, log) := Run(sv, events, clock);
      && sv.issued <= sv1.issued
      && Waiting(sv1.pending, id) + Answered(log, id)
         == Waiting(sv.pending, id) + if sv.issued <= id < sv1.issued then 1 else 0
    decreases |events|
  {
    if events != [] {
      var e := events[0];
      var (svm, sent) := Step(sv, e, clock);
      var (sv1, later) := Run(svm, events[1..], clock);
      match e {
        case Tick => SweepBalance(sv.keys, sv.arr, sv.pending, sv.readings, clock, id);
        case Request(client, cmd) => ReceiveBalance(sv, client, cmd, clock, id);
      }
      RunBalance(svm, events[1..], clock, id);
      AnsweredConcat(sent, later, id);
    }
  }

  /** Each id names at most one pending action, and was handed out before. */
  ghost predicate Named(sv: Server) {
    forall id: nat :: Waiting(sv.pending, id) <= if id < sv.issued then 1 else 0
  }

  /** From a server whose pending requests have distinct ids: no request is
      answered twice, none is both answered and pending, and each one received
      during the run is one or the other. */
  lemma SingleReply(sv: Server, events: seq<Event>, clock: Clock)
    requires Named(sv)
    ensures var (sv1, log) := Run(sv, events, clock);
      && Named(sv1)
      && (forall id: nat :: Answered(log, id) + Waiting(sv1.pending, id) <= 1)
      && (forall id: nat :: sv.issued <= id < sv1.issued ==> Answered(log, id) + Waiting(sv1.pending, id) == 1)
      && (forall id: nat :: id >= sv1.issued ==> Answered(log, id) == 0)
  {
    var (sv1, log) := Run(sv, events, clock);
    forall id: nat
      ensures sv.issued <= sv1.issued
      ensures Waiting(sv1.pending, id) + Answered(log, id)
           == Waiting(sv.pending, id) + if sv.issued <= id < sv1.issued then 1 else 0
    {
      RunBalance(sv, events, clock, id);
    }
  }

  /** The actions that were not answered, in their order. */
  function Unanswered(actions: seq<Action>, log: seq<Answer>): seq<Action> {
    if actions == [] then []
    else (if Answered(log, actions[0].id) > 0 then [] else [actions[0]]) + Unanswered(actions[1..], log)
  }

  lemma {:induction false} UnansweredExtra(actions: seq<Action>, x: Answer, log: seq<Answer>)
    requires Waiting(actions, x.id) == 0
    ensures Unanswered(actions, [x] + log) == Unanswered(actions, log)
  {
    if actions != [] {
      assert ([x] + log)[1..] == log;
      UnansweredExtra(actions[1..], x, log);
    }
  }

  lemma {:induction false} SweepKeepsOrder(m: Keys, arr: seq<Item>, todo: seq<Action>, readings: nat, clock: Clock)
    requires forall id: nat :: Waiting(todo, id) <= 1
    ensures var s := SweepFrom(m, arr, todo, readings, clock);
      s.left == Unanswered(todo, s.answers)
    decreases |todo|
  {
    if todo != [] {
      var a, tail := todo[0], todo[1..];
      var (m1, arr1, done) := Visit(m, arr, a, clock(readings));
      var rest := SweepFrom(m1, arr1, tail, readings + 1, clock);
      var s := SweepFrom(m, arr, todo, readings, clock);
      assert forall id: nat :: Waiting(todo, id) == (if a.id == id then 1 else 0) + Waiting(tail, id);
      SweepKeepsOrder(m1, arr1, tail, readings + 1, clock);
      SweepBalance(m1, arr1, tail, readings + 1, clock, a.id);
      if done.Some? {
        UnansweredExtra(tail, s.answers[0], rest.answers);
        assert s.answers[1..] == rest.answers;
      }
    }
  }

  /** A tick removes exactly the answered actions and keeps the order of the rest. */
  lemma TickRemovesTheAnswered(sv: Server, clock: Clock)
    requires Named(sv)
    ensures var (sv1, sent) := DoTick(sv, clock);
      sv1.pending == Unanswered(sv.pending, sent)
  {
    SweepKeepsOrder(sv.keys, sv.arr, sv.pending, sv.readings, clock);
  }
}
