/** A key that is only pushed to and popped from, on either end, over whole runs: the answers are
    a history of a list with two ends. With pushes on one end and pops on the other it is a
    queue, with both on one end a stack. */
module Histories {
  import opened Bytes
  import opened ListSpec
  import opened Machine
  import opened Elements
  import opened Safety

  // ---- histories ------------------------------------------------------------------

  /** s after the values were put on one end, one after the other. */
  function PutOn(end: End, s: seq<Bytes>, vals: seq<Bytes>): seq<Bytes>
    decreases |vals|
  {
    if vals == [] then s
    else PutOn(end, match end case Left => [vals[0]] + s case Right => s + [vals[0]], vals[1..])
  }

  /** The answer shows that x stood at the end the command takes from. */
  predicate TakenOff(end: End, x: Bytes, s: seq<Bytes>, rest: seq<Bytes>) {
    match end
    case Left => s == [x] + rest
    case Right => s == rest + [x]
  }

  /** What one answer tells of the key: values put on an end, one element taken off an end,
      or nothing. */
  ghost predicate OneAnswer(s: seq<Bytes>, a: Answer, k: Bytes, t: seq<Bytes>) {
    if a.cmd.Push? && a.cmd.key == k then t == PutOn(a.cmd.end, s, Accepted(a.cmd, a.reply))
    else if Takes(a, k) && Removed(a.cmd, a.reply) != [] then
      |Removed(a.cmd, a.reply)| == 1 && TakenOff(a.cmd.end, Removed(a.cmd, a.reply)[0], s, t)
    else t == s
  }

  /** From s to t by what the answers tell, one after the other. */
  ghost predicate History(s: seq<Bytes>, log: seq<Answer>, k: Bytes, t: seq<Bytes>)
    decreases |log|
  {
    if log == [] then s == t else exists u :: OneAnswer(s, log[0], k, u) && History(u, log[1..], k, t)
  }

  lemma {:induction false} HistoryConcat(s: seq<Bytes>, a: seq<Answer>, u: seq<Bytes>, b: seq<Answer>,
                                        t: seq<Bytes>, k: Bytes)
    requires History(s, a, k, u) && History(u, b, k, t)
    ensures History(s, a + b, k, t)
    decreases |a|
  {
    if a == [] {
      assert a + b == b;
    } else {
      assert (a + b)[0] == a[0] && (a + b)[1..] == a[1..] + b;
      var v :| OneAnswer(s, a[0], k, v) && History(v, a[1..], k, u);
      HistoryConcat(v, a[1..], u, b, t, k);
    }
  }

  lemma HistoryOne(s: seq<Bytes>, a: Answer, k: Bytes, t: seq<Bytes>)
    requires OneAnswer(s, a, k, t)
    ensures History(s, [a], k, t)
  {
    assert [a][1..] == [] && History(t, [], k, t);
  }

  // ---- what every run does -----------------------------------------------------------

  /** The command pushes to k or pops from it, k alone if it may block, or has to do with other
      keys. */
  predicate EndUse(cmd: Cmd, k: Bytes) {
    match cmd
    case Push(_, _, _) => true
    case Pop(_, _) => true
    case RPopLPush(src, dst) => src != k && dst != k
    case BPop(_, keys, _) => k in keys ==> keys == [k]
    case LRem(key, _, _) => key != k
    case LTrim(key, _, _) => key != k
    case LRange(_, _, _) => true
    case LInsert(key, _, _, _) => key != k
    case LSet(key, _, _) => key != k
    case Del(keys) => k !in keys
    case Rename(key, newKey) => key != k && newKey != k
    case Set(key, _) => key != k
  }

  lemma {:induction false} PutOnAll(end: End, s: seq<Bytes>, vals: seq<Bytes>)
    ensures PutOn(end, s, vals) == match end case Left => Reverse(vals) + s case Right => s + vals
    decreases |vals|
  {
    if vals != [] {
      match end {
        case Left =>
          PutOnAll(end, [vals[0]] + s, vals[1..]);
          assert Reverse(vals[1..]) + ([vals[0]] + s) == Reverse(vals) + s;
        case Right =>
          PutOnAll(end, s + [vals[0]], vals[1..]);
          assert (s + [vals[0]]) + vals[1..] == s + vals;
      }
    }
  }

  lemma Ends(s: seq<Bytes>)
    requires s != []
    ensures s == [s[0]] + s[1..] && s == s[..|s| - 1] + [s[|s| - 1]]
  {
  }

  /** Any command but a blocking pop. */
  lemma ExecEnds(m: Keys, arr: seq<Item>, a: Answer, k: Bytes)
    requires EndUse(a.cmd, k) && !a.cmd.BPop? && Replied(a.reply) == Exec(m, arr, a.cmd).ret
    ensures OneAnswer(Content(m, k), a, k, Content(Exec(m, arr, a.cmd).keys, k))
  {
    match a.cmd {
      case Push(end, key, vals) => PutOnAll(end, Content(m, k), Accepted(a.cmd, a.reply));
      case Pop(end, key) => PopEnds(m, a, k);
      case Del(keys) => DelKeeps(m, keys);
      case _ =>
    }
  }

  lemma PopEnds(m: Keys, a: Answer, k: Bytes)
    requires a.cmd.Pop? && a.reply == DoPop(m, a.cmd.end, a.cmd.key).1
    ensures OneAnswer(Content(m, k), a, k, Content(DoPop(m, a.cmd.end, a.cmd.key).0, k))
  {
    hide OneAnswer, TextReply, Taken, Rest;
    if a.cmd.key == k && k in m && m[k].Lst? && m[k].elems != [] {
      PopTakes(a, k, m[k].elems);
    } else {
      assert Removed(a.cmd, a.reply) == [] || a.cmd.key != k;
      NotTaken(Content(m, k), a, k);
    }
  }

  /** The answer to a pop of another key, or one that took nothing. */
  lemma NotTaken(s: seq<Bytes>, a: Answer, k: Bytes)
    requires a.cmd.Pop? && (Removed(a.cmd, a.reply) == [] || a.cmd.key != k)
    ensures OneAnswer(s, a, k, s)
  {
  }

  lemma PopTakes(a: Answer, k: Bytes, s: seq<Bytes>)
    requires a.cmd.Pop? && a.cmd.key == k && s != [] && a.reply == TextReply(Taken(a.cmd.end, s))
    ensures OneAnswer(s, a, k, Rest(a.cmd.end, s))
  {
    PopRemoves(a.cmd, Taken(a.cmd.end, s));
    hide Removed, TextReply;
    Ends(s);
  }

  lemma PopRemoves(cmd: Cmd, x: Bytes)
    requires cmd.Pop?
    ensures Removed(cmd, TextReply(x)) == [x]
  {
  }

  /** A blocking pop, by what it hands back. */
  lemma BPopEnds(m: Keys, arr: seq<Item>, cmd: Cmd, k: Bytes)
    requires cmd.BPop? && EndUse(cmd, k)
    ensures var out := Exec(m, arr, cmd);
      && (out.ret.Filled? ==> HoldsPop(out.arr))
      && if cmd.keys == [k] && out.ret.Filled? then
           TakenOff(cmd.end, out.arr[1].elem, Content(m, k), Content(out.keys, k))
         else Content(out.keys, k) == Content(m, k)
  {
    var i := FirstPresent(m, cmd.keys);
    if i < |cmd.keys| && m[cmd.keys[i]].Lst? && m[cmd.keys[i]].elems != [] { Ends(m[cmd.keys[i]].elems); }
  }

  lemma ReceiveEnds(sv: Server, client: nat, cmd: Cmd, clock: Clock, k: Bytes)
    requires EndUse(cmd, k)
    ensures var (sv1, sent) := Receive(sv, client, cmd, clock);
      History(Content(sv.keys, k), sent, k, Content(sv1.keys, k))
  {
    hide Exec, OneAnswer, TakenOff;
    var (sv1, sent) := Receive(sv, client, cmd, clock);
    if !cmd.BPop? {
      ExecEnds(sv.keys, sv.arr, sent[0], k);
    } else if Seconds(cmd.timeout).None? {
      Untouched(Content(sv.keys, k), sent[0], k);
    } else {
      BPopEnds(sv.keys, sv.arr, cmd, k);
      var out := Exec(sv.keys, sv.arr, cmd);
      RemovedByPop(cmd, out);
      if sent != [] { PopAnswer(Content(sv.keys, k), sent[0], k, Content(sv1.keys, k), out); }
    }
    if sent != [] { HistoryOne(Content(sv.keys, k), sent[0], k, Content(sv1.keys, k)); }
  }

  /** The answer to a blocking pop that took nothing. */
  lemma Untouched(s: seq<Bytes>, a: Answer, k: Bytes)
    requires !a.cmd.Push? && Removed(a.cmd, a.reply) == []
    ensures OneAnswer(s, a, k, s)
  {
  }

  lemma PopAnswer(s: seq<Bytes>, a: Answer, k: Bytes, t: seq<Bytes>, out: Outcome)
    requires a.cmd.BPop? && (out.ret.Filled? ==> HoldsPop(out.arr))
    requires Removed(a.cmd, a.reply) == if out.ret.Filled? then Popped(out.arr) else []
    requires if a.cmd.keys == [k] && out.ret.Filled? then TakenOff(a.cmd.end, out.arr[1].elem, s, t) else t == s
    ensures OneAnswer(s, a, k, t)
  {
  }

  lemma VisitEnds(m: Keys, arr: seq<Item>, a: Action, now: Micros, k: Bytes)
    requires a.cmd.BPop? && EndUse(a.cmd, k)
    ensures var (m1, _, done) := Visit(m, arr, a, now);
      if done.None? then Content(m1, k) == Content(m, k)
      else OneAnswer(Content(m, k), Answer(a.id, a.client, a.cmd, done.value), k, Content(m1, k))
  {
    hide OneAnswer, TakenOff, Removed, TickReply, BlockingReply, Timed;
    var (m1, arr1, done) := Visit(m, arr, a, now);
    if Expired(a, now) {
      DueRemovesNothing(m, arr, a, now);
      Untouched(Content(m, k), Answer(a.id, a.client, a.cmd, done.value), k);
    } else {
      VisitRemoves(m, arr, a, now);
      BPopEnds(m, arr, a.cmd, k);
      if done.Some? {
        PopAnswer(Content(m, k), Answer(a.id, a.client, a.cmd, done.value), k, Content(m1, k), Exec(m, arr, a.cmd));
      }
    }
  }

  lemma {:induction false} SweepEnds(m: Keys, arr: seq<Item>, todo: seq<Action>, readings: nat, clock: Clock, k: Bytes)
    requires OnlyPopsWait(todo) && forall a <- todo :: EndUse(a.cmd, k)
    ensures var s := SweepFrom(m, arr, todo, readings, clock);
      && History(Content(m, k), s.answers, k, Content(s.keys, k))
      && OnlyPopsWait(s.left) && forall a <- s.left :: EndUse(a.cmd, k)
    decreases |todo|
  {
    if todo != [] {
      hide Visit, OneAnswer, EndUse, History;
      var a := todo[0];
      var (m1, arr1, done) := Visit(m, arr, a, clock(readings));
      VisitEnds(m, arr, a, clock(readings), k);
      SweepEnds(m1, arr1, todo[1..], readings + 1, clock, k);
      var rest := SweepFrom(m1, arr1, todo[1..], readings + 1, clock);
      if done.Some? {
        var x := Answer(a.id, a.client, a.cmd, done.value);
        HistoryOne(Content(m, k), x, k, Content(m1, k));
        HistoryConcat(Content(m, k), [x], Content(m1, k), rest.answers, Content(rest.keys, k), k);
      }
    }
  }

  /** Over any run in which k is only pushed to and popped from, on whatever ends, and whatever
      happens to the other keys: the answers tell a history that leads from the list at the
      start to the one at the end. */
  lemma {:induction false} RunIsHistory(sv: Server, events: seq<Event>, clock: Clock, k: Bytes)
    requires OnlyPopsWait(sv.pending) && forall a <- sv.pending :: EndUse(a.cmd, k)
    requires forall e <- events :: e.Request? ==> EndUse(e.cmd, k)
    ensures var (sv1, log) := Run(sv, events, clock);
      History(Content(sv.keys, k), log, k, Content(sv1.keys, k))
    decreases |events|
  {
    if events != [] {
      hide Receive, SweepFrom, EndUse, History, Content;
      var e := events[0];
      var (svm, sent) := Step(sv, e, clock);
      var (sv1, later) := Run(svm, events[1..], clock);
      match e {
        case Tick => SweepEnds(sv.keys, sv.arr, sv.pending, sv.readings, clock, k);
        case Request(client, cmd) =>
          ReceiveEnds(sv, client, cmd, clock, k);
          PendingAfter(sv, client, cmd, clock);
      }
      RunIsHistory(svm, events[1..], clock, k);
      HistoryConcat(Content(sv.keys, k), sent, Content(svm.keys, k), later, Content(sv1.keys, k), k);
    } else {
      assert History(Content(sv.keys, k), [], k, Content(sv.keys, k));
    }
  }

  lemma PendingAfter(sv: Server, client: nat, cmd: Cmd, clock: Clock)
    ensures var sv1 := Receive(sv, client, cmd, clock).0;
      forall a <- sv1.pending :: a in sv.pending || (a.cmd == cmd && cmd.BPop?)
  {
  }

  // ---- queues and stacks ----------------------------------------------------------------

  /** Whatever the log tells of k was pushed on the one end and taken from the other. */
  predicate OnEnds(log: seq<Answer>, k: Bytes, into: End, from: End) {
    forall a <- log :: (a.cmd.Push? && a.cmd.key == k ==> a.cmd.end == into) && (Takes(a, k) ==> a.cmd.end == from)
  }

  /** A queue that is filled on the left and drained on the right, seen from its right end: what was
      taken and what is left are what was there and what was pushed, in order. */
  lemma {:induction false} QueueFromTheRight(s: seq<Bytes>, log: seq<Answer>, k: Bytes, t: seq<Bytes>)
    requires History(s, log, k, t) && OnEnds(log, k, Left, Right)
    ensures Departed(log, k) + Reverse(t) == Reverse(s) + Queued(log, k)
    decreases |log|
  {
    if log != [] {
      var a, rest := log[0], log[1..];
      var u :| OneAnswer(s, a, k, u) && History(u, rest, k, t);
      QueueFromTheRight(u, rest, k, t);
      OneFromTheRight(s, a, k, u);
      Splice(DepartedBy(a, k), Departed(rest, k), QueuedBy(a, k), Queued(rest, k), Reverse(s), Reverse(u), Reverse(t));
    } else {
      assert [] + Reverse(t) == Reverse(s) + [];
    }
  }

  lemma OneFromTheRight(s: seq<Bytes>, a: Answer, k: Bytes, u: seq<Bytes>)
    requires OneAnswer(s, a, k, u) && OnEnds([a], k, Left, Right)
    ensures DepartedBy(a, k) + Reverse(u) == Reverse(s) + QueuedBy(a, k)
  {
    assert a in [a];
    if a.cmd.Push? && a.cmd.key == k {
      var vals := Accepted(a.cmd, a.reply);
      PutOnAll(Left, s, vals);
      ReverseConcat(Reverse(vals), s);
      ReverseTwice(vals);
    } else if Takes(a, k) && Removed(a.cmd, a.reply) != [] {
      var x := Removed(a.cmd, a.reply)[0];
      ReverseConcat(u, [x]);
      assert Reverse([x]) == [x];
    }
  }

  /** LPUSH and RPOP, with BRPOP of k alone: first in, first out, over any run. */
  lemma RunIsFifoFromTheRight(sv: Server, events: seq<Event>, clock: Clock, k: Bytes)
    requires OnlyPopsWait(sv.pending) && forall a <- sv.pending :: EndUse(a.cmd, k)
    requires forall e <- events :: e.Request? ==> EndUse(e.cmd, k)
    requires OnEnds(Run(sv, events, clock).1, k, Left, Right)
    ensures var (sv1, log) := Run(sv, events, clock);
      Departed(log, k) + Reverse(Content(sv1.keys, k)) == Reverse(Content(sv.keys, k)) + Queued(log, k)
  {
    var (sv1, log) := Run(sv, events, clock);
    RunIsHistory(sv, events, clock, k);
    QueueFromTheRight(Content(sv.keys, k), log, k, Content(sv1.keys, k));
  }

  /** A stack gives back in the opposite order what was on it: what is taken off the right end and
      what is left below, with no push in between. */
  lemma {:induction false} StackGivesBack(s: seq<Bytes>, log: seq<Answer>, k: Bytes, t: seq<Bytes>)
    requires History(s, log, k, t) && OnEnds(log, k, Right, Right) && Queued(log, k) == []
    ensures s == t + Reverse(Departed(log, k))
    decreases |log|
  {
    if log != [] {
      var a, rest := log[0], log[1..];
      var u :| OneAnswer(s, a, k, u) && History(u, rest, k, t);
      hide OneAnswer, History, Removed;
      assert QueuedBy(a, k) == [] && Queued(rest, k) == [];
      StackGivesBack(u, rest, k, t);
      OneGivesBack(s, a, k, u);
      ReverseConcat(DepartedBy(a, k), Departed(rest, k));
      assert (t + Reverse(Departed(rest, k))) + Reverse(DepartedBy(a, k)) == t + Reverse(Departed(log, k));
    }
  }

  lemma OneGivesBack(s: seq<Bytes>, a: Answer, k: Bytes, u: seq<Bytes>)
    requires OneAnswer(s, a, k, u) && OnEnds([a], k, Right, Right) && QueuedBy(a, k) == []
    ensures s == u + Reverse(DepartedBy(a, k))
  {
    assert a in [a];
    if a.cmd.Push? && a.cmd.key == k {
      PutOnAll(Right, s, []);
    } else if Takes(a, k) && Removed(a.cmd, a.reply) != [] {
      var x := Removed(a.cmd, a.reply)[0];
      assert Reverse([x]) == [x];
    }
  }

  /** RPUSH and RPOP, with BRPOP of k alone: last in, first out. Over a run that pushes nothing to k,
      whatever was pushed before, the list at the start is what is left of it and then what was
      taken, the last one first. */
  lemma RunIsLifo(sv: Server, events: seq<Event>, clock: Clock, k: Bytes)
    requires OnlyPopsWait(sv.pending) && forall a <- sv.pending :: EndUse(a.cmd, k)
    requires forall e <- events :: e.Request? ==> EndUse(e.cmd, k)
    requires var log := Run(sv, events, clock).1; OnEnds(log, k, Right, Right) && Queued(log, k) == []
    ensures var (sv1, log) := Run(sv, events, clock);
      Content(sv.keys, k) == Content(sv1.keys, k) + Reverse(Departed(log, k))
  {
    var (sv1, log) := Run(sv, events, clock);
    RunIsHistory(sv, events, clock, k);
    StackGivesBack(Content(sv.keys, k), log, k, Content(sv1.keys, k));
  }

  /** What lies below is not touched before what lies above was taken: over any history on the right
      end alone, the elements at the start that are still there are just the lowest ones, and if
      more was taken than pushed the rest of them went from the top down. */
  lemma {:induction false} StackKeepsBelow(s: seq<Bytes>, log: seq<Answer>, k: Bytes, t: seq<Bytes>) returns (n: nat)
    requires History(s, log, k, t) && OnEnds(log, k, Right, Right)
    ensures n <= |s| && n <= |t| && s[..n] == t[..n]
    ensures |t| + |Departed(log, k)| == |s| + |Queued(log, k)|
    ensures n + |Departed(log, k)| >= |s|
    decreases |log|
  {
    if log == [] {
      n := |s|;
    } else {
      var a, rest := log[0], log[1..];
      var u :| OneAnswer(s, a, k, u) && History(u, rest, k, t);
      var below := StackKeepsBelow(u, rest, k, t);
      n := Min(|s|, below);
      PutOnAll(Right, s, Accepted(a.cmd, a.reply));
      assert n <= |u| && s[..n] == u[..n] == u[..below][..n] == t[..below][..n] == t[..n];
    }
  }
}
