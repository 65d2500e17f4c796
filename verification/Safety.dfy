/** Safety of the key space over whole runs: no key ever holds an empty list, and a
    queue hands out its elements in the order they came in. */
module Safety {
  import opened Bytes
  import opened Decimals
  import opened ListSpec
  import opened Machine
  import opened Elements

  // ---- no empty list ----------------------------------------------------------

  ghost predicate NoEmptyList(m: Keys) {
    forall k :: k in m && m[k].Lst? ==> m[k].elems != []
  }

  /** BLPOP or BRPOP empties a list that is not under its first key: the list is
      left in place. */
  predicate Strands(m: Keys, cmd: Cmd) {
    && cmd.BPop?
    && (var i := FirstPresent(m, cmd.keys);
        0 < i < |cmd.keys| && m[cmd.keys[i]].Lst? && |m[cmd.keys[i]].elems| == 1)
  }

  lemma {:induction false} DelKeeps(m: Keys, keys: seq<Bytes>)
    ensures DoDel(m, keys).0 == m - set k <- keys
    decreases |keys|
  {
    if keys != [] {
      DelKeeps(m - {keys[0]}, keys[1..]);
      assert keys == [keys[0]] + keys[1..];
      assert (set k <- keys) == {keys[0]} + set k <- keys[1..];
    }
  }

  lemma BPopStrands(m: Keys, arr: seq<Item>, end: End, keys: seq<Bytes>, timeout: Bytes)
    requires NoEmptyList(m)
    ensures var out := DoBPop(m, arr, end, keys);
      && out.ret != Replied(Crash)
      && (NoEmptyList(out.keys) <==> !Strands(m, BPop(end, keys, timeout)))
  {
    var i := FirstPresent(m, keys);
    var out := DoBPop(m, arr, end, keys);
    if Strands(m, BPop(end, keys, timeout)) {
      assert keys[i] in out.keys && out.keys[keys[i]] == Lst([]);
    }
  }

  /** Every command keeps lists non-empty and never meets an empty one, except
      that a BLPOP or BRPOP keeps them so exactly when it does not strand one. */
  lemma ExecKeepsListsNonEmpty(m: Keys, arr: seq<Item>, cmd: Cmd)
    requires NoEmptyList(m)
    ensures var out := Exec(m, arr, cmd);
      && out.ret != Replied(Crash)
      && (NoEmptyList(out.keys) <==> !Strands(m, cmd))
  {
    match cmd {
      case BPop(end, keys, timeout) => BPopStrands(m, arr, end, keys, timeout);
      case Del(keys) => DelKeeps(m, keys);
      case _ =>
    }
  }

  /** BLPOP and BRPOP as documented: the list popped from is the one cleaned up
      and reported. */
  function IntendedBPop(m: Keys, arr: seq<Item>, end: End, keys: seq<Bytes>): Outcome {
    var i := FirstPresent(m, keys);
    if i < |keys| && m[keys[i]].Lst? && m[keys[i]].elems != [] then
      var s := m[keys[i]].elems;
      Outcome(Store(m, keys[i], Rest(end, s)), [KeyItem(keys[i]), PopItem(Taken(end, s))], Filled)
    else DoBPop(m, arr, end, keys)
  }

  /** They do what is documented exactly when the list they find is under the
      first key named, or they find none. */
  lemma BPopAsIntended(m: Keys, arr: seq<Item>, end: End, keys: seq<Bytes>)
    requires NoEmptyList(m)
    ensures DoBPop(m, arr, end, keys) == IntendedBPop(m, arr, end, keys)
      <==> (var i := FirstPresent(m, keys); 0 < i < |keys| ==> !m[keys[i]].Lst?)
  {
    var i := FirstPresent(m, keys);
    if 0 < i < |keys| && m[keys[i]].Lst? {
      assert DoBPop(m, arr, end, keys).arr[0] == KeyItem(keys[0]);
      assert IntendedBPop(m, arr, end, keys).arr[0] == KeyItem(keys[i]);
    } else if i == 0 && keys != [] && m[keys[0]].Lst? {
      var r := Rest(end, m[keys[0]].elems);
      assert m[keys[0] := Lst(r)] - {keys[0]} == m - {keys[0]};
    }
  }

  /** RPUSH b x, BLPOP k b 0, LPOP b: the first pop leaves an empty list behind, and the second
      one uses an entry that is not there. */
  lemma StrandedListCrashes(b: Bytes, x: Bytes, k: Bytes, zero: Bytes, clock: Clock)
    requires b != k && Seconds(zero).Some?
    ensures var push, pop := Request(0, Push(Right, b, [x])), Request(1, BPop(Left, [k, b], zero));
      var log := Run(START, [push, pop, Request(2, Pop(Left, b))], clock).1;
      |log| == 3 && Removed(log[1].cmd, log[1].reply) == [x] && log[2].reply == Crash
  {
    var push, pop := Request(0, Push(Right, b, [x])), Request(1, BPop(Left, [k, b], zero));
    PushThenPop(b, x, k, zero, clock);
    ShortRuns(START, push, pop, Request(2, Pop(Left, b)), clock);
  }

  predicate SingleKeyPops(actions: seq<Action>) {
    forall a <- actions :: a.cmd.BPop? && |a.cmd.keys| <= 1
  }

  predicate SingleKeyEvents(events: seq<Event>) {
    forall e <- events :: e.Request? && e.cmd.BPop? ==> |e.cmd.keys| <= 1
  }

  lemma VisitKeepsListsNonEmpty(m: Keys, arr: seq<Item>, a: Action, now: Micros)
    requires NoEmptyList(m) && a.cmd.BPop? && |a.cmd.keys| <= 1
    ensures var (m1, _, done) := Visit(m, arr, a, now);
      NoEmptyList(m1) && (done.Some? ==> done.value != Crash)
  {
    ExecKeepsListsNonEmpty(m, arr, a.cmd);
  }

  lemma {:induction false} SweepKeepsListsNonEmpty(m: Keys, arr: seq<Item>, todo: seq<Action>,
                                                  readings: nat, clock: Clock)
    requires NoEmptyList(m) && SingleKeyPops(todo)
    ensures var s := SweepFrom(m, arr, todo, readings, clock);
      && NoEmptyList(s.keys) && SingleKeyPops(s.left)
      && forall a <- s.answers :: a.reply != Crash
    decreases |todo|
  {
    if todo != [] {
      var (m1, arr1, done) := Visit(m, arr, todo[0], clock(readings));
      VisitKeepsListsNonEmpty(m, arr, todo[0], clock(readings));
      SweepKeepsListsNonEmpty(m1, arr1, todo[1..], readings + 1, clock);
    }
  }

  /** No run of single-key blocking pops and any of the other commands ever
      reaches an empty list or dereferences the entry that is not there. */
  lemma {:induction false} RunKeepsListsNonEmpty(sv: Server, events: seq<Event>, clock: Clock)
    requires NoEmptyList(sv.keys) && SingleKeyPops(sv.pending) && SingleKeyEvents(events)
    ensures var (sv1, log) := Run(sv, events, clock);
      && NoEmptyList(sv1.keys) && SingleKeyPops(sv1.pending)
      && forall a <- log :: a.reply != Crash
    decreases |events|
  {
    if events != [] {
      var e := events[0];
      match e {
        case Tick => SweepKeepsListsNonEmpty(sv.keys, sv.arr, sv.pending, sv.readings, clock);
        case Request(client, cmd) => ExecKeepsListsNonEmpty(sv.keys, sv.arr, cmd);
      }
      RunKeepsListsNonEmpty(Step(sv, e, clock).0, events[1..], clock);
    }
  }

  // ---- first in, first out ------------------------------------------------------

  function Content(m: Keys, k: Bytes): seq<Bytes> {
    if k in m then ElemsOf(m[k]) else []
  }

  /** cmd uses key k, if at all, as the tail or the head of a queue. */
  predicate QueueUse(cmd: Cmd, k: Bytes) {
    match cmd
    case Push(end, key, _) => key == k ==> end == Right
    case Pop(end, key) => key == k ==> end == Left
    case RPopLPush(src, dst) => src != k && dst != k
    case BPop(end, keys, _) => k in keys ==> end == Left && keys == [k]
    case LRem(key, _, _) => key != k
    case LTrim(key, _, _) => key != k
    case LRange(_, _, _) => true
    case LInsert(key, _, _, _) => key != k
    case LSet(key, _, _) => key != k
    case Del(keys) => k !in keys
    case Rename(key, newKey) => key != k && newKey != k
    case Set(key, _) => key != k
  }

  function QueuedBy(a: Answer, k: Bytes): seq<Bytes> {
    if a.cmd.Push? && a.cmd.key == k then Accepted(a.cmd, a.reply) else []
  }

  /** The answer is to a command that takes elements from the head of k. */
  predicate Takes(a: Answer, k: Bytes) {
    (a.cmd.Pop? && a.cmd.key == k) || (a.cmd.BPop? && a.cmd.keys == [k])
  }

  function DepartedBy(a: Answer, k: Bytes): seq<Bytes> {
    if Takes(a, k) then Removed(a.cmd, a.reply) else []
  }

  function DequeuedBy(a: Answer, k: Bytes): seq<Bytes> {
    if Takes(a, k) then Delivered(a.cmd, a.reply) else []
  }

  function Queued(log: seq<Answer>, k: Bytes): seq<Bytes> {
    if log == [] then [] else QueuedBy(log[0], k) + Queued(log[1..], k)
  }

  /** The elements taken from k, in order, whether they were delivered or not. */
  function Departed(log: seq<Answer>, k: Bytes): seq<Bytes> {
    if log == [] then [] else DepartedBy(log[0], k) + Departed(log[1..], k)
  }

  /** The elements delivered from k, in order. */
  function Dequeued(log: seq<Answer>, k: Bytes): seq<Bytes> {
    if log == [] then [] else DequeuedBy(log[0], k) + Dequeued(log[1..], k)
  }

  lemma {:induction false} QueuedConcat(a: seq<Answer>, b: seq<Answer>, k: Bytes)
    ensures Queued(a + b, k) == Queued(a, k) + Queued(b, k)
  {
    if a == [] {
      assert a + b == b;
    } else {
      assert (a + b)[0] == a[0] && (a + b)[1..] == a[1..] + b;
      QueuedConcat(a[1..], b, k);
    }
  }

  lemma {:induction false} DepartedConcat(a: seq<Answer>, b: seq<Answer>, k: Bytes)
    ensures Departed(a + b, k) == Departed(a, k) + Departed(b, k)
  {
    if a == [] {
      assert a + b == b;
    } else {
      assert (a + b)[0] == a[0] && (a + b)[1..] == a[1..] + b;
      DepartedConcat(a[1..], b, k);
    }
  }

  /** Two stretches of a run that each keep first-in-first-out keep it together. */
  lemma Splice<T>(out1: seq<T>, out2: seq<T>, in1: seq<T>, in2: seq<T>, c0: seq<T>, c1: seq<T>, c2: seq<T>)
    requires out1 + c1 == c0 + in1 && out2 + c2 == c1 + in2
    ensures (out1 + out2) + c2 == c0 + (in1 + in2)
  {
    calc {
      (out1 + out2) + c2;
      out1 + (out2 + c2);
      out1 + (c1 + in2);
      (out1 + c1) + in2;
      (c0 + in1) + in2;
      c0 + (in1 + in2);
    }
  }

  lemma BPopQueue(m: Keys, arr: seq<Item>, end: End, keys: seq<Bytes>, timeout: Bytes, k: Bytes)
    requires QueueUse(BPop(end, keys, timeout), k)
    ensures var out := DoBPop(m, arr, end, keys);
      if k in keys && out.ret.Filled? then
        |out.arr| == 2 && out.arr[1].PopItem? && [out.arr[1].elem] + Content(out.keys, k) == Content(m, k)
      else Content(out.keys, k) == Content(m, k)
  {
    var i := FirstPresent(m, keys);
    if keys != [] && i < |keys| && keys[i] == k && m[k].Lst? && m[k].elems != [] {
      assert m[k].elems == [m[k].elems[0]] + m[k].elems[1..];
    }
  }

  /** Any command but a blocking pop. */
  lemma ExecQueue(m: Keys, arr: seq<Item>, a: Answer, k: Bytes)
    requires QueueUse(a.cmd, k) && !a.cmd.BPop?
    requires Replied(a.reply) == Exec(m, arr, a.cmd).ret
    ensures DepartedBy(a, k) + Content(Exec(m, arr, a.cmd).keys, k) == Content(m, k) + QueuedBy(a, k)
  {
    match a.cmd {
      case Pop(end, key) => PopQueue(m, a, k);
      case Del(keys) => DelKeeps(m, keys);
      case _ =>
    }
  }

  lemma PopQueue(m: Keys, a: Answer, k: Bytes)
    requires a.cmd.Pop? && QueueUse(a.cmd, k)
    requires a.reply == DoPop(m, a.cmd.end, a.cmd.key).1
    ensures DepartedBy(a, k) + Content(DoPop(m, a.cmd.end, a.cmd.key).0, k) == Content(m, k) && QueuedBy(a, k) == []
  {
    if a.cmd.key == k && k in m && m[k].Lst? && m[k].elems != [] {
      assert m[k].elems == [m[k].elems[0]] + m[k].elems[1..];
    }
  }

  lemma ReceiveQueue(sv: Server, client: nat, cmd: Cmd, clock: Clock, k: Bytes)
    requires QueueUse(cmd, k)
    ensures var (sv1, sent) := Receive(sv, client, cmd, clock);
      Departed(sent, k) + Content(sv1.keys, k) == Content(sv.keys, k) + Queued(sent, k)
  {
    var (sv1, sent) := Receive(sv, client, cmd, clock);
    if sent != [] {
      assert sent[1..] == [];
      assert Departed(sent, k) == DepartedBy(sent[0], k) && Queued(sent, k) == QueuedBy(sent[0], k);
    }
    if !cmd.BPop? {
      ExecQueue(sv.keys, sv.arr, sent[0], k);
    } else if Seconds(cmd.timeout).Some? {
      BPopQueue(sv.keys, sv.arr, cmd.end, cmd.keys, cmd.timeout, k);
      RemovedByPop(cmd, DoBPop(sv.keys, sv.arr, cmd.end, cmd.keys));
    }
  }

  lemma VisitQueue(m: Keys, arr: seq<Item>, a: Action, now: Micros, k: Bytes)
    requires a.cmd.BPop? && QueueUse(a.cmd, k)
    ensures var (m1, _, done) := Visit(m, arr, a, now);
      (match done
       case None => Content(m1, k) == Content(m, k)
       case Some(r) => DepartedBy(Answer(a.id, a.client, a.cmd, r), k) + Content(m1, k) == Content(m, k))
  {
    if Expired(a, now) {
      DueRemovesNothing(m, arr, a, now);
    } else {
      VisitRemoves(m, arr, a, now);
      BPopQueue(m, arr, a.cmd.end, a.cmd.keys, a.cmd.timeout, k);
    }
  }

  lemma {:induction false} SweepQueue(m: Keys, arr: seq<Item>, todo: seq<Action>, readings: nat, clock: Clock, k: Bytes)
    requires OnlyPopsWait(todo) && forall a <- todo :: QueueUse(a.cmd, k)
    ensures var s := SweepFrom(m, arr, todo, readings, clock);
      && Departed(s.answers, k) + Content(s.keys, k) == Content(m, k)
      && Queued(s.answers, k) == []
      && OnlyPopsWait(s.left) && forall a <- s.left :: QueueUse(a.cmd, k)
    decreases |todo|
  {
    if todo != [] {
      var a := todo[0];
      var (m1, arr1, done) := Visit(m, arr, a, clock(readings));
      VisitQueue(m, arr, a, clock(readings), k);
      SweepQueue(m1, arr1, todo[1..], readings + 1, clock, k);
      var rest := SweepFrom(m1, arr1, todo[1..], readings + 1, clock);
      if done.Some? {
        var s := SweepFrom(m, arr, todo, readings, clock);
        assert s.answers[1..] == rest.answers;
        Splice(DepartedBy(s.answers[0], k), Departed(rest.answers, k), [], [],
               Content(m, k), Content(m1, k), Content(rest.keys, k));
      }
    }
  }

  /** First in, first out: over any run in which k is fed only by RPUSH and drained
      only by LPOP and BLPOP of k alone, whatever happens to the other keys, what
      was taken from k followed by what is left in it is what it held at the
      start followed by what was pushed. */
  lemma {:induction false} RunIsFifo(sv: Server, events: seq<Event>, clock: Clock, k: Bytes)
    requires OnlyPopsWait(sv.pending) && forall a <- sv.pending :: QueueUse(a.cmd, k)
    requires forall e <- events :: e.Request? ==> QueueUse(e.cmd, k)
    ensures var (sv1, log) := Run(sv, events, clock);
      Departed(log, k) + Content(sv1.keys, k) == Content(sv.keys, k) + Queued(log, k)
    decreases |events|
  {
    if events != [] {
      var e := events[0];
      var (svm, sent) := Step(sv, e, clock);
      var (sv1, later) := Run(svm, events[1..], clock);
      match e {
        case Tick => SweepQueue(sv.keys, sv.arr, sv.pending, sv.readings, clock, k);
        case Request(client, cmd) => ReceiveQueue(sv, client, cmd, clock, k);
      }
      RunIsFifo(svm, events[1..], clock, k);
      QueuedConcat(sent, later, k);
      DepartedConcat(sent, later, k);
      Splice(Departed(sent, k), Departed(later, k), Queued(sent, k), Queued(later, k),
             Content(sv.keys, k), Content(svm.keys, k), Content(sv1.keys, k));
    }
  }

  /** No reply to a command that takes from k was too long to be sent. */
  predicate AllSent(log: seq<Answer>, k: Bytes) {
    forall a <- log :: Takes(a, k) ==> Withheld(a.cmd, a.reply) == []
  }

  lemma {:induction false} SentIsDeparted(log: seq<Answer>, k: Bytes)
    ensures AllSent(log, k) ==> Dequeued(log, k) == Departed(log, k)
    ensures !AllSent(log, k) ==> |Dequeued(log, k)| < |Departed(log, k)|
    ensures |Dequeued(log, k)| <= |Departed(log, k)|
  {
    if log != [] {
      assert log == [log[0]] + log[1..];
      SentIsDeparted(log[1..], k);
    }
  }

  /** What was delivered from k followed by what is left in it is what was there followed by
      what was pushed exactly if every element taken was sent. */
  lemma RunDeliversInOrder(sv: Server, events: seq<Event>, clock: Clock, k: Bytes)
    requires OnlyPopsWait(sv.pending) && forall a <- sv.pending :: QueueUse(a.cmd, k)
    requires forall e <- events :: e.Request? ==> QueueUse(e.cmd, k)
    ensures var (sv1, log) := Run(sv, events, clock);
      Dequeued(log, k) + Content(sv1.keys, k) == Content(sv.keys, k) + Queued(log, k) <==> AllSent(log, k)
  {
    RunIsFifo(sv, events, clock, k);
    var (sv1, log) := Run(sv, events, clock);
    SentIsDeparted(log, k);
    if !AllSent(log, k) {
      assert |Dequeued(log, k) + Content(sv1.keys, k)| < |Departed(log, k) + Content(sv1.keys, k)|;
    }
  }

  // ---- LTRIM and LRANGE ---------------------------------------------------------

  const ZERO: Bytes := [48]
  const MINUS_ONE: Bytes := [45, 49]

  /** LTRIM leaves what LRANGE with the same offsets showed, and removes the key exactly
      when that is nothing; offsets that are no numbers change nothing. */
  lemma TrimLeavesTheRange(m: Keys, arr: seq<Item>, key: Bytes, first: Bytes, last: Bytes)
    requires key in m ==> m[key].Lst?
    ensures var trim, show := Exec(m, arr, LTrim(key, first, last)), Exec(m, arr, LRange(key, first, last));
      if Parse(first).None? || Parse(last).None? then trim == show == Outcome(m, arr, Replied(InvInt))
      else
        Exec(trim.keys, arr, LRange(key, ZERO, MINUS_ONE)) == show.(keys := trim.keys) &&
        (key in trim.keys <==> key in m && Range(m[key].elems, Parse(first).value, Parse(last).value) != []) &&
        trim.keys - {key} == m - {key}
  {
    PrintThenParse(0);
    PrintThenParse(-1);
    assert Print(0) == ZERO && Print(-1) == MINUS_ONE;
    if key in m && Parse(first).Some? && Parse(last).Some? {
      TrimThenRange(m[key].elems, Parse(first).value, Parse(last).value);
    }
  }
}
