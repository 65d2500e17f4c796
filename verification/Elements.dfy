/** Where list elements go: over whole runs, what was pushed is still in a list, was
    delivered to a client, or was taken off for a reply that could not carry it. */
module Elements {
  import opened Bytes
  import opened ListSpec
  import opened Machine
  import opened ReplyArrays
  import ReplyCodec

  function ElemsOf(v: Val): seq<Bytes> {
    if v.Lst? then v.elems else []
  }

  /** How often x occurs in all lists together. */
  ghost function Total(m: Keys, x: Bytes): nat
    decreases |m|
  {
    if m == map[] then 0
    else
      var k :| k in m;
      Count(ElemsOf(m[k]), x) + Total(m - {k}, x)
  }

  lemma {:induction false} TotalPick(m: Keys, k: Bytes, x: Bytes)
    requires k in m
    ensures Total(m, x) == Count(ElemsOf(m[k]), x) + Total(m - {k}, x)
    decreases |m|
  {
    var j :| j in m && Total(m, x) == Count(ElemsOf(m[j]), x) + Total(m - {j}, x);
    if j != k {
      TotalPick(m - {j}, k, x);
      TotalPick(m - {k}, j, x);
      assert m - {j} - {k} == m - {k} - {j};
    }
  }

  lemma TotalSet(m: Keys, k: Bytes, v: Val, x: Bytes)
    ensures Total(m[k := v], x) == Count(ElemsOf(v), x) + Total(m - {k}, x)
  {
    TotalPick(m[k := v], k, x);
    assert m[k := v] - {k} == m - {k};
  }

  lemma TotalWithout(m: Keys, k: Bytes, x: Bytes)
    ensures Total(m, x) == Total(m - {k}, x) + if k in m then Count(ElemsOf(m[k]), x) else 0
  {
    if k in m {
      TotalPick(m, k, x);
    } else {
      assert m - {k} == m;
    }
  }

  lemma TotalStore(m: Keys, k: Bytes, s: seq<Bytes>, x: Bytes)
    ensures Total(Store(m, k, s), x) == Count(s, x) + Total(m - {k}, x)
  {
    TotalSet(m, k, Lst(s), x);
  }

  lemma {:induction false} CountReverse(s: seq<Bytes>, x: Bytes)
    ensures Count(Reverse(s), x) == Count(s, x)
  {
    if s != [] {
      CountReverse(s[1..], x);
      CountConcat(Reverse(s[1..]), [s[0]], x);
    }
  }

  lemma TakenAndRest(end: End, s: seq<Bytes>, x: Bytes)
    requires s != []
    ensures Count(s, x) == Count(Rest(end, s), x) + Count([Taken(end, s)], x)
  {
    if end == Left {
      assert s == [s[0]] + s[1..];
      CountConcat([s[0]], s[1..], x);
    } else {
      assert s == s[..|s| - 1] + [s[|s| - 1]];
      CountConcat(s[..|s| - 1], [s[|s| - 1]], x);
    }
  }

  // ---- the ledger of one command --------------------------------------------

  /** The commands that only move list elements about. */
  predicate Moves(cmd: Cmd) {
    cmd.Push? || cmd.Pop? || cmd.RPopLPush? || cmd.BPop? || cmd.LRange?
  }

  /** The elements a command was accepted with. */
  function Accepted(cmd: Cmd, reply: Reply): seq<Bytes> {
    if cmd.Push? && reply.Int? then cmd.vals else []
  }

  /** The element that a blocking pop put into its reply array. */
  function Popped(items: seq<Item>): seq<Bytes> {
    if |items| > 1 && items[1].PopItem? then [items[1].elem] else []
  }

  /** The array is that of a blocking pop that took an element. */
  predicate HoldsPop(items: seq<Item>) {
    |items| == 2 && items[0].KeyItem? && items[1].PopItem?
  }

  /** The elements a reply takes out of the store and hands to the client. */
  function Delivered(cmd: Cmd, reply: Reply): seq<Bytes> {
    if cmd.Pop? && reply.Text? then [reply.text]
    else if cmd.BPop? && reply.Arr? then Popped(reply.items)
    else []
  }

  /** The elements taken out of the store for a reply that was too long to be sent. */
  function Withheld(cmd: Cmd, reply: Reply): seq<Bytes> {
    if cmd.Pop? && reply.TextTooLong? then [reply.text]
    else if cmd.BPop? && reply.Unsent? then Popped(reply.items)
    else []
  }

  /** The elements taken out of the store, one way or the other. */
  function Removed(cmd: Cmd, reply: Reply): seq<Bytes> {
    Delivered(cmd, reply) + Withheld(cmd, reply)
  }

  lemma RemovedCount(cmd: Cmd, reply: Reply, x: Bytes)
    ensures Count(Removed(cmd, reply), x) == Count(Delivered(cmd, reply), x) + Count(Withheld(cmd, reply), x)
    ensures |Removed(cmd, reply)| <= 1
  {
    CountConcat(Delivered(cmd, reply), Withheld(cmd, reply), x);
  }

  /** RPOPLPUSH pops before it looks at its destination. */
  predicate Misdirected(m: Keys, cmd: Cmd) {
    && cmd.RPopLPush?
    && cmd.src in m && m[cmd.src].Lst? && m[cmd.src].elems != []
    && cmd.dst in m && !m[cmd.dst].Lst?
  }

  function Lost(m: Keys, cmd: Cmd): seq<Bytes> {
    if Misdirected(m, cmd) then [Taken(Right, m[cmd.src].elems)] else []
  }

  lemma PushLedger(m: Keys, end: End, key: Bytes, vals: seq<Bytes>, x: Bytes)
    ensures var (m1, r) := DoPush(m, end, key, vals);
      Total(m1, x) == Total(m, x) + Count(Accepted(Push(end, key, vals), r), x)
  {
    if vals != [] && (key in m ==> m[key].Lst?) {
      var before := if key in m then m[key].elems else [];
      TotalWithout(m, key, x);
      TotalSet(m, key, Lst(Pushed(end == Left, before, vals)), x);
      CountConcat(before, vals, x);
      CountConcat(Reverse(vals), before, x);
      CountReverse(vals, x);
    }
  }

  lemma PopLedger(m: Keys, end: End, key: Bytes, x: Bytes)
    ensures var (m1, r) := DoPop(m, end, key);
      Total(m1, x) + Count(Removed(Pop(end, key), r), x) == Total(m, x)
  {
    TotalWithout(m, key, x);
    if key in m && m[key].Lst? && m[key].elems != [] {
      TakenAndRest(end, m[key].elems, x);
      TotalStore(m, key, Rest(end, m[key].elems), x);
    }
  }

  lemma BPopLedger(m: Keys, arr: seq<Item>, end: End, keys: seq<Bytes>, x: Bytes)
    ensures var out := DoBPop(m, arr, end, keys);
      && (out.ret.Filled? ==>
            HoldsPop(out.arr) &&
            Total(out.keys, x) + Count([out.arr[1].elem], x) == Total(m, x))
      && (!out.ret.Filled? ==> Total(out.keys, x) == Total(m, x))
  {
    var i := FirstPresent(m, keys);
    if keys != [] && i < |keys| && m[keys[i]].Lst? {
      var s := m[keys[i]].elems;
      TotalWithout(m, keys[i], x);
      if s == [] {
        TotalWithout(m, keys[0], x);
      } else {
        TakenAndRest(end, s, x);
        var m1 := m[keys[i] := Lst(Rest(end, s))];
        TotalSet(m, keys[i], Lst(Rest(end, s)), x);
        TotalWithout(m1, keys[0], x);
      }
    }
  }

  lemma RPopLPushLedger(m: Keys, src: Bytes, dst: Bytes, x: Bytes)
    ensures var (m1, r) := DoRPopLPush(m, src, dst);
      Total(m1, x) + Count(Lost(m, RPopLPush(src, dst)), x) == Total(m, x)
  {
    TotalWithout(m, src, x);
    if src in m && m[src].Lst? && m[src].elems != [] {
      var s := m[src].elems;
      var y, m1 := Taken(Right, s), Store(m, src, Rest(Right, s));
      TakenAndRest(Right, s, x);
      TotalStore(m, src, Rest(Right, s), x);
      PutLedger(m1, dst, y, x);
    }
  }

  lemma PutLedger(m: Keys, dst: Bytes, y: Bytes, x: Bytes)
    ensures dst !in m ==> Total(m[dst := Lst([y])], x) == Total(m, x) + Count([y], x)
    ensures dst in m && m[dst].Lst? ==> Total(m[dst := Lst([y] + m[dst].elems)], x) == Total(m, x) + Count([y], x)
  {
    TotalWithout(m, dst, x);
    if dst !in m {
      TotalSet(m, dst, Lst([y]), x);
    } else if m[dst].Lst? {
      TotalSet(m, dst, Lst([y] + m[dst].elems), x);
      CountConcat([y], m[dst].elems, x);
    }
  }

  /** RPOPLPUSH keeps every element exactly when its destination is not a key of
      another type, or there is nothing to move. */
  lemma RPopLPushConserves(m: Keys, src: Bytes, dst: Bytes)
    ensures (forall x :: Total(DoRPopLPush(m, src, dst).0, x) == Total(m, x)) <==> !Misdirected(m, RPopLPush(src, dst))
  {
    forall x ensures Total(DoRPopLPush(m, src, dst).0, x) + Count(Lost(m, RPopLPush(src, dst)), x) == Total(m, x) {
      RPopLPushLedger(m, src, dst, x);
    }
    if Misdirected(m, RPopLPush(src, dst)) {
      var y := Taken(Right, m[src].elems);
      assert Count([y], y) == 1;
      assert Total(DoRPopLPush(m, src, dst).0, y) != Total(m, y);
    }
  }

  /** SET d t, RPUSH s x, RPOPLPUSH s d: the element is in no list any more. */
  lemma MoveCanLose(d: Bytes, t: Bytes, s: Bytes, x: Bytes, clock: Clock)
    requires d != s
    ensures var events := [Request(0, Set(d, t)), Request(0, Push(Right, s, [x])), Request(0, RPopLPush(s, d))];
      var (sv, log) := Run(START, events, clock);
      |log| == 3 && log[2].reply == WrongType && sv.keys == map[d := Str(t)]
  {
    var e1, e2, e3 := Request(0, Set(d, t)), Request(0, Push(Right, s, [x])), Request(0, RPopLPush(s, d));
    assert Pushed(false, [], [x]) == [x];
    ShortRuns(START, e1, e2, e3, clock);
    assert Step(START, e1, clock).0.keys == map[d := Str(t)];
    assert map[d := Str(t), s := Lst([x])] - {s} == map[d := Str(t)];
  }

  // ---- the ledger of a run --------------------------------------------------

  function AllAccepted(log: seq<Answer>): seq<Bytes> {
    if log == [] then [] else Accepted(log[0].cmd, log[0].reply) + AllAccepted(log[1..])
  }

  function AllDelivered(log: seq<Answer>): seq<Bytes> {
    if log == [] then [] else Delivered(log[0].cmd, log[0].reply) + AllDelivered(log[1..])
  }

  function AllWithheld(log: seq<Answer>): seq<Bytes> {
    if log == [] then [] else Withheld(log[0].cmd, log[0].reply) + AllWithheld(log[1..])
  }

  /** How often x was taken out of the store, delivered or not. */
  function Gone(log: seq<Answer>, x: Bytes): nat {
    Count(AllDelivered(log), x) + Count(AllWithheld(log), x)
  }

  function AllLost(sv: Server, events: seq<Event>, clock: Clock): seq<Bytes>
    decreases |events|
  {
    if events == [] then []
    else
      (if events[0].Request? then Lost(sv.keys, events[0].cmd) else [])
      + AllLost(Step(sv, events[0], clock).0, events[1..], clock)
  }

  /** Only pops wait, and only commands that move elements arrive. */
  predicate OnlyPopsWait(actions: seq<Action>) {
    forall a <- actions :: a.cmd.BPop?
  }

  predicate OnlyMoves(events: seq<Event>) {
    forall e <- events :: e.Request? ==> Moves(e.cmd)
  }

  lemma {:induction false} AcceptedConcat(a: seq<Answer>, b: seq<Answer>, x: Bytes)
    ensures Count(AllAccepted(a + b), x) == Count(AllAccepted(a), x) + Count(AllAccepted(b), x)
  {
    if a == [] {
      assert a + b == b;
    } else {
      assert (a + b)[1..] == a[1..] + b;
      AcceptedConcat(a[1..], b, x);
      CountConcat(Accepted(a[0].cmd, a[0].reply), AllAccepted(a[1..]), x);
      CountConcat(Accepted(a[0].cmd, a[0].reply), AllAccepted((a + b)[1..]), x);
    }
  }

  lemma {:induction false} GoneConcat(a: seq<Answer>, b: seq<Answer>, x: Bytes)
    ensures Gone(a + b, x) == Gone(a, x) + Gone(b, x)
  {
    if a == [] {
      assert a + b == b;
    } else {
      assert (a + b)[0] == a[0] && (a + b)[1..] == a[1..] + b;
      GoneConcat(a[1..], b, x);
      GoneOneMore(a[0], a[1..], x);
      GoneOneMore(a[0], (a + b)[1..], x);
      assert a == [a[0]] + a[1..] && a + b == [a[0]] + (a + b)[1..];
    }
  }

  lemma GoneOneMore(a: Answer, rest: seq<Answer>, x: Bytes)
    ensures Gone([a] + rest, x) == Count(Removed(a.cmd, a.reply), x) + Gone(rest, x)
  {
    assert ([a] + rest)[1..] == rest;
    CountConcat(Delivered(a.cmd, a.reply), AllDelivered(rest), x);
    CountConcat(Withheld(a.cmd, a.reply), AllWithheld(rest), x);
    RemovedCount(a.cmd, a.reply, x);
  }

  lemma ExecLedger(m: Keys, arr: seq<Item>, cmd: Cmd, x: Bytes)
    requires Moves(cmd) && !cmd.BPop?
    ensures var out := Exec(m, arr, cmd);
      Total(out.keys, x) + Count(Removed(cmd, out.ret.reply), x) + Count(Lost(m, cmd), x)
      == Total(m, x) + Count(Accepted(cmd, out.ret.reply), x)
  {
    match cmd {
      case Push(end, key, vals) => PushLedger(m, end, key, vals, x);
      case Pop(end, key) => PopLedger(m, end, key, x);
      case RPopLPush(src, dst) => RPopLPushLedger(m, src, dst, x);
      case LRange(_, _, _) =>
    }
  }

  lemma ReceiveLedger(sv: Server, client: nat, cmd: Cmd, clock: Clock, x: Bytes)
    requires Moves(cmd) && OnlyPopsWait(sv.pending)
    ensures var (sv1, sent) := Receive(sv, client, cmd, clock);
      && OnlyPopsWait(sv1.pending)
      && Total(sv1.keys, x) + Gone(sent, x) + Count(Lost(sv.keys, cmd), x)
         == Total(sv.keys, x) + Count(AllAccepted(sent), x)
  {
    var (sv1, sent) := Receive(sv, client, cmd, clock);
    if sent != [] { LogOne(sent[0], x); }
    if cmd.BPop? {
      BPopReceived(sv, client, cmd, clock, x);
    } else {
      ExecLedger(sv.keys, sv.arr, cmd, x);
    }
  }

  lemma BPopReceived(sv: Server, client: nat, cmd: Cmd, clock: Clock, x: Bytes)
    requires cmd.BPop? && OnlyPopsWait(sv.pending)
    ensures var (sv1, sent) := Receive(sv, client, cmd, clock);
      && OnlyPopsWait(sv1.pending) && |sent| <= 1
      && Total(sv1.keys, x) + (if sent == [] then 0 else Count(Removed(cmd, sent[0].reply), x)) == Total(sv.keys, x)
  {
    BPopLedger(sv.keys, sv.arr, cmd.end, cmd.keys, x);
    var (sv1, sent) := Receive(sv, client, cmd, clock);
    if sent != [] && Seconds(cmd.timeout).Some? { RemovedByPop(cmd, DoBPop(sv.keys, sv.arr, cmd.end, cmd.keys)); }
  }

  /** What the reply of a blocking pop removes, if it is built from a filled array or not. */
  lemma RemovedByPop(cmd: Cmd, out: Outcome)
    requires cmd.BPop?
    ensures Removed(cmd, BlockingReply(out.ret, out.arr)) == if out.ret.Filled? then Popped(out.arr) else []
  {
  }

  lemma LogOne(a: Answer, x: Bytes)
    ensures AllAccepted([a]) == Accepted(a.cmd, a.reply)
    ensures Gone([a], x) == Count(Removed(a.cmd, a.reply), x)
  {
    assert [a][1..] == [] && [a] + [] == [a];
    GoneOneMore(a, [], x);
  }

  /** An action that is due takes nothing out of the store. */
  lemma DueRemovesNothing(m: Keys, arr: seq<Item>, a: Action, now: Micros)
    requires a.cmd.BPop? && Expired(a, now)
    ensures var (m1, _, done) := Visit(m, arr, a, now);
      m1 == m && done.Some? && Removed(a.cmd, done.value) == []
  {
    var arr1 := Timed([NilItem], now - a.since);
    assert arr1[1] == Elapsed(now - a.since);
    RemovedByPop(a.cmd, Outcome(m, arr1, Filled));
  }

  /** An action that is not due takes what its command takes. */
  lemma VisitRemoves(m: Keys, arr: seq<Item>, a: Action, now: Micros)
    requires a.cmd.BPop? && !Expired(a, now)
    ensures var (m1, _, done) := Visit(m, arr, a, now);
      var out := Exec(m, arr, a.cmd);
      && m1 == out.keys && (done.None? <==> out.ret.Blocked?)
      && (done.Some? && (out.ret.Filled? ==> HoldsPop(out.arr)) ==>
            Removed(a.cmd, done.value) == if out.ret.Filled? then Popped(out.arr) else [])
  {
    hide Removed, TickReply, Timed, HoldsPop;
    var out := Exec(m, arr, a.cmd);
    if out.ret.Filled? ==> HoldsPop(out.arr) { RemovedByTick(a.cmd, out, now - a.since); }
  }

  lemma VisitLedger(m: Keys, arr: seq<Item>, a: Action, now: Micros, x: Bytes)
    requires a.cmd.BPop?
    ensures var (m1, _, done) := Visit(m, arr, a, now);
      Total(m1, x) + (if done.Some? then Count(Removed(a.cmd, done.value), x) else 0) == Total(m, x)
  {
    if Expired(a, now) {
      DueRemovesNothing(m, arr, a, now);
    } else {
      VisitRemoves(m, arr, a, now);
      BPopLedger(m, arr, a.cmd.end, a.cmd.keys, x);
    }
  }

  lemma RemovedByTick(cmd: Cmd, out: Outcome, us: int)
    requires cmd.BPop? && (out.ret.Filled? ==> HoldsPop(out.arr))
    ensures Removed(cmd, TickReply(out.ret, out.arr, us))
         == if out.ret.Filled? then Popped(out.arr) else []
  {
    RemovedByPop(cmd, out);
    RemovedByPop(cmd, out.(arr := Timed(out.arr, us)));
  }

  lemma {:induction false} SweepLedger(m: Keys, arr: seq<Item>, todo: seq<Action>,
                                      readings: nat, clock: Clock, x: Bytes)
    requires OnlyPopsWait(todo)
    ensures var s := SweepFrom(m, arr, todo, readings, clock);
      && OnlyPopsWait(s.left)
      && Total(s.keys, x) + Gone(s.answers, x) == Total(m, x)
      && AllAccepted(s.answers) == []
    decreases |todo|
  {
    if todo != [] {
      var a := todo[0];
      var (m1, arr1, done) := Visit(m, arr, a, clock(readings));
      VisitLedger(m, arr, a, clock(readings), x);
      SweepLedger(m1, arr1, todo[1..], readings + 1, clock, x);
      var rest := SweepFrom(m1, arr1, todo[1..], readings + 1, clock);
      if done.Some? {
        var s := SweepFrom(m, arr, todo, readings, clock);
        assert s.answers == [s.answers[0]] + rest.answers;
        GoneOneMore(s.answers[0], rest.answers, x);
      }
    }
  }

  /** Conservation over whole runs, element by element: what is in the lists at the end, plus
      what was delivered, plus what was taken off for replies too long to be sent, plus what
      misdirected moves lost, is what was in the lists at the start plus what was pushed. */
  lemma {:induction false} RunConserves(sv: Server, events: seq<Event>, clock: Clock, x: Bytes)
    requires OnlyPopsWait(sv.pending) && OnlyMoves(events)
    ensures var (sv1, log) := Run(sv, events, clock);
      && OnlyPopsWait(sv1.pending)
      && Total(sv1.keys, x) + Count(AllDelivered(log), x) + Count(AllWithheld(log), x)
         + Count(AllLost(sv, events, clock), x)
         == Total(sv.keys, x) + Count(AllAccepted(log), x)
    decreases |events|
  {
    if events != [] {
      var e := events[0];
      var (svm, sent) := Step(sv, e, clock);
      var (sv1, later) := Run(svm, events[1..], clock);
      match e {
        case Tick => SweepLedger(sv.keys, sv.arr, sv.pending, sv.readings, clock, x);
        case Request(client, cmd) => ReceiveLedger(sv, client, cmd, clock, x);
      }
      RunConserves(svm, events[1..], clock, x);
      AcceptedConcat(sent, later, x);
      GoneConcat(sent, later, x);
      CountConcat(if e.Request? then Lost(sv.keys, e.cmd) else [], AllLost(svm, events[1..], clock), x);
    }
  }

  /** Nothing is missing in the end exactly if no reply withheld an element and no move was
      misdirected. */
  lemma RunLosesNothing(sv: Server, events: seq<Event>, clock: Clock)
    requires OnlyPopsWait(sv.pending) && OnlyMoves(events)
    ensures var (sv1, log) := Run(sv, events, clock);
      (forall x :: Total(sv1.keys, x) + Count(AllDelivered(log), x) == Total(sv.keys, x) + Count(AllAccepted(log), x))
      <==> AllWithheld(log) == [] && AllLost(sv, events, clock) == []
  {
    var withheld, lost := AllWithheld(Run(sv, events, clock).1), AllLost(sv, events, clock);
    if withheld != [] {
      RunConserves(sv, events, clock, withheld[0]);
      assert Count(withheld, withheld[0]) > 0;
    } else if lost != [] {
      RunConserves(sv, events, clock, lost[0]);
      assert Count(lost, lost[0]) > 0;
    } else {
      forall x { RunConserves(sv, events, clock, x); }
    }
  }

  // ---- when a pop delivers ----------------------------------------------------

  /** The first of the keys that exists holds a list with elements. */
  predicate Finds(m: Keys, keys: seq<Bytes>) {
    var i := FirstPresent(m, keys);
    i < |keys| && m[keys[i]].Lst? && m[keys[i]].elems != []
  }

  function Found(m: Keys, end: End, keys: seq<Bytes>): Bytes
    requires Finds(m, keys)
  {
    Taken(end, m[keys[FirstPresent(m, keys)]].elems)
  }

  /** The array of a blocking pop can be sent if key and element leave room for two types, two
      lengths and the end marker. */
  lemma PopRoom(key: Bytes, elem: Bytes)
    ensures FitsReply([KeyItem(key), PopItem(elem)]) <==> |key| + |elem| + 11 <= ReplyCodec.MAX_RPLY_SIZE
  {
    var items := [KeyItem(key), PopItem(elem)];
    assert !ReplyCodec.IsNil(24);
    var es := Elems(items);
    assert es[1..] == [ElemOf(items[1])] && es[1..][1..] == [];
    assert ReplyCodec.Room(es[1..]) == |elem| + 5;
    assert ReplyCodec.Room(es) == |key| + 5 + ReplyCodec.Room(es[1..]);
  }

  lemma {:induction false} RoomGrows(es: seq<ReplyCodec.Elem>, e: ReplyCodec.Elem)
    ensures ReplyCodec.Room(es) <= ReplyCodec.Room(es + [e])
  {
    if es != [] {
      assert (es + [e])[1..] == es[1..] + [e];
      RoomGrows(es[1..], e);
    }
  }

  lemma {:induction false} ElemsOneMore(items: seq<Item>, x: Item)
    ensures Elems(items + [x]) == Elems(items) + [ElemOf(x)]
  {
  }

  /** A blocking pop that finds an element delivers it exactly if the name of the first key and
      the element fit in a reply; otherwise the element is gone all the same. */
  lemma BPopDelivers(sv: Server, client: nat, cmd: Cmd, clock: Clock)
    requires cmd.BPop? && Seconds(cmd.timeout).Some? && Finds(sv.keys, cmd.keys)
    ensures var (sv1, sent) := Receive(sv, client, cmd, clock);
      var elem := Found(sv.keys, cmd.end, cmd.keys);
      && |sent| == 1 && Removed(cmd, sent[0].reply) == [elem]
      && (Delivered(cmd, sent[0].reply) == [elem] <==> |cmd.keys[0]| + |elem| + 11 <= ReplyCodec.MAX_RPLY_SIZE)
  {
    PopRoom(cmd.keys[0], Found(sv.keys, cmd.end, cmd.keys));
  }

  /** A pending pop that a tick completes delivers its element under the same condition as a new
      one: the elapsed time, put behind the element, is left out if there is no room for it. */
  lemma VisitDelivers(m: Keys, arr: seq<Item>, a: Action, now: Micros)
    requires a.cmd.BPop? && !Expired(a, now) && Finds(m, a.cmd.keys)
    ensures var (m1, arr1, done) := Visit(m, arr, a, now);
      var elem := Found(m, a.cmd.end, a.cmd.keys);
      && done.Some? && Removed(a.cmd, done.value) == [elem]
      && (Delivered(a.cmd, done.value) == [elem] <==> |a.cmd.keys[0]| + |elem| + 11 <= ReplyCodec.MAX_RPLY_SIZE)
  {
    var elem := Found(m, a.cmd.end, a.cmd.keys);
    var items, time := [KeyItem(a.cmd.keys[0]), PopItem(elem)], Elapsed(now - a.since);
    PopRoom(a.cmd.keys[0], elem);
    ElemsOneMore(items, time);
    RoomGrows(Elems(items), ElemOf(time));
  }

  /** RPUSH b e and BLPOP k b 0 on a new server: the element leaves the list of b, and is
      sent exactly if it fits in a reply together with the name k. */
  lemma PushThenPop(b: Bytes, e: Bytes, k: Bytes, zero: Bytes, clock: Clock)
    requires b != k && Seconds(zero).Some?
    ensures var e1, e2 := Request(0, Push(Right, b, [e])), Request(1, BPop(Left, [k, b], zero));
      var (sv1, first) := Step(START, e1, clock);
      var (sv2, second) := Step(sv1, e2, clock);
      && sv2.keys == map[b := Lst([])]
      && |first| == 1 && first[0].cmd == e1.cmd && first[0].reply == Int(1)
      && |second| == 1 && second[0].cmd == e2.cmd && Removed(e2.cmd, second[0].reply) == [e]
      && (Delivered(e2.cmd, second[0].reply) == [e] <==> |k| + |e| + 11 <= ReplyCodec.MAX_RPLY_SIZE)
  {
    var sv1 := Receive(START, 0, Push(Right, b, [e]), clock).0;
    assert Pushed(false, [], [e]) == [e];
    assert sv1.keys == map[b := Lst([e])];
    FirstPresentIs(sv1.keys, [k, b], 1);
    BPopDelivers(sv1, 1, BPop(Left, [k, b], zero), clock);
  }

  /** With a name and an element that are too long together nobody is sent the element, and
      it is in no list. */
  lemma BPopCanLose(b: Bytes, e: Bytes, k: Bytes, zero: Bytes, clock: Clock)
    requires |k| == 500_000 && |e| == 600_000 && b != k && Seconds(zero).Some?
    ensures var events := [Request(0, Push(Right, b, [e])), Request(1, BPop(Left, [k, b], zero))];
      var (sv, log) := Run(START, events, clock);
      AllAccepted(log) == [e] && AllDelivered(log) == [] && AllWithheld(log) == [e] && Total(sv.keys, e) == 0
  {
    var e1, e2 := Request(0, Push(Right, b, [e])), Request(1, BPop(Left, [k, b], zero));
    PushThenPop(b, e, k, zero, clock);
    ShortRuns(START, e1, e2, Tick, clock);
    var (sv1, first) := Step(START, e1, clock);
    var (sv2, second) := Step(sv1, e2, clock);
    TwoAnswers(first[0], second[0]);
    assert first + second == [first[0], second[0]];
    TotalSet(START.keys, b, Lst([]), e);
    assert START.keys - {b} == START.keys && START.keys[b := Lst([])] == sv2.keys;
  }

  lemma TwoAnswers(a: Answer, b: Answer)
    ensures AllAccepted([a, b]) == Accepted(a.cmd, a.reply) + Accepted(b.cmd, b.reply)
    ensures AllDelivered([a, b]) == Delivered(a.cmd, a.reply) + Delivered(b.cmd, b.reply)
    ensures AllWithheld([a, b]) == Withheld(a.cmd, a.reply) + Withheld(b.cmd, b.reply)
  {
    assert [a, b][1..] == [b] && [b][1..] == [];
    assert AllAccepted([b]) == Accepted(b.cmd, b.reply) + [];
    assert AllDelivered([b]) == Delivered(b.cmd, b.reply) + [];
    assert AllWithheld([b]) == Withheld(b.cmd, b.reply) + [];
  }
}
