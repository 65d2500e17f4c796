/** The errors of blocking commands: what is sent in their place. */
module StaleReplies {
  import opened Bytes
  import opened Decimals
  import opened ListSpec
  import opened Machine
  import opened Elements
  import ReplyArrays
  import ReplyCodec
  import opened Safety
  import opened Wakeups

  /** BLPOP and BRPOP reply with an error: too few arguments, or a key of another type. */
  predicate Refused(m: Keys, keys: seq<Bytes>) {
    keys == [] || (var i := FirstPresent(m, keys); i < |keys| && !m[keys[i]].Lst?)
  }

  predicate IsStale(r: Reply) {
    r.Stale? || r.StaleUnsent? || r.Garbled?
  }

  /** The reply array left behind, or the header of the error over part of it if it cannot be
      sent. */
  function StaleReply(arr: seq<Item>): Reply {
    if FitsReply(arr) then Stale(arr) else StaleUnsent(arr)
  }

  /** A blocking command with a good timeout is answered with the reply array that an
      earlier command left behind exactly when it is refused. */
  lemma RefusedPopShowsStale(sv: Server, client: nat, cmd: Cmd, clock: Clock)
    requires cmd.BPop? && Seconds(cmd.timeout).Some? && NoEmptyList(sv.keys)
    ensures var (sv1, sent) := Receive(sv, client, cmd, clock);
      && ((sent != [] && IsStale(sent[0].reply)) <==> Refused(sv.keys, cmd.keys))
      && (Refused(sv.keys, cmd.keys) ==>
            sent == [Answer(sv.issued, client, cmd, StaleReply(sv.arr))] && sv1 == sv.(issued := sv.issued + 1))
  {
  }

  /** What a refused command hands back, and what it leaves. */
  lemma RefusedReturns(m: Keys, arr: seq<Item>, cmd: Cmd)
    requires cmd.BPop? && NoEmptyList(m)
    ensures var out := Exec(m, arr, cmd);
      && (Refused(m, cmd.keys) <==> out.ret.Replied?)
      && (out.ret.Replied? ==> out.ret.reply != Crash && out.keys == m && out.arr == arr)
      && (out.ret.Filled? ==> HoldsPop(out.arr))
  {
    var i := FirstPresent(m, cmd.keys);
    if i < |cmd.keys| && m[cmd.keys[i]].Lst? { assert m[cmd.keys[i]].elems != []; }
  }

  /** A pending action that is not due is answered with the reply array left behind exactly when
      it is refused. The elapsed time is put behind if there is room, and any time in the array
      becomes that one. */
  lemma RefusedVisitShowsStale(m: Keys, arr: seq<Item>, a: Action, now: Micros)
    requires a.cmd.BPop? && !Expired(a, now) && NoEmptyList(m)
    ensures var (m1, arr1, done) := Visit(m, arr, a, now);
      var us := now - a.since;
      && ((done.Some? && IsStale(done.value)) <==> Refused(m, a.cmd.keys))
      && (Refused(m, a.cmd.keys) ==>
            m1 == m && arr1 == Timed(arr, us) && done == Some(
              if FitsReply(arr1) then Stale(arr1)
              else if Retimed(arr, us) == arr then StaleReply(arr)
              else Garbled(arr, Retimed(arr, us))))
  {
    hide Exec, Refused, FitsReply, Timed, Retimed, HoldsPop;
    RefusedReturns(m, arr, a.cmd);
  }

  lemma TwoTimesFit(t1: Micros, now1: Micros, t2: Micros, now2: Micros)
    ensures FitsReply([NilItem, Elapsed(now1 - t1)])
    ensures FitsReply([NilItem, Elapsed(now2 - t2), Elapsed(now2 - t2)])
  {
    TimeFits(t1, now1);
    TimeTextShort(t2, now2);
    var items := [NilItem, Elapsed(now2 - t2), Elapsed(now2 - t2)];
    var es := Elems(items);
    assert es[1..] == [ElemOf(items[1]), ElemOf(items[2])] && es[1..][1..] == [ElemOf(items[2])];
    assert es[1..][1..][1..] == [];
    assert ReplyCodec.Room(es[1..][1..]) <= 26 + 5;
    assert ReplyCodec.Room(es[1..]) <= 26 + 5 + ReplyCodec.Room(es[1..][1..]);
    assert ReplyCodec.IsNil(9) && ReplyCodec.Room(es) == 1 + ReplyCodec.Room(es[1..]);
  }

  /** A tick in which one request times out and the next one is refused: the second client is
      sent nil and its own elapsed time twice, because the time that the first client was told
      stands in the array and has become that of the second. */
  lemma TimeIsShared(sv: Server, a: Action, b: Action, clock: Clock)
    requires sv.pending == [a, b] && Expired(a, clock(sv.readings)) && !Expired(b, clock(sv.readings + 1))
    requires b.cmd.BPop? && Refused(sv.keys, b.cmd.keys) && NoEmptyList(sv.keys)
    ensures var t1, t2 := clock(sv.readings) - a.since, clock(sv.readings + 1) - b.since;
      DoTick(sv, clock).1 == [
        Answer(a.id, a.client, a.cmd, Arr([NilItem, Elapsed(t1)])),
        Answer(b.id, b.client, b.cmd, Stale([NilItem, Elapsed(t2), Elapsed(t2)]))]
  {
    hide Visit, SweepFrom, Refused;
    var now1, now2 := clock(sv.readings), clock(sv.readings + 1);
    ExpiredVisit(sv.keys, sv.arr, a, now1);
    RefusedAfterTime(sv.keys, a.since, now1, b, now2);
    SweepTwo(sv.keys, sv.arr, a, b, sv.readings, clock);
  }

  lemma ExpiredVisit(m: Keys, arr: seq<Item>, a: Action, now: Micros)
    requires Expired(a, now)
    ensures var items := [NilItem, Elapsed(now - a.since)];
      Visit(m, arr, a, now) == (m, items, Some(Arr(items)))
  {
    TimeFits(a.since, now);
    assert Timed([NilItem], now - a.since) == [NilItem, Elapsed(now - a.since)];
  }

  lemma RefusedAfterTime(m: Keys, since1: Micros, now1: Micros, b: Action, now2: Micros)
    requires !Expired(b, now2)
    requires b.cmd.BPop? && Refused(m, b.cmd.keys) && NoEmptyList(m)
    ensures var t1, t2 := now1 - since1, now2 - b.since;
      Visit(m, [NilItem, Elapsed(t1)], b, now2).2 == Some(Stale([NilItem, Elapsed(t2), Elapsed(t2)]))
  {
    TwoTimesFit(since1, now1, b.since, now2);
    var t1, t2 := now1 - since1, now2 - b.since;
    RefusedVisitShowsStale(m, [NilItem, Elapsed(t1)], b, now2);
    assert Timed([NilItem, Elapsed(t1)], t2) == [NilItem, Elapsed(t2), Elapsed(t2)];
  }

  /** A sweep over two actions that are both answered. */
  lemma SweepTwo(m: Keys, arr: seq<Item>, a: Action, b: Action, readings: nat, clock: Clock)
    ensures var (m1, arr1, done1) := Visit(m, arr, a, clock(readings));
      var (m2, arr2, done2) := Visit(m1, arr1, b, clock(readings + 1));
      done1.Some? && done2.Some? ==>
        SweepFrom(m, arr, [a, b], readings, clock).answers == [
          Answer(a.id, a.client, a.cmd, done1.value), Answer(b.id, b.client, b.cmd, done2.value)]
  {
    hide Visit;
    var (m1, arr1, _) := Visit(m, arr, a, clock(readings));
    var (m2, arr2, _) := Visit(m1, arr1, b, clock(readings + 1));
    assert [a, b][1..] == [b] && [b][1..] == [];
    assert SweepFrom(m2, arr2, [], readings + 2, clock).answers == [];
  }

  /** The commands that leave the reply array alone, refused timeouts included. */
  predicate Quiet(e: Event) {
    e.Request? && !e.cmd.LRange? && (e.cmd.BPop? ==> Seconds(e.cmd.timeout).None?)
  }

  lemma QuietStep(sv: Server, e: Event, clock: Clock)
    requires Quiet(e)
    ensures Step(sv, e, clock).0.arr == sv.arr
  {
    if !e.cmd.BPop? { assert Exec(sv.keys, sv.arr, e.cmd).arr == sv.arr; }
  }

  lemma {:induction false} QuietRun(sv: Server, events: seq<Event>, clock: Clock)
    requires forall e <- events :: Quiet(e)
    ensures Run(sv, events, clock).0.arr == sv.arr
    decreases |events|
  {
    if events != [] {
      QuietStep(sv, events[0], clock);
      QuietRun(Step(sv, events[0], clock).0, events[1..], clock);
    }
  }

  /** The range that one client asked for is what another client's refused
      pop is answered with, whatever quiet requests came between. */
  lemma RefusedPopShowsRange(sv: Server, reader: nat, range: Cmd, quiet: seq<Event>,
                             popper: nat, pop: Cmd, clock: Clock)
      returns (shown: seq<Item>)
    requires range.LRange? && Parse(range.first).Some? && Parse(range.last).Some?
    requires range.key in sv.keys && sv.keys[range.key].Lst? && forall e <- quiet :: Quiet(e)
    requires pop.BPop? && Seconds(pop.timeout).Some?
    requires var before := Run(sv, [Request(reader, range)] + quiet, clock).0;
      NoEmptyList(before.keys) && Refused(before.keys, pop.keys)
    ensures var first, last := Parse(range.first).value, Parse(range.last).value;
      shown == ReplyArrays.AddAll([], Vals(Range(sv.keys[range.key].elems, first, last)))
    ensures var log := Run(sv, [Request(reader, range)] + quiet + [Request(popper, pop)], clock).1;
      && |log| >= 2 && log[0].client == reader && log[0].reply == ArrReply(shown)
      && log[|log| - 1].client == popper && log[|log| - 1].reply == StaleReply(shown)
  {
    var events := [Request(reader, range)] + quiet;
    var (svm, first) := Step(sv, events[0], clock);
    shown := svm.arr;
    assert events[1..] == quiet;
    QuietRun(svm, quiet, clock);
    var (before, log) := Run(sv, events, clock);
    RefusedPopShowsStale(before, popper, pop, clock);
    RunThen(sv, events, Request(popper, pop), clock);
  }
}
