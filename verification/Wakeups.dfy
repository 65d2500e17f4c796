/** Whom a tick serves: a request that waits goes on waiting only if nothing could be
    done for it, and the elements of a key go to the newest requests first. */
module Wakeups {
  import opened Bytes
  import opened Machine
  import opened ReplyArrays
  import ReplyCodec
  import opened Elements

  /** A request whose time is up is told nil and the time, and takes nothing. */
  lemma TimeoutTakesNothing(m: Keys, arr: seq<Item>, a: Action, now: Micros)
    ensures Expired(a, now) ==>
      var (m1, _, done) := Visit(m, arr, a, now);
      m1 == m && done == Some(Arr([NilItem, Elapsed(now - a.since)])) && Removed(a.cmd, done.value) == []
  {
    assert Timed([NilItem], now - a.since) == [NilItem, Elapsed(now - a.since)];
    TimeFits(a.since, now);
  }

  /** There is always room for nil and the elapsed time. */
  lemma TimeFits(since: Micros, now: Micros)
    ensures FitsReply([NilItem, Elapsed(now - since)])
  {
    TimeTextShort(since, now);
    var items := [NilItem, Elapsed(now - since)];
    var es := Elems(items);
    assert es[1..] == [ElemOf(items[1])] && es[1..][1..] == [];
    assert ReplyCodec.Room(es[1..]) <= 26 + 5;
    assert ReplyCodec.IsNil(9) && ReplyCodec.Room(es) == 1 + ReplyCodec.Room(es[1..]);
  }

  // ---- who goes on waiting ------------------------------------------------------

  /** The key space that the visit to the j-th action of a sweep meets. */
  function KeysAt(m: Keys, arr: seq<Item>, todo: seq<Action>, readings: nat, clock: Clock, j: nat): Keys
    requires j <= |todo|
    decreases j
  {
    if j == 0 then m
    else
      var (m1, arr1, _) := Visit(m, arr, todo[0], clock(readings));
      KeysAt(m1, arr1, todo[1..], readings + 1, clock, j - 1)
  }

  /** Nothing can be done for the action: it is not due and all its keys are absent. */
  predicate MustWait(a: Action, m: Keys, now: Micros) {
    a.cmd.BPop? && a.cmd.keys != [] && !Expired(a, now) && forall k <- a.cmd.keys :: k !in m
  }

  /** left is what todo holds at the places named. */
  ghost predicate Places<T>(todo: seq<T>, left: seq<T>, at: seq<nat>) {
    && |at| == |left|
    && (forall i :: 0 <= i < |at| ==> at[i] < |todo| && left[i] == todo[at[i]])
    && (forall i, j :: 0 <= i < j < |at| ==> at[i] < at[j])
  }

  /** The actions left by a sweep are those at the places named, and these are the ones
      for which nothing could be done when they were visited. */
  ghost predicate Stay(m: Keys, arr: seq<Item>, todo: seq<Action>, readings: nat, clock: Clock,
                       left: seq<Action>, at: seq<nat>) {
    && Places(todo, left, at)
    && (forall j: nat :: j < |todo| ==>
          (j in at <==> MustWait(todo[j], KeysAt(m, arr, todo, readings, clock, j), clock(readings + j))))
  }

  lemma VisitStays(m: Keys, arr: seq<Item>, a: Action, now: Micros)
    requires a.cmd.BPop?
    ensures Visit(m, arr, a, now).2.None? <==> MustWait(a, m, now)
  {
    var i := FirstPresent(m, a.cmd.keys);
    if i < |a.cmd.keys| { assert a.cmd.keys[i] in a.cmd.keys; }
  }

  lemma {:induction false} SweepStays(m: Keys, arr: seq<Item>, todo: seq<Action>, readings: nat, clock: Clock)
      returns (at: seq<nat>)
    requires OnlyPopsWait(todo)
    ensures Stay(m, arr, todo, readings, clock, SweepFrom(m, arr, todo, readings, clock).left, at)
    decreases |todo|
  {
    if todo == [] {
      at := [];
    } else {
      var a, tail := todo[0], todo[1..];
      var (m1, arr1, done) := Visit(m, arr, a, clock(readings));
      var rest := SweepFrom(m1, arr1, tail, readings + 1, clock);
      var later := SweepStays(m1, arr1, tail, readings + 1, clock);
      VisitStays(m, arr, a, clock(readings));
      at := OneMore(m, arr, todo, readings, clock, rest.left, later);
      assert SweepFrom(m, arr, todo, readings, clock).left == (if done.None? then [a] else []) + rest.left;
    }
  }

  /** The places one further on. */
  function Shifted(at: seq<nat>): (r: seq<nat>)
    ensures |r| == |at| && forall i :: 0 <= i < |at| ==> r[i] == at[i] + 1
  {
    seq(|at|, i requires 0 <= i < |at| => at[i] + 1)
  }

  lemma InShifted(at: seq<nat>, j: nat)
    ensures j in Shifted(at) <==> j > 0 && j - 1 in at
  {
    if j in Shifted(at) {
      var i :| 0 <= i < |at| && Shifted(at)[i] == j;
      assert at[i] == j - 1;
    }
    if j > 0 && j - 1 in at {
      var i :| 0 <= i < |at| && at[i] == j - 1;
      assert Shifted(at)[i] == j;
    }
  }

  lemma OnePlaceMore<T>(todo: seq<T>, left: seq<T>, later: seq<nat>)
    requires todo != [] && Places(todo[1..], left, later)
    ensures Places(todo, left, Shifted(later)) && Places(todo, [todo[0]] + left, [0] + Shifted(later))
  {
  }

  /** From the places in the rest of the list to those in the whole list. */
  lemma OneMore(m: Keys, arr: seq<Item>, todo: seq<Action>, readings: nat, clock: Clock,
                left: seq<Action>, later: seq<nat>)
      returns (at: seq<nat>)
    requires todo != []
    requires var (m1, arr1, _) := Visit(m, arr, todo[0], clock(readings));
      Stay(m1, arr1, todo[1..], readings + 1, clock, left, later)
    ensures var waits := MustWait(todo[0], m, clock(readings));
      Stay(m, arr, todo, readings, clock, (if waits then [todo[0]] else []) + left, at)
  {
    OnePlaceMore(todo, left, later);
    at := if MustWait(todo[0], m, clock(readings)) then [0] + Shifted(later) else Shifted(later);
    assert [] + left == left;
    forall j: nat | j < |todo|
      ensures j in at <==> MustWait(todo[j], KeysAt(m, arr, todo, readings, clock, j), clock(readings + j))
    {
      InShifted(later, j);
      if j > 0 { MustWaitLater(m, arr, todo, readings, clock, j); }
    }
  }

  lemma MustWaitLater(m: Keys, arr: seq<Item>, todo: seq<Action>, readings: nat, clock: Clock, j: nat)
    requires 0 < j < |todo|
    ensures var (m1, arr1, _) := Visit(m, arr, todo[0], clock(readings));
      && todo[j] == todo[1..][j - 1] && readings + j == readings + 1 + (j - 1)
      && KeysAt(m, arr, todo, readings, clock, j) == KeysAt(m1, arr1, todo[1..], readings + 1, clock, j - 1)
  {
  }

  /** Nobody waits who could be served: whoever waits names only absent keys. */
  ghost predicate NobodyMissed(sv: Server) {
    OnlyPopsWait(sv.pending) && forall a, k :: a in sv.pending && k in a.cmd.keys ==> k !in sv.keys
  }

  lemma {:induction false} SweepLeavesNoWork(m: Keys, arr: seq<Item>, todo: seq<Action>, readings: nat, clock: Clock)
    requires OnlyPopsWait(todo)
    ensures var s := SweepFrom(m, arr, todo, readings, clock);
      && s.keys.Keys <= m.Keys
      && OnlyPopsWait(s.left)
      && (forall a, k :: a in s.left && k in a.cmd.keys ==> k !in s.keys)
    decreases |todo|
  {
    if todo != [] {
      var a := todo[0];
      var (m1, arr1, done) := Visit(m, arr, a, clock(readings));
      SweepLeavesNoWork(m1, arr1, todo[1..], readings + 1, clock);
      if done.None? {
        assert FirstPresent(m, a.cmd.keys) == |a.cmd.keys|;
      }
    }
  }

  /** No lost wakeup: a request goes on waiting after a tick exactly if it was not due and
      all its keys were absent when it was visited, and then they are absent after the
      tick too. */
  lemma NoLostWakeup(sv: Server, clock: Clock) returns (at: seq<nat>)
    requires OnlyPopsWait(sv.pending)
    ensures var sv1 := DoTick(sv, clock).0;
      && NobodyMissed(sv1)
      && Stay(sv.keys, sv.arr, sv.pending, sv.readings, clock, sv1.pending, at)
  {
    SweepLeavesNoWork(sv.keys, sv.arr, sv.pending, sv.readings, clock);
    at := SweepStays(sv.keys, sv.arr, sv.pending, sv.readings, clock);
  }

  lemma {:induction false} RunOnlyPops(sv: Server, events: seq<Event>, clock: Clock)
    requires OnlyPopsWait(sv.pending)
    ensures OnlyPopsWait(Run(sv, events, clock).0.pending)
    decreases |events|
  {
    if events != [] {
      if events[0].Tick? { SweepLeavesNoWork(sv.keys, sv.arr, sv.pending, sv.readings, clock); }
      RunOnlyPops(Step(sv, events[0], clock).0, events[1..], clock);
    }
  }

  /** The first event of a run, and of the same run with more to follow. */
  lemma RunFirst(sv: Server, a: seq<Event>, b: seq<Event>, clock: Clock)
      returns (svm: Server, first: seq<Answer>, tail: seq<Event>)
    requires a != []
    ensures tail == a[1..] && |tail| < |a|
    ensures Run(sv, a, clock) == (Run(svm, tail, clock).0, first + Run(svm, tail, clock).1)
    ensures Run(sv, a + b, clock) == (Run(svm, tail + b, clock).0, first + Run(svm, tail + b, clock).1)
  {
    svm, first, tail := Step(sv, a[0], clock).0, Step(sv, a[0], clock).1, a[1..];
    assert (a + b)[0] == a[0] && (a + b)[1..] == tail + b;
  }

  lemma Regroup<T>(a: seq<T>, b: seq<T>, c: seq<T>)
    ensures a + (b + c) == (a + b) + c && [] + c == c
  {
  }

  lemma {:induction false} RunConcat(sv: Server, a: seq<Event>, b: seq<Event>, clock: Clock)
    ensures var (sv1, log) := Run(sv, a, clock);
      Run(sv, a + b, clock) == (Run(sv1, b, clock).0, log + Run(sv1, b, clock).1)
    decreases |a|
  {
    if a == [] {
      assert a + b == b;
      Regroup([], [], Run(sv, b, clock).1);
    } else {
      var svm, first, tail := RunFirst(sv, a, b, clock);
      RunConcat(svm, tail, b, clock);
      var (sv1, rest) := Run(svm, tail, clock);
      Regroup(first, rest, Run(sv1, b, clock).1);
    }
  }

  /** The last event of a run. */
  lemma RunThen(sv: Server, events: seq<Event>, e: Event, clock: Clock)
    ensures var (sv1, log) := Run(sv, events, clock);
      var (sv2, sent) := Step(sv1, e, clock);
      Run(sv, events + [e], clock) == (sv2, log + sent)
  {
    RunConcat(sv, events, [e], clock);
    var (sv2, sent) := Step(Run(sv, events, clock).0, e, clock);
    assert [e][1..] == [] && sent + [] == sent;
  }

  /** After any run that ends with a tick, whoever waits is whoever had to wait at the visit of
      that tick, and nobody waits who could be served. */
  lemma RunLosesNoWakeup(sv: Server, events: seq<Event>, clock: Clock) returns (at: seq<nat>)
    requires OnlyPopsWait(sv.pending)
    ensures var before, after := Run(sv, events, clock).0, Run(sv, events + [Tick], clock).0;
      && NobodyMissed(after)
      && Stay(before.keys, before.arr, before.pending, before.readings, clock, after.pending, at)
  {
    RunOnlyPops(sv, events, clock);
    RunThen(sv, events, Tick, clock);
    at := NoLostWakeup(Run(sv, events, clock).0, clock);
  }

  // ---- who is served first --------------------------------------------------------

  /** The action waits for key k and for no other. */
  predicate WaitsFor(cmd: Cmd, k: Bytes) {
    cmd.BPop? && cmd.keys == [k]
  }

  function Waiters(actions: seq<Action>, k: Bytes): seq<Action> {
    if actions == [] then []
    else (if WaitsFor(actions[0].cmd, k) then [actions[0]] else []) + Waiters(actions[1..], k)
  }

  /** The action is not due, and k is the first of its keys that exists, or would be if it did. */
  predicate Wants(a: Action, m: Keys, now: Micros, k: Bytes) {
    && a.cmd.BPop? && !Expired(a, now)
    && var i := FirstPresent(m[k := Coll], a.cmd.keys); i < |a.cmd.keys| && a.cmd.keys[i] == k
  }

  /** The actions that want from k when a sweep visits them, in list order. */
  function Hungry(m: Keys, arr: seq<Item>, todo: seq<Action>, readings: nat, clock: Clock, k: Bytes): seq<Action>
    decreases |todo|
  {
    if todo == [] then []
    else
      var (m1, arr1, _) := Visit(m, arr, todo[0], clock(readings));
      (if Wants(todo[0], m, clock(readings), k) then [todo[0]] else [])
      + Hungry(m1, arr1, todo[1..], readings + 1, clock, k)
  }

  /** The action takes an element from k. */
  predicate TakesFrom(a: Action, m: Keys, now: Micros, k: Bytes) {
    && a.cmd.BPop? && !Expired(a, now)
    && Finds(m, a.cmd.keys) && a.cmd.keys[FirstPresent(m, a.cmd.keys)] == k
  }

  /** The answers of a sweep to those that took one. */
  function Meals(m: Keys, arr: seq<Item>, todo: seq<Action>, readings: nat, clock: Clock, k: Bytes): seq<Answer>
    decreases |todo|
  {
    if todo == [] then []
    else
      var a := todo[0];
      var (m1, arr1, done) := Visit(m, arr, a, clock(readings));
      (if TakesFrom(a, m, clock(readings), k) && done.Some? then [Answer(a.id, a.client, a.cmd, done.value)] else [])
      + Meals(m1, arr1, todo[1..], readings + 1, clock, k)
  }

  function Ids(actions: seq<Action>): (ids: seq<nat>)
    ensures |ids| == |actions| && forall i :: 0 <= i < |ids| ==> ids[i] == actions[i].id
  {
    seq(|actions|, i requires 0 <= i < |actions| => actions[i].id)
  }

  /** The requests that wait for k alone and for which an element was taken, in the order of the
      answers. */
  function Fed(log: seq<Answer>, k: Bytes): seq<nat> {
    if log == [] then []
    else
      (if WaitsFor(log[0].cmd, k) && Removed(log[0].cmd, log[0].reply) != [] then [log[0].id] else [])
      + Fed(log[1..], k)
  }

  function Supply(m: Keys, k: Bytes): nat {
    if k in m && m[k].Lst? then |m[k].elems| else 0
  }

  /** k holds a list with elements or nothing, and whoever waits for k waits for it alone. */
  ghost predicate Queueing(m: Keys, todo: seq<Action>, k: Bytes) {
    && (k in m ==> m[k].Lst? && m[k].elems != [])
    && forall a <- todo :: a.cmd.BPop? && (k in a.cmd.keys ==> a.cmd.keys == [k])
  }

  /** A pop that waits for k alone takes an element if there is one. */
  lemma PopFeeds(m: Keys, arr: seq<Item>, cmd: Cmd, k: Bytes)
    requires WaitsFor(cmd, k) && (k in m ==> m[k].Lst? && m[k].elems != [])
    ensures var out := DoBPop(m, arr, cmd.end, cmd.keys);
      if Supply(m, k) == 0 then out.ret.Blocked? && out.keys == m
      else
        out.ret.Filled? && HoldsPop(out.arr) &&
        Supply(out.keys, k) == Supply(m, k) - 1 && (k in out.keys ==> out.keys[k].Lst? && out.keys[k].elems != [])
  {
  }

  lemma VisitFeeds(m: Keys, arr: seq<Item>, a: Action, now: Micros, k: Bytes)
    requires Queueing(m, [a], k) && WaitsFor(a.cmd, k)
    ensures var (m1, _, done) := Visit(m, arr, a, now);
      && (k in m1 ==> m1[k].Lst? && m1[k].elems != [])
      && (if Expired(a, now) then
            Supply(m1, k) == Supply(m, k) && done.Some? && Removed(a.cmd, done.value) == []
          else if Supply(m, k) == 0 then
            Supply(m1, k) == 0 && done.None?
          else
            Supply(m1, k) == Supply(m, k) - 1 && done.Some? && Removed(a.cmd, done.value) != [])
  {
    if Expired(a, now) {
      DueRemovesNothing(m, arr, a, now);
    } else {
      VisitRemoves(m, arr, a, now);
      PopFeeds(m, arr, a.cmd, k);
    }
  }

  /** An action that does not wait for k alone leaves k alone. */
  lemma VisitPasses(m: Keys, arr: seq<Item>, a: Action, now: Micros, k: Bytes)
    requires Queueing(m, [a], k) && !WaitsFor(a.cmd, k)
    ensures var m1 := Visit(m, arr, a, now).0;
      (k in m1 <==> k in m) && (k in m ==> m1[k] == m[k])
  {
    assert a in [a];
    var i := FirstPresent(m, a.cmd.keys);
    if !Expired(a, now) && i < |a.cmd.keys| {
      assert a.cmd.keys[0] in a.cmd.keys && a.cmd.keys[i] in a.cmd.keys;
    }
  }

  /** A sweep that finds the given supply in k feeds as many of the hungry as that, from the
      front; the others stay as they are. */
  predicate Feeds(supply: nat, hungry: seq<Action>, s: Sweep, k: Bytes) {
    var n := Min(supply, |hungry|);
    Fed(s.answers, k) == Ids(hungry[..n]) && Waiters(s.left, k) == hungry[n..] && Supply(s.keys, k) == supply - n
  }

  /** One action in front of a sweep: it takes an element if it is hungry and there is one. */
  lemma OneMoreFed(supply: nat, supply1: nat, later: seq<Action>, rest: Sweep, s: Sweep, k: Bytes, a: Action,
                   done: Option<Reply>, hungry: bool)
    requires Feeds(supply1, later, rest, k) && s.keys == rest.keys
    requires s.left == (if done.None? then [a] else []) + rest.left
    requires s.answers == (if done.Some? then [Answer(a.id, a.client, a.cmd, done.value)] else []) + rest.answers
    requires hungry ==> WaitsFor(a.cmd, k) && (done.None? <==> supply == 0)
    requires hungry && supply > 0 ==> supply1 == supply - 1 && Removed(a.cmd, done.value) != []
    requires !hungry || supply == 0 ==> supply1 == supply
    requires !hungry && WaitsFor(a.cmd, k) ==> done.Some? && Removed(a.cmd, done.value) == []
    ensures Feeds(supply, (if hungry then [a] else []) + later, s, k)
  {
    var n := Min(supply1, |later|);
    assert [] + rest.left == rest.left && [] + rest.answers == rest.answers && [] + later == later;
    assert Fed(s.answers, k) == (if hungry && supply > 0 then [a.id] else []) + Fed(rest.answers, k);
    assert Waiters(s.left, k) == (if hungry && supply == 0 then [a] else []) + Waiters(rest.left, k);
    if hungry { OneMoreHungry(a, later, n); }
  }

  /** Where whoever waits for k waits for it alone, the others go on waiting, and the answers
      tell who was fed. */
  lemma {:induction false} SweepQueues(m: Keys, arr: seq<Item>, todo: seq<Action>, readings: nat, clock: Clock,
                                      k: Bytes)
    requires Queueing(m, todo, k)
    ensures Feeds(Supply(m, k), Hungry(m, arr, todo, readings, clock, k), SweepFrom(m, arr, todo, readings, clock), k)
    decreases |todo|
  {
    if todo != [] {
      var a, tail, now := todo[0], todo[1..], clock(readings);
      var (m1, arr1, done) := Visit(m, arr, a, now);
      WantsAlone(a, m, now, k);
      if WaitsFor(a.cmd, k) {
        VisitFeeds(m, arr, a, now, k);
      } else {
        VisitPasses(m, arr, a, now, k);
      }
      SweepQueues(m1, arr1, tail, readings + 1, clock, k);
      var rest := SweepFrom(m1, arr1, tail, readings + 1, clock);
      var later := Hungry(m1, arr1, tail, readings + 1, clock, k);
      OneMoreFed(Supply(m, k), Supply(m1, k), later, rest, SweepFrom(m, arr, todo, readings, clock), k, a, done,
                 WaitsFor(a.cmd, k) && !Expired(a, now));
    }
  }

  lemma WantsAlone(a: Action, m: Keys, now: Micros, k: Bytes)
    requires Queueing(m, [a], k)
    ensures Wants(a, m, now, k) <==> WaitsFor(a.cmd, k) && !Expired(a, now)
  {
    assert a in [a];
    var i := FirstPresent(m[k := Coll], a.cmd.keys);
    if i < |a.cmd.keys| { assert a.cmd.keys[i] in a.cmd.keys; }
  }

  // ---- any keys --------------------------------------------------------------------

  /** An action takes from k exactly if it wants to and k has an element, and then one. */
  lemma VisitTakes(m: Keys, arr: seq<Item>, a: Action, now: Micros, k: Bytes)
    requires a.cmd.BPop?
    ensures TakesFrom(a, m, now, k) <==> Wants(a, m, now, k) && Supply(m, k) > 0
    ensures var (m1, _, done) := Visit(m, arr, a, now);
      if TakesFrom(a, m, now, k) then
        Supply(m1, k) == Supply(m, k) - 1 && done.Some? && |Removed(a.cmd, done.value)| == 1
      else Supply(m1, k) == Supply(m, k)
  {
    hide BlockingReply, TickReply, Removed;
    var i := FirstPresent(m, a.cmd.keys);
    if k in m { FirstPresentIs(m[k := Coll], a.cmd.keys, i); }
    if Expired(a, now) {
      DueRemovesNothing(m, arr, a, now);
    } else {
      PopTakes(m, arr, a.cmd, k);
      VisitRemoves(m, arr, a, now);
    }
  }

  lemma PopTakes(m: Keys, arr: seq<Item>, cmd: Cmd, k: Bytes)
    requires cmd.BPop?
    ensures var out := DoBPop(m, arr, cmd.end, cmd.keys);
      if Finds(m, cmd.keys) && cmd.keys[FirstPresent(m, cmd.keys)] == k then
        out.ret.Filled? && HoldsPop(out.arr) && Supply(out.keys, k) == Supply(m, k) - 1
      else Supply(out.keys, k) == Supply(m, k) && (out.ret.Filled? ==> HoldsPop(out.arr))
  {
  }

  /** The meals of a sweep go to as many of the hungry as there are elements, from the front. */
  predicate Serves(supply: nat, hungry: seq<Action>, meals: seq<Answer>, s: Sweep, k: Bytes) {
    var n := Min(supply, |hungry|);
    && |meals| == n && (forall i :: 0 <= i < n ==> meals[i].id == hungry[i].id && meals[i].cmd == hungry[i].cmd)
    && Supply(s.keys, k) == supply - n
    && forall x <- meals :: x in s.answers && |Removed(x.cmd, x.reply)| == 1
  }

  lemma OneMoreServed(supply: nat, supply1: nat, later: seq<Action>, meals: seq<Answer>, rest: Sweep, s: Sweep,
                      k: Bytes, a: Action, meal: Answer, hungry: bool)
    requires Serves(supply1, later, meals, rest, k) && s.keys == rest.keys
    requires forall x <- rest.answers :: x in s.answers
    requires meal.id == a.id && meal.cmd == a.cmd
    requires supply1 == supply - if hungry && supply > 0 then 1 else 0
    requires hungry && supply > 0 ==> meal in s.answers && |Removed(meal.cmd, meal.reply)| == 1
    ensures Serves(supply, (if hungry then [a] else []) + later,
                   (if hungry && supply > 0 then [meal] else []) + meals, s, k)
  {
  }

  /** Of those that want from k when they are visited, whatever other keys they name, a sweep feeds
      as many as k has elements, from the front of the list. */
  lemma {:induction false} SweepFeeds(m: Keys, arr: seq<Item>, todo: seq<Action>, readings: nat, clock: Clock, k: Bytes)
    requires OnlyPopsWait(todo)
    ensures Serves(Supply(m, k), Hungry(m, arr, todo, readings, clock, k), Meals(m, arr, todo, readings, clock, k),
                   SweepFrom(m, arr, todo, readings, clock), k)
    decreases |todo|
  {
    if todo != [] {
      hide Serves, Wants, TakesFrom, Visit, Supply;
      var a, tail, now := todo[0], todo[1..], clock(readings);
      var (m1, arr1, done) := Visit(m, arr, a, now);
      VisitTakes(m, arr, a, now, k);
      SweepFeeds(m1, arr1, tail, readings + 1, clock, k);
      var s, rest := SweepFrom(m, arr, todo, readings, clock), SweepFrom(m1, arr1, tail, readings + 1, clock);
      var later := Hungry(m1, arr1, tail, readings + 1, clock, k);
      var meals := Meals(m1, arr1, tail, readings + 1, clock, k);
      var meal := Answer(a.id, a.client, a.cmd, if done.Some? then done.value else Nil);
      OneMoreServed(Supply(m, k), Supply(m1, k), later, meals, rest, s, k, a, meal, Wants(a, m, now, k));
    }
  }

  lemma OneMoreHungry(a: Action, later: seq<Action>, n: nat)
    requires n <= |later|
    ensures Ids(([a] + later)[..n + 1]) == [a.id] + Ids(later[..n]) && ([a] + later)[n + 1..] == later[n..]
    ensures n == 0 ==> Ids(([a] + later)[..n]) == [] == Ids(later[..n]) && ([a] + later)[n..] == [a] + later[n..]
  {
  }

  /** The pending list is a stack: the later a request came the nearer it is to the front. */
  ghost predicate NewestFirst(sv: Server) {
    && (forall i :: 0 <= i < |sv.pending| ==> sv.pending[i].id < sv.issued)
    && Falling(sv.pending)
  }

  ghost predicate Falling(actions: seq<Action>) {
    forall i, j :: 0 <= i < j < |actions| ==> actions[i].id > actions[j].id
  }

  lemma {:induction false} SweepKeepsFalling(m: Keys, arr: seq<Item>, todo: seq<Action>, readings: nat, clock: Clock)
    requires Falling(todo)
    ensures var left := SweepFrom(m, arr, todo, readings, clock).left;
      Falling(left) && forall a <- left :: a in todo
    decreases |todo|
  {
    if todo != [] {
      var (m1, arr1, done) := Visit(m, arr, todo[0], clock(readings));
      SweepKeepsFalling(m1, arr1, todo[1..], readings + 1, clock);
      var rest := SweepFrom(m1, arr1, todo[1..], readings + 1, clock).left;
      forall a | a in rest ensures a in todo && todo[0].id > a.id {
        assert a in todo[1..];
      }
    }
  }

  lemma StepKeepsNewestFirst(sv: Server, e: Event, clock: Clock)
    requires NewestFirst(sv)
    ensures NewestFirst(Step(sv, e, clock).0)
  {
    match e {
      case Tick =>
        SweepKeepsFalling(sv.keys, sv.arr, sv.pending, sv.readings, clock);
        var left := DoTick(sv, clock).0.pending;
        assert forall i :: 0 <= i < |left| ==> left[i] in left;
      case Request(_, _) =>
    }
  }

  lemma {:induction false} RunKeepsNewestFirst(sv: Server, events: seq<Event>, clock: Clock)
    requires NewestFirst(sv)
    ensures NewestFirst(Run(sv, events, clock).0)
    decreases |events|
  {
    if events != [] {
      StepKeepsNewestFirst(sv, events[0], clock);
      RunKeepsNewestFirst(Step(sv, events[0], clock).0, events[1..], clock);
    }
  }

  lemma {:induction false} HungryFalls(m: Keys, arr: seq<Item>, todo: seq<Action>, readings: nat, clock: Clock,
                                      k: Bytes)
    requires Falling(todo)
    ensures var hungry := Hungry(m, arr, todo, readings, clock, k);
      Falling(hungry) && forall a <- hungry :: a in todo
    decreases |todo|
  {
    if todo != [] {
      var (m1, arr1, _) := Visit(m, arr, todo[0], clock(readings));
      HungryFalls(m1, arr1, todo[1..], readings + 1, clock, k);
      forall a | a in Hungry(m1, arr1, todo[1..], readings + 1, clock, k) ensures a in todo && todo[0].id > a.id {
        assert a in todo[1..];
      }
    }
  }

  /** Last come, first served: when a tick begins with n elements in k, the requests that are not
      due and find k first among their keys get them newest first, exactly as many as there are
      elements or requests. Where whoever waits for k waits for it alone, the others go on
      waiting. */
  lemma LastComeFirstServed(sv: Server, clock: Clock, k: Bytes)
    requires NewestFirst(sv) && OnlyPopsWait(sv.pending)
    ensures var (sv1, sent) := DoTick(sv, clock);
      var hungry := Hungry(sv.keys, sv.arr, sv.pending, sv.readings, clock, k);
      var meals := Meals(sv.keys, sv.arr, sv.pending, sv.readings, clock, k);
      var n := Min(Supply(sv.keys, k), |hungry|);
      && Falling(hungry)
      && |meals| == n && (forall i :: 0 <= i < n ==> meals[i].id == hungry[i].id && meals[i].cmd == hungry[i].cmd)
      && (forall x <- meals :: x in sent && |Removed(x.cmd, x.reply)| == 1)
      && Supply(sv1.keys, k) == Supply(sv.keys, k) - n
      && (Queueing(sv.keys, sv.pending, k) ==>
            Fed(sent, k) == Ids(hungry[..n]) && Waiters(sv1.pending, k) == hungry[n..])
  {
    hide Hungry, Meals, SweepFrom, Removed;
    SweepFeeds(sv.keys, sv.arr, sv.pending, sv.readings, clock, k);
    HungryFalls(sv.keys, sv.arr, sv.pending, sv.readings, clock, k);
    if Queueing(sv.keys, sv.pending, k) {
      SweepQueues(sv.keys, sv.arr, sv.pending, sv.readings, clock, k);
    }
  }

  /** One of the meals went to the request. */
  predicate Ate(meals: seq<Answer>, id: nat) {
    exists i :: 0 <= i < |meals| && meals[i].id == id
  }

  /** No request is passed over by a newer one exactly if there are elements for all of
      them or for none. */
  lemma NobodyIsPassedOver(sv: Server, clock: Clock, k: Bytes)
    requires NewestFirst(sv) && OnlyPopsWait(sv.pending)
    ensures var meals := Meals(sv.keys, sv.arr, sv.pending, sv.readings, clock, k);
      var hungry := Hungry(sv.keys, sv.arr, sv.pending, sv.readings, clock, k);
      (forall a, b :: a in hungry && b in hungry && a.id > b.id && Ate(meals, a.id) ==> Ate(meals, b.id))
      <==> Supply(sv.keys, k) == 0 || Supply(sv.keys, k) >= |hungry|
  {
    hide Hungry, Meals, SweepFrom, Removed, Supply;
    LastComeFirstServed(sv, clock, k);
    var meals := Meals(sv.keys, sv.arr, sv.pending, sv.readings, clock, k);
    var hungry := Hungry(sv.keys, sv.arr, sv.pending, sv.readings, clock, k);
    var supply := Supply(sv.keys, k);
    if supply >= |hungry| {
      forall b | b in hungry ensures Ate(meals, b.id) {
        var j :| 0 <= j < |hungry| && hungry[j] == b;
        assert meals[j].id == b.id;
      }
    } else if supply > 0 {
      var a, b := hungry[0], hungry[supply];
      assert meals[0].id == a.id;
      forall i | 0 <= i < |meals| ensures meals[i].id != b.id {
        assert meals[i].id == hungry[i].id > hungry[supply].id;
      }
      assert a in hungry && b in hungry && a.id > b.id && Ate(meals, a.id) && !Ate(meals, b.id);
    }
  }
}
