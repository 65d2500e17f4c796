/** When a blocking pop times out: for a request with timeout n, and not for one with timeout 0,
    in the first tick that comes to it n seconds or more after it was received. */
module Timeouts {
  import opened Bytes
  import opened Decimals
  import opened Machine
  import opened Elements
  import opened Wakeups

  // ---- receiving the request -----------------------------------------------------------

  /** A blocking pop is put on the list exactly if its timeout is a number of seconds from 0 to
      2147483647 and it names keys, none of which exists; it stands in front, with that number
      and the reading of the clock. */
  lemma WhatWaits(sv: Server, client: nat, cmd: Cmd, clock: Clock)
    requires cmd.BPop?
    ensures var (sv1, sent) := Receive(sv, client, cmd, clock);
      && (sent == [] <==>
            && Parse(cmd.timeout).Some? && 0 <= Parse(cmd.timeout).value <= 2_147_483_647
            && cmd.keys != [] && forall k <- cmd.keys :: k !in sv.keys)
      && (sent == [] ==>
            && sv1.pending
               == [Action(sv.issued, client, cmd, clock(sv.readings), Parse(cmd.timeout).value)] + sv.pending
            && sv1.keys == sv.keys && sv1.readings == sv.readings + 1 && sv1.issued == sv.issued + 1)
  {
    var i := FirstPresent(sv.keys, cmd.keys);
    if i < |cmd.keys| { assert cmd.keys[i] in cmd.keys; }
  }

  /** A timeout that is no such number is refused, and nothing else happens. One error is for
      negative numbers and the other for numbers that are too large. */
  lemma BadTimeout(sv: Server, client: nat, cmd: Cmd, clock: Clock, n: int)
    requires cmd.BPop? && Parse(cmd.timeout) == Some(n) && !(0 <= n <= 2_147_483_647)
    ensures Receive(sv, client, cmd, clock) ==
      (sv.(issued := sv.issued + 1),
       [Answer(sv.issued, client, cmd, if n < 0 then NegTimeout else InvTimeout)])
  {
    ReadsUpToZero(cmd.timeout);
  }

  /** A text that is no number is refused too: the error is that for negative numbers if it
      begins with one, and the other if it begins with one of 0 or more, or with none. */
  lemma NoTimeout(sv: Server, client: nat, cmd: Cmd, clock: Clock, sign: Bytes, digits: Bytes, junk: Bytes)
    requires cmd.BPop? && cmd.timeout == sign + digits + junk && junk != [] && !IsDigit(junk[0])
    requires (sign == [] || sign == [43] || sign == [45]) && AllDigits(digits)
    requires digits == [] && sign == [] ==> !IsSpace(junk[0]) && junk[0] != 43 && junk[0] != 45
    ensures Receive(sv, client, cmd, clock) ==
      (sv.(issued := sv.issued + 1),
       [Answer(sv.issued, client, cmd, if sign == [45] && Value(digits) > 0 then NegTimeout else InvTimeout)])
  {
    ReadsPrefix(sign, digits, junk);
  }

  lemma ReadsPrefix(sign: Bytes, digits: Bytes, junk: Bytes)
    requires junk != [] && !IsDigit(junk[0]) && (sign == [] || sign == [43] || sign == [45]) && AllDigits(digits)
    requires digits == [] && sign == [] ==> !IsSpace(junk[0]) && junk[0] != 43 && junk[0] != 45
    ensures var c := sign + digits + junk;
      Parse(c) == None && (Read(c) < 0 <==> sign == [45] && Value(digits) > 0)
  {
    var c := sign + digits + junk;
    var cut := junk[..ToZero(junk)];
    ToZeroIs(c, |sign| + |digits| + ToZero(junk));
    assert c[..ToZero(c)] == sign + digits + cut;
    SplitNumber(sign, digits, cut);
    SplitNumber(sign, digits, junk);
  }

  /** How strtoll sees such a text. */
  lemma Parts(sign: Bytes, digits: Bytes, junk: Bytes)
    requires (junk != [] ==> !IsDigit(junk[0])) && (sign == [] || sign == [43] || sign == [45]) && AllDigits(digits)
    requires digits == [] && sign == [] && junk != [] ==> !IsSpace(junk[0]) && junk[0] != 43 && junk[0] != 45
    ensures var c := sign + digits + junk;
      && SkipSpace(c) == c && (Signed(c) <==> sign != []) && (sign != [] ==> c[0] == sign[0])
      && c[|sign|..] == digits + junk && DigitCount(c[|sign|..]) == |digits| && c[|sign|..][..|digits|] == digits
  {
    var c := sign + digits + junk;
    CountUpTo(digits, junk);
    assert c[|sign|..] == digits + junk && (digits + junk)[..|digits|] == digits;
    if sign == [] && digits != [] { assert c[0] == digits[0] && IsDigit(digits[0]); }
    if sign == [] && digits == [] && junk != [] { assert c[0] == junk[0]; }
  }

  lemma SplitNumber(sign: Bytes, digits: Bytes, junk: Bytes)
    requires (junk != [] ==> !IsDigit(junk[0])) && (sign == [] || sign == [43] || sign == [45]) && AllDigits(digits)
    requires digits == [] && sign == [] && junk != [] ==> !IsSpace(junk[0]) && junk[0] != 43 && junk[0] != 45
    ensures var c := sign + digits + junk;
      && (junk != [] ==> Parse(c) == None)
      && (ReadNumber(c).value < 0 <==> sign == [45] && Value(digits) > 0)
  {
    Parts(sign, digits, junk);
    assert digits == [] ==> Value(digits) == 0;
    hide SkipSpace, Signed, DigitCount, Value, AllDigits, IsSpace, IsDigit;
    var c := sign + digits + junk;
    assert c[0..] == c;
    assert junk != [] ==> |digits| < |c[|sign|..]|;
  }

  lemma {:induction false} CountUpTo(digits: Bytes, junk: Bytes)
    requires AllDigits(digits) && (junk != [] ==> !IsDigit(junk[0]))
    ensures DigitCount(digits + junk) == |digits|
  {
    if digits == [] {
      assert digits + junk == junk;
    } else {
      assert (digits + junk)[1..] == digits[1..] + junk;
      CountUpTo(digits[1..], junk);
    }
  }

  // ---- one tick --------------------------------------------------------------------------

  /** What a tick tells a request that timed out after so many microseconds. */
  function TimedOut(a: Action, us: int): Answer {
    Answer(a.id, a.client, a.cmd, Arr([NilItem, Elapsed(us)]))
  }

  /** The action carries the number of seconds that its request asked for. */
  predicate AsAsked(a: Action) {
    a.cmd.BPop? && Parse(a.cmd.timeout) == Some(a.timeout) && 0 <= a.timeout <= 2_147_483_647
  }

  /** The reply says that the time is up. */
  predicate SaysTimeIsUp(r: Reply) {
    r.Arr? && |r.items| == 2 && r.items[0] == NilItem && r.items[1].Elapsed?
  }

  /** A visit tells nil and the time exactly if the timeout is not 0 and so many seconds have gone
      by since the request came. */
  lemma VisitInTime(m: Keys, arr: seq<Item>, a: Action, now: Micros, n: int)
    requires AsAsked(a) && Parse(a.cmd.timeout) == Some(n)
    ensures var (us, done) := (now - a.since, Visit(m, arr, a, now).2);
      && (done == Some(Arr([NilItem, Elapsed(us)])) <==> n != 0 && us >= n * 1_000_000)
      && (done.Some? && SaysTimeIsUp(done.value) ==> done == Some(Arr([NilItem, Elapsed(us)])))
  {
    hide Exec, TickReply, Parse;
    var us := now - a.since;
    if n != 0 && us >= n * 1_000_000 {
      TimeoutTakesNothing(m, arr, a, now);
    } else {
      PopSaysNoNil(m, arr, a.cmd, us);
    }
  }

  lemma PopSaysNoNil(m: Keys, arr: seq<Item>, cmd: Cmd, us: int)
    requires cmd.BPop?
    ensures var out := Exec(m, arr, cmd);
      out.ret != Blocked ==> !SaysTimeIsUp(TickReply(out.ret, out.arr, us))
  {
  }

  /** A sweep gives the j-th action the answer of its own visit, or none. */
  lemma {:induction false} SweepAnswers(m: Keys, arr: seq<Item>, todo: seq<Action>, readings: nat, clock: Clock, j: nat)
      returns (mj: Keys, arrj: seq<Item>)
    requires Falling(todo) && j < |todo|
    ensures var a := todo[j];
      var done := Visit(mj, arrj, a, clock(readings + j)).2;
      var answers := SweepFrom(m, arr, todo, readings, clock).answers;
      forall r :: Answer(a.id, a.client, a.cmd, r) in answers <==> done == Some(r)
    decreases |todo|
  {
    hide Visit;
    var (m1, arr1, done) := Visit(m, arr, todo[0], clock(readings));
    var rest := SweepFrom(m1, arr1, todo[1..], readings + 1, clock);
    SweepIds(m1, arr1, todo[1..], readings + 1, clock);
    if j == 0 {
      mj, arrj := m, arr;
      assert forall x <- rest.answers :: x.id < todo[0].id;
    } else {
      mj, arrj := SweepAnswers(m1, arr1, todo[1..], readings + 1, clock, j - 1);
      assert todo[0].id > todo[j].id;
    }
  }

  lemma {:induction false} SweepIds(m: Keys, arr: seq<Item>, todo: seq<Action>, readings: nat, clock: Clock)
    ensures forall x <- SweepFrom(m, arr, todo, readings, clock).answers ::
      exists i :: 0 <= i < |todo| && todo[i].id == x.id
    decreases |todo|
  {
    hide Visit;
    if todo != [] {
      var (m1, arr1, done) := Visit(m, arr, todo[0], clock(readings));
      SweepIds(m1, arr1, todo[1..], readings + 1, clock);
      forall x | x in SweepFrom(m, arr, todo, readings, clock).answers
        ensures exists i :: 0 <= i < |todo| && todo[i].id == x.id
      {
        if x in SweepFrom(m1, arr1, todo[1..], readings + 1, clock).answers {
          var i :| 0 <= i < |todo| - 1 && todo[1..][i].id == x.id;
          assert todo[i + 1].id == x.id;
        } else {
          assert todo[0].id == x.id;
        }
      }
    }
  }

  /** A tick that comes to the j-th request tells it that its time is up exactly if its timeout is
      not 0 and so many seconds have gone by. */
  lemma TickInTime(sv: Server, clock: Clock, j: nat, n: int)
    requires NewestFirst(sv) && j < |sv.pending| && AsAsked(sv.pending[j])
    requires Parse(sv.pending[j].cmd.timeout) == Some(n)
    ensures var us := clock(sv.readings + j) - sv.pending[j].since;
      TimedOut(sv.pending[j], us) in DoTick(sv, clock).1 <==> n != 0 && us >= n * 1_000_000
  {
    hide Visit, SweepFrom;
    var mj, arrj := SweepAnswers(sv.keys, sv.arr, sv.pending, sv.readings, clock, j);
    VisitInTime(mj, arrj, sv.pending[j], clock(sv.readings + j), n);
  }

  // ---- whole runs ---------------------------------------------------------------------------

  /** Whoever waits after a run waited before, unchanged, or came during the run. */
  lemma {:induction false} RunKeepsActions(sv: Server, events: seq<Event>, clock: Clock)
    requires NewestFirst(sv)
    ensures var sv1 := Run(sv, events, clock).0;
      sv1.issued >= sv.issued && forall a <- sv1.pending :: a in sv.pending || a.id >= sv.issued
    decreases |events|
  {
    if events != [] {
      hide Exec, Visit, SweepFrom;
      var svm := Step(sv, events[0], clock).0;
      StepKeepsNewestFirst(sv, events[0], clock);
      if events[0].Tick? { SweepKeepsFalling(sv.keys, sv.arr, sv.pending, sv.readings, clock); }
      RunKeepsActions(svm, events[1..], clock);
    }
  }

  /** From the request to its end: a blocking pop with timeout n comes when none of its keys exists,
      anything may happen, and it still waits, as the j-th, when a tick begins. That tick tells it
      that its time is up exactly if n is not 0 and n seconds have gone by between the reading of
      the clock when it came and the one when the tick comes to it. */
  lemma RequestTimesOut(sv: Server, client: nat, cmd: Cmd, events: seq<Event>, clock: Clock, j: nat, n: int)
    requires NewestFirst(sv) && cmd.BPop? && Parse(cmd.timeout) == Some(n)
    requires Receive(sv, client, cmd, clock).1 == []
    requires var before := Run(sv, [Request(client, cmd)] + events, clock).0;
      j < |before.pending| && before.pending[j].id == sv.issued
    ensures var before := Run(sv, [Request(client, cmd)] + events, clock).0;
      var us := clock(before.readings + j) - clock(sv.readings);
      Answer(sv.issued, client, cmd, Arr([NilItem, Elapsed(us)])) in Step(before, Tick, clock).1
      <==> n != 0 && us >= n * 1_000_000
  {
    hide Receive, DoTick, AsAsked;
    var e := Request(client, cmd);
    var svm := Step(sv, e, clock).0;
    assert ([e] + events)[1..] == events;
    WaitsAsAsked(sv, client, cmd, clock);
    StepKeepsNewestFirst(sv, e, clock);
    RunKeepsNewestFirst(svm, events, clock);
    StillTheSame(svm, events, clock, j);
    TickInTime(Run(svm, events, clock).0, clock, j, n);
  }

  lemma WaitsAsAsked(sv: Server, client: nat, cmd: Cmd, clock: Clock)
    requires cmd.BPop? && Receive(sv, client, cmd, clock).1 == []
    ensures var sv1 := Receive(sv, client, cmd, clock).0;
      && sv1.pending != [] && sv1.issued == sv.issued + 1 && AsAsked(sv1.pending[0])
      && sv1.pending[0].id == sv.issued && sv1.pending[0].client == client && sv1.pending[0].cmd == cmd
      && sv1.pending[0].since == clock(sv.readings)
  {
    WhatWaits(sv, client, cmd, clock);
  }

  /** The one with the id of the first action is the first action. */
  lemma StillTheSame(sv: Server, events: seq<Event>, clock: Clock, j: nat)
    requires NewestFirst(sv) && sv.pending != []
    requires var sv1 := Run(sv, events, clock).0; j < |sv1.pending| && sv1.pending[j].id == sv.pending[0].id
    ensures Run(sv, events, clock).0.pending[j] == sv.pending[0]
  {
    hide Run;
    RunKeepsActions(sv, events, clock);
    var a := Run(sv, events, clock).0.pending[j];
    assert a in Run(sv, events, clock).0.pending && sv.pending[0].id < sv.issued;
    var i :| 0 <= i < |sv.pending| && sv.pending[i] == a;
  }

  /** The reply says that the time is up, and it is: the timeout asked for is not 0, and so many
      seconds have gone by. */
  predicate InTime(x: Answer) {
    x.cmd.BPop? && SaysTimeIsUp(x.reply) ==>
      && Parse(x.cmd.timeout).Some? && Parse(x.cmd.timeout).value > 0
      && x.reply.items[1].us >= Parse(x.cmd.timeout).value * 1_000_000
  }

  lemma {:induction false} SweepInTime(m: Keys, arr: seq<Item>, todo: seq<Action>, readings: nat, clock: Clock)
    requires forall a <- todo :: AsAsked(a)
    ensures var s := SweepFrom(m, arr, todo, readings, clock);
      (forall x <- s.answers :: InTime(x)) && forall a <- s.left :: AsAsked(a)
    decreases |todo|
  {
    if todo != [] {
      hide Visit, AsAsked, Parse;
      var a := todo[0];
      var (m1, arr1, done) := Visit(m, arr, a, clock(readings));
      SweepInTime(m1, arr1, todo[1..], readings + 1, clock);
      VisitSaysSo(m, arr, a, clock(readings));
    }
  }

  lemma VisitSaysSo(m: Keys, arr: seq<Item>, a: Action, now: Micros)
    requires AsAsked(a)
    ensures var done := Visit(m, arr, a, now).2; done.Some? ==> InTime(Answer(a.id, a.client, a.cmd, done.value))
  {
    hide Visit;
    VisitInTime(m, arr, a, now, a.timeout);
  }

  lemma ReceiveInTime(sv: Server, client: nat, cmd: Cmd, clock: Clock)
    requires forall a <- sv.pending :: AsAsked(a)
    ensures var (sv1, sent) := Receive(sv, client, cmd, clock);
      (forall x <- sent :: InTime(x)) && forall a <- sv1.pending :: AsAsked(a)
  {
    if cmd.BPop? {
      var out := Exec(sv.keys, sv.arr, cmd);
      assert !SaysTimeIsUp(BlockingReply(out.ret, out.arr));
    }
  }

  /** Over any run: whoever is told that the time is up asked for a timeout other than 0, and
      waited for so many seconds. A request with timeout 0 is never told so. */
  lemma {:induction false} RunInTime(sv: Server, events: seq<Event>, clock: Clock)
    requires forall a <- sv.pending :: AsAsked(a)
    ensures var (sv1, log) := Run(sv, events, clock);
      (forall x <- log :: InTime(x)) && forall a <- sv1.pending :: AsAsked(a)
    decreases |events|
  {
    if events != [] {
      hide Receive, SweepFrom, AsAsked, InTime;
      match events[0] {
        case Tick => SweepInTime(sv.keys, sv.arr, sv.pending, sv.readings, clock);
        case Request(client, cmd) => ReceiveInTime(sv, client, cmd, clock);
      }
      RunInTime(Step(sv, events[0], clock).0, events[1..], clock);
    }
  }

  // ---- how the time is printed -----------------------------------------------------------------

  /** The elapsed time is printed in parentheses, in seconds with two decimals, rounded to the
      nearest hundredth: w is the whole seconds and c the hundredths. */
  lemma TimePrinted(us: int) returns (w: nat, c: nat)
    ensures c < 100
    ensures TimeText(us) ==
      [40] + (if us < 0 then [45] else []) + Print(w) + [46, 48 + c / 10, 48 + c % 10, 41]
    ensures var n := if us < 0 then -us else us; (100 * w + c) * 10_000 - 5_000 <= n < (100 * w + c) * 10_000 + 5_000
  {
    var n := if us < 0 then -us else us;
    var h := (n + 5_000) / 10_000;
    w, c := h / 100, h % 100;
    assert Print(w) == Digits(w);
    hide Digits, Print;
  }
}
