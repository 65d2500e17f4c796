/** The key space and what the commands of server/commands.c do to it, as
    functions on values. Module Commands proves the pointer programs against these
    functions; modules Requests, Elements and Safety prove what they keep over
    whole runs. */
module Machine {
  import opened Bytes
  import opened Decimals
  import opened ListSpec
  import opened ReplyArrays
  import ReplyCodec

  /** A value in key_dict. Sets and hashes are told apart from lists only by
      their type tag here. */
  datatype Val = Str(text: Bytes) | Lst(elems: seq<Bytes>) | Coll

  type Keys = map<Bytes, Val>

  datatype End = Left | Right

  /** A command with the texts of its arguments. */
  datatype Cmd =
    | Push(end: End, key: Bytes, vals: seq<Bytes>)
    | Pop(end: End, key: Bytes)
    | RPopLPush(src: Bytes, dst: Bytes)
    | BPop(end: End, keys: seq<Bytes>, timeout: Bytes)
    | LRem(key: Bytes, count: Bytes, val: Bytes)
    | LTrim(key: Bytes, first: Bytes, last: Bytes)
    | LRange(key: Bytes, first: Bytes, last: Bytes)
    | LInsert(key: Bytes, place: Bytes, pivot: Bytes, val: Bytes)
    | LSet(key: Bytes, index: Bytes, val: Bytes)
    | Del(keys: seq<Bytes>)
    | Rename(key: Bytes, newKey: Bytes)
    | Set(key: Bytes, text: Bytes)

  /** An element of a reply array: the key and the element of a blocking pop, an element of a
      range, nil, or the elapsed time in microseconds. */
  datatype Item = KeyItem(name: Bytes) | PopItem(elem: Bytes) | ValItem(elem: Bytes) | NilItem | Elapsed(us: int)

  /** What is sent to a client. Where a reply array is too long to be sent, the header of the
      reply before goes out over as much of the array as was written. */
  datatype Reply =
    | Ok | Nil | Int(n: int) | Text(text: Bytes)
    | Arr(items: seq<Item>)
    | Stale(items: seq<Item>)         // the array left behind by an earlier command
    | WrongType | NumArgs | NoKey | InvInt | InvSyntax | NegTimeout | InvTimeout
    | TooLong                         // the error, in place of an array
    | TextTooLong(text: Bytes)        // the same error, in place of a text
    | Unsent(items: seq<Item>)        // the array of a blocking pop was too long
    | StaleUnsent(items: seq<Item>)   // the array left behind was too long
    | Garbled(items: seq<Item>, over: seq<Item>)  // as sent for the first, but written over by the second
    | Crash                           // a NULL entry would be dereferenced

  // ---- what fits in a reply -------------------------------------------------

  /** The elapsed time in seconds, as printed with two decimals in parentheses. */
  function TimeText(us: int): Bytes {
    var n := if us < 0 then -us else us;
    var h := (n + 5_000) / 10_000;
    [40] + (if us < 0 then [45] else []) + Digits(h / 100) + [46, 48 + h % 100 / 10, 48 + h % 10, 41]
  }

  /** An element of the reply array with its type, which the encoder looks at. */
  function ElemOf(item: Item): ReplyCodec.Elem {
    match item
    case KeyItem(name) => ReplyCodec.Elem(24, name)
    case PopItem(elem) => ReplyCodec.Elem(24, elem)
    case ValItem(elem) => ReplyCodec.Elem(0, elem)
    case NilItem => ReplyCodec.Elem(9, [])
    case Elapsed(us) => ReplyCodec.Elem(12, TimeText(us))
  }

  function Elems(items: seq<Item>): (es: seq<ReplyCodec.Elem>)
    ensures |es| == |items| && forall i :: 0 <= i < |items| ==> es[i] == ElemOf(items[i])
  {
    if items == [] then [] else [ElemOf(items[0])] + Elems(items[1..])
  }

  /** create_arr_reply finds room for the items. */
  predicate FitsReply(items: seq<Item>) {
    ReplyCodec.Sendable(Elems(items))
  }

  /** create_arr_reply for a command that does not block. */
  function ArrReply(items: seq<Item>): Reply {
    if FitsReply(items) then Arr(items) else TooLong
  }

  /** create_str_reply */
  function TextReply(text: Bytes): Reply {
    if |text| > ReplyCodec.MAX_RPLY_SIZE then TextTooLong(text) else Text(text)
  }

  /** What a command function hands back: a reply it built itself, a reply array
      for its caller to send, or E_BLOCKED. */
  datatype Ret = Replied(reply: Reply) | Filled | Blocked

  datatype Outcome = Outcome(keys: Keys, arr: seq<Item>, ret: Ret)

  // ---- one function for each command --------------------------------------

  function Taken(end: End, s: seq<Bytes>): Bytes
    requires s != []
  {
    if end == Left then s[0] else s[|s| - 1]
  }

  function Rest(end: End, s: seq<Bytes>): seq<Bytes>
    requires s != []
  {
    if end == Left then s[1..] else s[..|s| - 1]
  }

  /** The key holds what is left of its list, or is gone if nothing is left. */
  function Store(m: Keys, key: Bytes, s: seq<Bytes>): Keys {
    if s == [] then m - {key} else m[key := Lst(s)]
  }

  function DoPush(m: Keys, end: End, key: Bytes, vals: seq<Bytes>): (Keys, Reply) {
    if vals == [] then (m, NumArgs)
    else if key in m && !m[key].Lst? then (m, WrongType)
    else
      var s := Pushed(end == Left, if key in m then m[key].elems else [], vals);
      (m[key := Lst(s)], Int(|s|))
  }

  function DoPop(m: Keys, end: End, key: Bytes): (Keys, Reply) {
    if key !in m then (m, Nil)
    else if !m[key].Lst? then (m, WrongType)
    else if m[key].elems == [] then (m - {key}, Crash)
    else (Store(m, key, Rest(end, m[key].elems)), TextReply(Taken(end, m[key].elems)))
  }

  function DoRPopLPush(m: Keys, src: Bytes, dst: Bytes): (Keys, Reply) {
    if src !in m then (m, Nil)
    else if !m[src].Lst? then (m, WrongType)
    else if m[src].elems == [] then (m - {src}, Crash)
    else
      var x := Taken(Right, m[src].elems);
      var m1 := Store(m, src, Rest(Right, m[src].elems));
      if dst !in m1 then (m1[dst := Lst([x])], TextReply(x))
      else if !m1[dst].Lst? then (m1, WrongType)
      else (m1[dst := Lst([x] + m1[dst].elems)], TextReply(x))
  }

  /** The first of the keys that exists, or |keys|. */
  function FirstPresent(m: Keys, keys: seq<Bytes>): (i: nat)
    ensures i <= |keys|
    ensures i < |keys| ==> keys[i] in m
    ensures forall j :: 0 <= j < i ==> keys[j] !in m
  {
    if keys == [] || keys[0] in m then 0 else 1 + FirstPresent(m, keys[1..])
  }

  lemma {:induction false} FirstPresentIs(m: Keys, keys: seq<Bytes>, i: nat)
    requires i <= |keys| && (forall j :: 0 <= j < i ==> keys[j] !in m)
    requires i < |keys| ==> keys[i] in m
    ensures FirstPresent(m, keys) == i
  {
    if i > 0 { FirstPresentIs(m, keys[1..], i - 1); }
  }

  /** BLPOP and BRPOP: the list found may be any of the keys, but the key that is
      removed and reported is always the first one. */
  function DoBPop(m: Keys, arr: seq<Item>, end: End, keys: seq<Bytes>): Outcome {
    if keys == [] then Outcome(m, arr, Replied(NumArgs))
    else
      var i := FirstPresent(m, keys);
      if i == |keys| then Outcome(m, [], Blocked)
      else if !m[keys[i]].Lst? then Outcome(m, arr, Replied(WrongType))
      else
        var s := m[keys[i]].elems;
        if s == [] then Outcome(m - {keys[0]}, [], Replied(Crash))
        else
          var m1 := m[keys[i] := Lst(Rest(end, s))];
          var m2 := if Rest(end, s) == [] then m1 - {keys[0]} else m1;
          Outcome(m2, [KeyItem(keys[0]), PopItem(Taken(end, s))], Filled)
  }

  function DoLRem(m: Keys, key: Bytes, count: int, val: Bytes): (Keys, Reply) {
    if key !in m then (m, Int(0))
    else if !m[key].Lst? then (m, WrongType)
    else
      var s := LRemSpec(m[key].elems, count, val);
      (Store(m, key, s), Int(|m[key].elems| - |s|))
  }

  function DoLTrim(m: Keys, key: Bytes, first: int, last: int): (Keys, Reply) {
    if key !in m then (m, Ok)
    else if !m[key].Lst? then (m, WrongType)
    else (Store(m, key, Range(m[key].elems, first, last)), Ok)
  }

  function Vals(s: seq<Bytes>): (items: seq<Item>)
    ensures |items| == |s|
  {
    seq(|s|, i requires 0 <= i < |s| => ValItem(s[i]))
  }

  function DoLRange(m: Keys, key: Bytes, first: int, last: int): (seq<Item>, Reply) {
    if key in m && !m[key].Lst? then ([], WrongType)
    else
      var items := AddAll([], Vals(if key in m then Range(m[key].elems, first, last) else []));
      (items, ArrReply(items))
  }

  /** LRANGE shows the whole range exactly when it has at most 255 elements and there is room
      for them and the end marker in a reply. */
  lemma LRangeShowsRange(m: Keys, key: Bytes, first: int, last: int)
    requires key in m && m[key].Lst?
    ensures var range := Range(m[key].elems, first, last);
      DoLRange(m, key, first, last).1 == Arr(Vals(range)) <==> |range| <= 255 && FitsReply(Vals(range))
  {
    AddAllFits(Vals(Range(m[key].elems, first, last)));
  }

  lemma {:induction false} ValsRoom(s: seq<Bytes>, i: nat)
    requires i < |s|
    ensures |s[i]| + ReplyCodec.SIZE_TL <= ReplyCodec.Room(Elems(Vals(s)))
  {
    assert !ReplyCodec.IsNil(0);
    ReplyCodec.RoomBound(Elems(Vals(s)), i);
  }

  /** A single element that leaves no room for its type, its length and the end marker is
      answered with an error. */
  lemma LRangeCanBeTooLong(m: Keys, key: Bytes, elem: Bytes)
    requires key in m && m[key] == Lst([elem]) && |elem| == ReplyCodec.MAX_RPLY_SIZE - 5
    ensures DoLRange(m, key, 0, -1).1 == TooLong
  {
    assert Range([elem], 0, -1) == [elem];
    AddAllFits(Vals([elem]));
    ValsRoom([elem], 0);
  }

  /** tolower in the C locale */
  function Lower(b: Byte): Byte {
    if 65 <= b <= 90 then b + 32 else b
  }

  /** strcasecmp finds no difference between the two C strings. */
  predicate SameWord(s: Bytes, word: Bytes) {
    ToZero(s) == |word| && forall i :: 0 <= i < |word| ==> Lower(s[i]) == word[i]
  }

  const BEFORE: Bytes := [98, 101, 102, 111, 114, 101]
  const AFTER: Bytes := [97, 102, 116, 101, 114]

  /** The word of LINSERT: whether the element goes after the pivot. */
  function Direction(place: Bytes): Option<bool> {
    if SameWord(place, BEFORE) then Some(false) else if SameWord(place, AFTER) then Some(true) else None
  }

  function DoLInsert(m: Keys, key: Bytes, after: bool, pivot: Bytes, val: Bytes): (Keys, Reply) {
    if key !in m then (m, Int(0))
    else if !m[key].Lst? then (m, WrongType)
    else if pivot !in m[key].elems then (m, Int(-1))
    else (m[key := Lst(LInsertSpec(m[key].elems, after, pivot, val))], Int(|m[key].elems| + 1))
  }

  function DoLSet(m: Keys, key: Bytes, index: int, val: Bytes): (Keys, Reply) {
    if key !in m then (m, Nil)
    else if !m[key].Lst? then (m, WrongType)
    else if 0 <= FromEnd(|m[key].elems|, index) < |m[key].elems| then
      (m[key := Lst(LSetSpec(m[key].elems, index, val))], TextReply(val))
    else (m, Nil)
  }

  function DoDel(m: Keys, keys: seq<Bytes>): (r: (Keys, nat))
    decreases |keys|
  {
    if keys == [] then (m, 0)
    else
      var (m1, n) := DoDel(m - {keys[0]}, keys[1..]);
      (m1, n + if keys[0] in m then 1 else 0)
  }

  function DoRename(m: Keys, key: Bytes, newKey: Bytes): (Keys, Reply) {
    if key !in m then (m, NoKey) else ((m - {key})[newKey := m[key]], Ok)
  }

  function Exec(m: Keys, arr: seq<Item>, cmd: Cmd): (out: Outcome)
    ensures !cmd.BPop? ==> out.ret.Replied?
  {
    match cmd
    case Push(end, key, vals) => var (m1, r) := DoPush(m, end, key, vals); Outcome(m1, arr, Replied(r))
    case Pop(end, key) => var (m1, r) := DoPop(m, end, key); Outcome(m1, arr, Replied(r))
    case RPopLPush(src, dst) => var (m1, r) := DoRPopLPush(m, src, dst); Outcome(m1, arr, Replied(r))
    case BPop(end, keys, _) => DoBPop(m, arr, end, keys)
    case LRem(key, count, val) =>
      if Parse(count).None? then Outcome(m, arr, Replied(InvInt))
      else var (m1, r) := DoLRem(m, key, Parse(count).value, val); Outcome(m1, arr, Replied(r))
    case LTrim(key, first, last) =>
      if Parse(first).None? || Parse(last).None? then Outcome(m, arr, Replied(InvInt))
      else var (m1, r) := DoLTrim(m, key, Parse(first).value, Parse(last).value); Outcome(m1, arr, Replied(r))
    case LRange(key, first, last) =>
      if Parse(first).None? || Parse(last).None? then Outcome(m, arr, Replied(InvInt))
      else var (arr1, r) := DoLRange(m, key, Parse(first).value, Parse(last).value); Outcome(m, arr1, Replied(r))
    case LInsert(key, place, pivot, val) =>
      if Direction(place).None? then Outcome(m, arr, Replied(InvSyntax))
      else var (m1, r) := DoLInsert(m, key, Direction(place).value, pivot, val); Outcome(m1, arr, Replied(r))
    case LSet(key, index, val) =>
      if Parse(index).None? then Outcome(m, arr, Replied(InvInt))
      else var (m1, r) := DoLSet(m, key, Parse(index).value, val); Outcome(m1, arr, Replied(r))
    case Del(keys) =>
      if keys == [] then Outcome(m, arr, Replied(NumArgs))
      else var (m1, n) := DoDel(m, keys); Outcome(m1, arr, Replied(Int(n)))
    case Rename(key, newKey) => var (m1, r) := DoRename(m, key, newKey); Outcome(m1, arr, Replied(r))
    case Set(key, text) => Outcome(m[key := Str(text)], arr, Replied(Ok))
  }

  // ---- requests, the pending list and the tick ------------------------------

  /** A pending BLPOP or BRPOP: who waits, since when, and for how many seconds. */
  datatype Action = Action(id: nat, client: nat, cmd: Cmd, since: Micros, timeout: int)

  datatype Answer = Answer(id: nat, client: nat, cmd: Cmd, reply: Reply)

  /** The server between events. readings counts the readings of the clock and
      issued the requests received so far; both only name things. */
  datatype Server = Server(keys: Keys, arr: seq<Item>, pending: seq<Action>, readings: nat, issued: nat)

  /** A server that was just started. */
  const START := Server(map[], [], [], 0, 0)

  datatype Event = Request(client: nat, cmd: Cmd) | Tick

  const INT32_MAX := 0x7fff_ffff
  const MICROS := 1_000_000
  const TIME_LIMIT := 0x8000_0000_0000_0000 * MICROS

  /** A time in microseconds, of which the seconds fit a 64-bit time_t. */
  type Micros = t: int | -TIME_LIMIT <= t < TIME_LIMIT

  /** The k-th reading of the clock. */
  type Clock = nat -> Micros

  /** The time elapsed between two readings takes at most 26 bytes, well within TIME_LEN. */
  lemma TimeTextShort(since: Micros, now: Micros)
    ensures |TimeText(now - since)| <= 26
  {
    var us := now - since;
    var n := if us < 0 then -us else us;
    var h := (n + 5_000) / 10_000;
    assert h / 100 < 100_000_000_000_000_000_000;
    Pow10Of19();
    assert Pow10(20) == 10 * Pow10(19);
    DigitsLength(h / 100, 20);
  }

  /** What process_request makes of a finished blocking command: the reply array, whatever the
      command itself replied, if it can be sent. */
  function BlockingReply(ret: Ret, arr: seq<Item>): Reply {
    match ret
    case Replied(Crash) => Crash
    case Replied(_) => if FitsReply(arr) then Stale(arr) else StaleUnsent(arr)
    case Filled => if FitsReply(arr) then Arr(arr) else Unsent(arr)
    case Blocked => Nil
  }

  /** The items after the text of the elapsed time is written: there is one text, and every
      item that shows a time points to it. */
  function Retimed(items: seq<Item>, us: int): (r: seq<Item>)
    ensures |r| == |items|
    ensures forall i :: 0 <= i < |items| ==> r[i] == if items[i].Elapsed? then Elapsed(us) else items[i]
    ensures (forall i :: 0 <= i < |items| ==> !items[i].Elapsed?) ==> r == items
  {
    seq(|items|, i requires 0 <= i < |items| => if items[i].Elapsed? then Elapsed(us) else items[i])
  }

  /** The reply array when the elapsed time is written and added to it. */
  function Timed(items: seq<Item>, us: int): seq<Item> {
    AddTo(Retimed(items, us), Elapsed(us))
  }

  /** What do_hanging_jobs sends for it: the array with the time added, or if that cannot be
      sent what process_request made of it without. If that had shown a time itself, it is
      written over with another one. */
  function TickReply(ret: Ret, before: seq<Item>, us: int): Reply {
    if FitsReply(Timed(before, us)) then BlockingReply(ret, Timed(before, us))
    else if Retimed(before, us) == before || ret == Replied(Crash) then BlockingReply(ret, before)
    else Garbled(before, Retimed(before, us))
  }

  /** The timeout that a text gives, if it is acceptable. */
  function Seconds(text: Bytes): Option<int> {
    if Parse(text).Some? && 0 <= Parse(text).value <= INT32_MAX then Parse(text) else None
  }

  /** Which of the two errors a refused timeout earns, by what strtoll made of it. */
  function TimeoutError(text: Bytes): Reply {
    if Read(text) < 0 then NegTimeout else InvTimeout
  }

  function Receive(sv: Server, client: nat, cmd: Cmd, clock: Clock): (Server, seq<Answer>) {
    var id := sv.issued;
    var sv1 := sv.(issued := id + 1);
    if cmd.BPop? && Seconds(cmd.timeout).None? then
      (sv1, [Answer(id, client, cmd, TimeoutError(cmd.timeout))])
    else
      var out := Exec(sv.keys, sv.arr, cmd);
      var sv2 := sv1.(keys := out.keys, arr := out.arr);
      if cmd.BPop? then
        if out.ret == Blocked then
          (sv2.(pending := [Action(id, client, cmd, clock(sv.readings), Seconds(cmd.timeout).value)] + sv.pending,
                readings := sv.readings + 1), [])
        else (sv2, [Answer(id, client, cmd, BlockingReply(out.ret, out.arr))])
      else (sv2, [Answer(id, client, cmd, out.ret.reply)])
  }

  predicate Expired(a: Action, now: Micros) {
    a.timeout != 0 && now - a.since >= a.timeout * MICROS
  }

  /** One visit of do_hanging_jobs: the new key space and reply array, and the
      reply if the action is done. */
  function Visit(m: Keys, arr: seq<Item>, a: Action, now: Micros): (Keys, seq<Item>, Option<Reply>) {
    var us := now - a.since;
    if Expired(a, now) then
      (m, Timed([NilItem], us), Some(BlockingReply(Filled, Timed([NilItem], us))))
    else
      var out := Exec(m, arr, a.cmd);
      if out.ret == Blocked then (out.keys, out.arr, None)
      else (out.keys, Timed(out.arr, us), Some(TickReply(out.ret, out.arr, us)))
  }

  datatype Sweep = Sweep(keys: Keys, arr: seq<Item>, left: seq<Action>, answers: seq<Answer>)

  function SweepFrom(m: Keys, arr: seq<Item>, todo: seq<Action>, readings: nat, clock: Clock): Sweep
    decreases |todo|
  {
    if todo == [] then Sweep(m, arr, [], [])
    else
      var a := todo[0];
      var (m1, arr1, done) := Visit(m, arr, a, clock(readings));
      var rest := SweepFrom(m1, arr1, todo[1..], readings + 1, clock);
      match done
      case None => rest.(left := [a] + rest.left)
      case Some(r) => rest.(answers := [Answer(a.id, a.client, a.cmd, r)] + rest.answers)
  }

  /** The whole sweep seen from a point on the way: some actions kept and some
      answers sent so far, and the sweep of the rest. */
  predicate Midway(whole: Sweep, kept: seq<Action>, sent: seq<Answer>, rest: Sweep) {
    whole == Sweep(rest.keys, rest.arr, kept + rest.left, sent + rest.answers)
  }

  lemma SweepOne(whole: Sweep, m: Keys, arr: seq<Item>, c: seq<Action>, k: nat, sent: seq<Answer>,
                 readings: nat, clock: Clock)
    requires k < |c| && Midway(whole, c[..k], sent, SweepFrom(m, arr, c[k..], readings, clock))
    ensures var (m1, arr1, done) := Visit(m, arr, c[k], clock(readings));
      match done
      case None => Midway(whole, c[..k + 1], sent, SweepFrom(m1, arr1, c[k + 1..], readings + 1, clock))
      case Some(r) =>
        Midway(whole, c[..k], sent + [Answer(c[k].id, c[k].client, c[k].cmd, r)],
               SweepFrom(m1, arr1, c[k + 1..], readings + 1, clock))
  {
    hide Visit;
    var (m1, arr1, done) := Visit(m, arr, c[k], clock(readings));
    var rest := SweepFrom(m1, arr1, c[k + 1..], readings + 1, clock);
    assert c[k..][1..] == c[k + 1..];
    match done {
      case None => assert c[..k] + ([c[k]] + rest.left) == c[..k + 1] + rest.left;
      case Some(r) =>
        var x := [Answer(c[k].id, c[k].client, c[k].cmd, r)];
        assert sent + (x + rest.answers) == (sent + x) + rest.answers;
    }
  }

  /** Where the sweep starts and where it ends. */
  lemma SweepEnds(m: Keys, arr: seq<Item>, c: seq<Action>, k: nat, sent: seq<Answer>, whole: Sweep,
                  readings: nat, clock: Clock)
    ensures Midway(SweepFrom(m, arr, c, readings, clock), c[..0], [], SweepFrom(m, arr, c[0..], readings, clock))
    ensures k == |c| && Midway(whole, c[..k], sent, SweepFrom(m, arr, c[k..], readings, clock)) ==>
      whole == Sweep(m, arr, c, sent)
  {
    var s := SweepFrom(m, arr, c, readings, clock);
    assert c[0..] == c && [] + s.left == s.left && [] + s.answers == s.answers;
    if k == |c| {
      assert c[..k] + [] == c && c[k..] == [] && sent + [] == sent;
    }
  }

  function DoTick(sv: Server, clock: Clock): (Server, seq<Answer>) {
    var s := SweepFrom(sv.keys, sv.arr, sv.pending, sv.readings, clock);
    (sv.(keys := s.keys, arr := s.arr, pending := s.left, readings := sv.readings + |sv.pending|), s.answers)
  }

  lemma TickIs(sv: Server, sv1: Server, sent: seq<Answer>, clock: Clock)
    requires SweepFrom(sv.keys, sv.arr, sv.pending, sv.readings, clock) == Sweep(sv1.keys, sv1.arr, sv1.pending, sent)
    requires sv1.readings == sv.readings + |sv.pending| && sv1.issued == sv.issued
    ensures (sv1, sent) == DoTick(sv, clock)
  {
  }

  function Step(sv: Server, e: Event, clock: Clock): (Server, seq<Answer>) {
    match e
    case Request(client, cmd) => Receive(sv, client, cmd, clock)
    case Tick => DoTick(sv, clock)
  }

  /** A whole run: the server at the end and every answer sent, in order. */
  function Run(sv: Server, events: seq<Event>, clock: Clock): (Server, seq<Answer>)
    decreases |events|
  {
    if events == [] then (sv, [])
    else
      var (sv1, sent) := Step(sv, events[0], clock);
      var (sv2, later) := Run(sv1, events[1..], clock);
      (sv2, sent + later)
  }

  /** A run of two events, and one of three. */
  lemma ShortRuns(sv: Server, e1: Event, e2: Event, e3: Event, clock: Clock)
    ensures var (sv1, a1) := Step(sv, e1, clock);
      var (sv2, a2) := Step(sv1, e2, clock);
      var (sv3, a3) := Step(sv2, e3, clock);
      && Run(sv, [e1, e2], clock) == (sv2, a1 + a2)
      && Run(sv, [e1, e2, e3], clock) == (sv3, a1 + (a2 + a3))
  {
    var (sv1, a1) := Step(sv, e1, clock);
    var (sv2, a2) := Step(sv1, e2, clock);
    var (sv3, a3) := Step(sv2, e3, clock);
    assert [e1, e2][1..] == [e2] && [e2][1..] == [] && [e3][1..] == [];
    assert [e1, e2, e3][1..] == [e2, e3] && [e2, e3][1..] == [e3];
    assert Run(sv1, [e2], clock) == (sv2, a2 + []);
    assert Run(sv2, [e3], clock) == (sv3, a3 + []);
    assert a2 + [] == a2 && a3 + [] == a3;
  }
}
