/** dict_scan and SSCAN: a cursor without state of its own, and what a client that
    feeds it back is guaranteed while the table changes between calls. */
module Scans {
  import opened Bytes
  import opened Masks
  import opened Buckets
  import opened Dicts
  import opened ReplyArrays
  import opened ReplyCodec
  import opened Walks
  import opened Decimals
  import ByteStrings

  /** One call of dict_scan: the table it found, and what it did. */
  datatype ScanCall<V> = ScanCall(cursor: nat, table: Table<V>, m: map<Bytes, Slot<V>>, met: seq<Bytes>, next: nat)

  ghost predicate IsCall<V>(c: ScanCall<V>, hash: Bytes -> nat, size: nat)
    requires size > 0
  {
    && |c.table| == size && Placed(c.table, hash) && Stores(c.table, c.m, hash)
    && c.met == KeysOf(c.table[c.cursor % size])
    && c.next == (c.cursor + 1) % size
  }

  /** Each call is made with the cursor the one before returned. */
  ghost predicate Follows<V>(calls: seq<ScanCall<V>>, hash: Bytes -> nat, size: nat)
    requires size > 0
  {
    && (forall i :: 0 <= i < |calls| ==> IsCall(calls[i], hash, size))
    && (forall i :: 0 < i < |calls| ==> calls[i].cursor == calls[i - 1].next)
  }

  /** dict_scan with addkey_to_arr. */
  method Scan<V>(d: Dict<V>, cursor: nat, arr0: seq<Ref>)
      returns (next: nat, arr: seq<Ref>, ghost call: ScanCall<V>)
    requires d.Valid() && cursor < UINT32_MOD
    ensures IsCall(call, d.hash, |d.table|)
    ensures call.cursor == cursor && call.next == next && call.table == d.table && call.m == d.M
    ensures arr == AddAll(arr0, Refs(call.met)) && next < |d.table| <= UINT32_MOD
  {
    AndMask(cursor, d.power);
    ghost var met;
    arr, met := AddChain(d, And(cursor, d.bitMask), arr0, []);
    var bumped := (cursor + 1) % UINT32_MOD;
    AndMask(bumped, d.power);
    next := And(bumped, d.bitMask);
    CreateMask(d.power);
    WrapIsMultiple(cursor, d.power);
    call := ScanCall(cursor, d.table, d.M, met, next);
  }

  lemma {:induction false} WrapIsMultiple(cursor: nat, p: nat)
    requires p < 32 && cursor < UINT32_MOD
    ensures ((cursor + 1) % UINT32_MOD) % Pow2(p) == (cursor + 1) % Pow2(p)
  {
    NextMod(cursor, UINT32_MOD);
    if cursor + 1 == UINT32_MOD {
      Pow2Of32();
      Pow2Split(32 - p, p);
      SmallMod(0, Pow2(p));
      ModIs(UINT32_MOD, Pow2(p), Pow2(32 - p), 0);
    }
  }

  // ---- a whole scan -------------------------------------------------------------

  function AllMet<V>(calls: seq<ScanCall<V>>): seq<Bytes> {
    if calls == [] then [] else calls[0].met + AllMet(calls[1..])
  }

  /** From cursor 0 until 0 comes back for the first time. */
  ghost predicate FullScan<V>(calls: seq<ScanCall<V>>, hash: Bytes -> nat, size: nat)
    requires size > 0
  {
    && Follows(calls, hash, size) && calls != []
    && calls[0].cursor == 0 && calls[|calls| - 1].next == 0
    && (forall i :: 0 <= i < |calls| - 1 ==> calls[i].next != 0)
  }

  lemma {:induction false} CursorAt<V>(calls: seq<ScanCall<V>>, hash: Bytes -> nat, size: nat, i: nat)
    requires size > 0 && FullScan(calls, hash, size) && i < |calls|
    ensures calls[i].cursor == i < size
    ensures i == size - 1 ==> i == |calls| - 1
  {
    if i > 0 {
      CursorAt(calls, hash, size, i - 1);
      assert IsCall(calls[i - 1], hash, size);
      NextMod(i - 1, size);
    }
    assert IsCall(calls[i], hash, size);
    NextMod(i, size);
  }

  /** A full scan takes exactly as many calls as there are buckets. */
  lemma ScanLength<V>(calls: seq<ScanCall<V>>, hash: Bytes -> nat, size: nat)
    requires size > 0 && FullScan(calls, hash, size)
    ensures |calls| == size
  {
    var last := |calls| - 1;
    CursorAt(calls, hash, size, last);
    assert IsCall(calls[last], hash, size);
    NextMod(last, size);
  }

  lemma {:induction false} MetFrom<V>(calls: seq<ScanCall<V>>, hash: Bytes -> nat, size: nat, first: nat, k: Bytes)
    requires size > 0 && FullScan(calls, hash, size) && |calls| == size && first <= size
    ensures Count(AllMet(calls[first..]), k)
         == if first <= hash(k) % size && k in calls[hash(k) % size].m then 1 else 0
    decreases size - first
  {
    if first < size {
      var c := calls[first];
      assert IsCall(c, hash, size);
      CursorAt(calls, hash, size, first);
      SmallMod(first, size);
      assert calls[first..][1..] == calls[first + 1..];
      CountConcat(c.met, AllMet(calls[first + 1..]), k);
      CountInBucket(c.table[first], k);
      InOneBucket(c.table, c.m, hash, first, k);
      MetFrom(calls, hash, size, first + 1, k);
    }
  }

  /** The scan guarantee. Whatever is added and removed between the calls, a key is
      reported exactly when it is there at the one call that visits its bucket, and
      then once. */
  lemma {:induction false} ScanReports<V>(calls: seq<ScanCall<V>>, hash: Bytes -> nat, size: nat, k: Bytes)
    requires size > 0 && FullScan(calls, hash, size)
    ensures |calls| == size && hash(k) % size < size
    ensures Count(AllMet(calls), k) == if k in calls[hash(k) % size].m then 1 else 0
  {
    ScanLength(calls, hash, size);
    assert calls[0..] == calls;
    MetFrom(calls, hash, size, 0, k);
  }

  /** A key that is there throughout a scan is reported exactly once; one that is never there is
      never reported. */
  lemma {:induction false} ScanGuarantee<V>(calls: seq<ScanCall<V>>, hash: Bytes -> nat, size: nat, k: Bytes)
    requires size > 0 && FullScan(calls, hash, size)
    ensures (forall c <- calls :: k in c.m) ==> Count(AllMet(calls), k) == 1
    ensures (forall c <- calls :: k !in c.m) ==> Count(AllMet(calls), k) == 0
  {
    ScanReports(calls, hash, size, k);
    assert calls[hash(k) % size] in calls;
  }

  lemma MetOne<V>(c: ScanCall<V>)
    ensures AllMet([c]) == c.met
  {
    assert AllMet([c]) == c.met + [];
  }

  // ---- SSCAN --------------------------------------------------------------------

  lemma FollowsOneMore<V>(calls: seq<ScanCall<V>>, call: ScanCall<V>, hash: Bytes -> nat, size: nat)
    requires size > 0 && Follows(calls, hash, size) && calls != []
    requires IsCall(call, hash, size) && call.cursor == calls[|calls| - 1].next
    ensures Follows(calls + [call], hash, size)
  {
    var more := calls + [call];
    assert forall i :: 0 <= i < |more| ==> more[i] == if i < |calls| then calls[i] else call;
  }

  /** The calls that one SSCAN command makes: none but the last one may return 0. */
  ghost predicate IsBatch<V>(b: seq<ScanCall<V>>, hash: Bytes -> nat, size: nat)
    requires size > 0
  {
    Follows(b, hash, size) && b != [] && (forall i :: 0 <= i < |b| - 1 ==> b[i].next != 0)
  }

  /** The calls that one SSCAN command has made so far, on a table that stays as it is. */
  ghost predicate Batch<V>(calls: seq<ScanCall<V>>, hash: Bytes -> nat, t: Table<V>, m: map<Bytes, Slot<V>>,
                           from: nat, cursor: nat)
    requires |t| > 0
  {
    && IsBatch(calls, hash, |t|)
    && calls[0].cursor == from && calls[|calls| - 1].next == cursor
    && (forall i :: 0 <= i < |calls| ==> calls[i].table == t && calls[i].m == m)
  }

  lemma {:induction false} BatchOneMore<V>(calls: seq<ScanCall<V>>, call: ScanCall<V>, hash: Bytes -> nat, t: Table<V>,
                        m: map<Bytes, Slot<V>>, from: nat, cursor: nat)
    requires |t| > 0 && Batch(calls, hash, t, m, from, cursor) && cursor != 0
    requires IsCall(call, hash, |t|) && call.cursor == cursor && call.table == t && call.m == m
    ensures Batch(calls + [call], hash, t, m, from, call.next)
    ensures AllMet(calls + [call]) == AllMet(calls) + call.met
  {
    FollowsOneMore(calls, call, hash, |t|);
    MetConcat(calls, [call]);
    MetOne(call);
  }

  /** The cursor that the last of some calls returned. */
  function Next<V>(calls: seq<ScanCall<V>>): nat
    requires calls != []
  {
    calls[|calls| - 1].next
  }

  /** What one SSCAN command replies: the cursor and the keys it met, as far as they are
      left in the reply array, or an error if they are too long. */
  function Reply<V>(calls: seq<ScanCall<V>>): Sending {
    if calls == [] then Sent([]) else Send(AddAll([Number], Refs(AllMet(calls))), Print(Next(calls)))
  }

  /** The cursor and the keys met fit in the reply array and in a reply. */
  predicate Whole<V>(calls: seq<ScanCall<V>>) {
    && calls != [] && |AllMet(calls)| <= 254
    && Sendable([Elem(16, Print(Next(calls)))] + KeyElems(AllMet(calls)))
  }

  lemma ReplyWhole<V>(b: seq<ScanCall<V>>)
    requires b != []
    ensures Reply(b) == Sent([Print(Next(b))] + AllMet(b)) <==> Whole(b)
  {
    NumberedWhole(AllMet(b), Print(Next(b)));
  }

  /** The reply array, with its number, is as long as COUNT asks for. */
  predicate Enough<V>(calls: seq<ScanCall<V>>, count: int) {
    (|AllMet(calls)| + 1) % LEN_MOD - 1 >= count
  }

  /** The calls stop at 0 or when there is enough, and not before. */
  ghost predicate StopsAt<V>(calls: seq<ScanCall<V>>, count: int) {
    && calls != [] && (Next(calls) == 0 || Enough(calls, count))
    && forall i :: 0 < i < |calls| ==> !Enough(calls[..i], count)
  }

  /** SSCAN on an existing set. The bound on rounds compares an unsigned count with zero
      and never stops the loop; COUNT is compared with the length of the reply array as it
      stands. The number put first in the array gets the cursor added to it at the end. */
  method SScan<V>(d: Dict<V>, cursor0: nat, count: int)
      returns (reply: Sending, cursor: nat, ghost calls: seq<ScanCall<V>>)
    requires d.Valid() && cursor0 < UINT32_MOD
    ensures Batch(calls, d.hash, d.table, d.M, cursor0, cursor) && reply == Reply(calls)
    ensures StopsAt(calls, count)
    ensures reply == Sent([Print(cursor)] + AllMet(calls)) <==> Whole(calls)
  {
    var number := new ByteStrings.Bss([48]);
    var arr;
    cursor, arr, calls := ScanLoop(d, cursor0, count);
    WhatIsSent(calls, arr);
    var text := CountUp(number, cursor);
    reply := Send(arr, text);
  }

  /** The array that the calls of one command leave behind. */
  lemma WhatIsSent<V>(calls: seq<ScanCall<V>>, arr: seq<Ref>)
    requires calls != [] && arr == AddAll([Number], Refs(AllMet(calls)))
    ensures Send(arr, Print(Next(calls))) == Reply(calls) && |arr| == (|AllMet(calls)| + 1) % LEN_MOD
    ensures Reply(calls) == Sent([Print(Next(calls))] + AllMet(calls)) <==> Whole(calls)
  {
    ReplyWhole(calls);
    NumberedWhole(AllMet(calls), Print(Next(calls)));
  }

  /** bss_incr on the number put first. */
  method CountUp(number: ByteStrings.Bss, cursor: nat) returns (text: Bytes)
    requires number.Valid() && number.Contents() == [48] && cursor < UINT32_MOD
    modifies number, number.str
    ensures text == Print(cursor)
  {
    PrintThenParse(0);
    assert Print(0) == [48];
    var ok := number.AddSub(cursor, 1);
    text := number.str[..number.len];
  }

  lemma EnoughIs<V>(calls: seq<ScanCall<V>>, arr: seq<Ref>, count: int)
    requires arr == AddAll([Number], Refs(AllMet(calls)))
    ensures Enough(calls, count) <==> |arr| - 1 >= count
  {
    NumberedWhole(AllMet(calls), []);
  }

  lemma OneCallMore<V>(calls: seq<ScanCall<V>>, call: ScanCall<V>, count: int)
    requires !Enough(calls, count) && forall i :: 0 < i < |calls| ==> !Enough(calls[..i], count)
    ensures forall i :: 0 < i < |calls + [call]| ==> !Enough((calls + [call])[..i], count)
  {
    forall i | 0 < i <= |calls| ensures !Enough((calls + [call])[..i], count) {
      assert (calls + [call])[..i] == calls[..i];
      assert calls[..|calls|] == calls;
    }
  }

  /** The number put first, and the do-while loop. */
  method ScanLoop<V>(d: Dict<V>, cursor0: nat, count: int)
      returns (cursor: nat, arr: seq<Ref>, ghost calls: seq<ScanCall<V>>)
    requires d.Valid() && cursor0 < UINT32_MOD
    ensures Batch(calls, d.hash, d.table, d.M, cursor0, cursor) && cursor < UINT32_MOD
    ensures arr == AddAll([Number], Refs(AllMet(calls))) && StopsAt(calls, count)
  {
    hide Dict.Valid, Enough, AddAll, AllMet, IsBatch;
    ghost var call;
    arr := AddTo([], Number);
    assert arr == [Number];
    cursor, arr, call := Scan(d, cursor0, arr);
    calls := [call];
    FirstCall(call, d.hash, d.table, d.M);
    EnoughIs(calls, arr, count);
    while cursor != 0 && |arr| - 1 < count
      invariant Batch(calls, d.hash, d.table, d.M, cursor0, cursor) && cursor < |d.table| <= UINT32_MOD
      invariant arr == AddAll([Number], Refs(AllMet(calls))) && (Enough(calls, count) <==> |arr| - 1 >= count)
      invariant calls != [] && forall i :: 0 < i < |calls| ==> !Enough(calls[..i], count)
      decreases if cursor == 0 then 0 else |d.table| - cursor
    {
      NextMod(cursor, |d.table|);
      ghost var before := cursor;
      cursor, arr, call := Scan(d, cursor, arr);
      RefsConcat([Number], AllMet(calls), call.met);
      BatchOneMore(calls, call, d.hash, d.table, d.M, cursor0, before);
      OneCallMore(calls, call, count);
      calls := calls + [call];
      EnoughIs(calls, arr, count);
    }
  }

  lemma FirstCall<V>(call: ScanCall<V>, hash: Bytes -> nat, t: Table<V>, m: map<Bytes, Slot<V>>)
    requires |t| > 0 && IsCall(call, hash, |t|) && call.table == t && call.m == m
    ensures Batch([call], hash, t, m, call.cursor, call.next) && AllMet([call]) == call.met
  {
    MetOne(call);
  }

  lemma {:induction false} MetConcat<V>(a: seq<ScanCall<V>>, b: seq<ScanCall<V>>)
    ensures AllMet(a + b) == AllMet(a) + AllMet(b)
  {
    if a == [] {
      assert a + b == b;
    } else {
      assert (a + b)[1..] == a[1..] + b;
      MetConcat(a[1..], b);
    }
  }

  /** The calls that a run of SSCAN commands makes, one batch for each command. */
  function Flat<V>(batches: seq<seq<ScanCall<V>>>): seq<ScanCall<V>> {
    if batches == [] then [] else batches[0] + Flat(batches[1..])
  }

  /** A client feeds each returned cursor back, starting at 0 and until 0 comes back. */
  ghost predicate FullSScan<V>(batches: seq<seq<ScanCall<V>>>, hash: Bytes -> nat, size: nat, from: nat)
    requires size > 0
    decreases |batches|
  {
    && batches != [] && IsBatch(batches[0], hash, size) && batches[0][0].cursor == from
    && var next := batches[0][|batches[0]| - 1].next;
       if |batches| == 1 then next == 0
       else next != 0 && FullSScan(batches[1..], hash, size, next)
  }

  lemma {:induction false} FlatScan<V>(batches: seq<seq<ScanCall<V>>>, hash: Bytes -> nat, size: nat, from: nat)
    requires size > 0 && FullSScan(batches, hash, size, from)
    ensures var calls := Flat(batches);
      && Follows(calls, hash, size) && calls != []
      && calls[0].cursor == from && calls[|calls| - 1].next == 0
      && (forall i :: 0 <= i < |calls| - 1 ==> calls[i].next != 0)
    decreases |batches|
  {
    var b, rest := batches[0], Flat(batches[1..]);
    if |batches| == 1 {
      assert Flat(batches) == b;
    } else {
      var next := Next(b);
      FlatScan(batches[1..], hash, size, next);
      var calls := b + rest;
      forall i | 0 < i < |calls| ensures calls[i].cursor == calls[i - 1].next {
        if i == |b| { assert calls[i] == rest[0] && calls[i - 1] == b[|b| - 1]; }
      }
      forall i | 0 <= i < |calls| - 1 ensures calls[i].next != 0 {
        if i >= |b| { assert calls[i] == rest[i - |b|]; }
      }
    }
  }

  /** The keys that the client is sent, reply by reply, behind the cursors. */
  function Reported<V>(batches: seq<seq<ScanCall<V>>>): seq<Bytes> {
    if batches == [] then []
    else
      var reply := Reply(batches[0]);
      (if reply.TooLong? || reply.texts == [] then [] else reply.texts[1..]) + Reported(batches[1..])
  }

  /** Every command is answered in full. */
  ghost predicate AllWhole<V>(batches: seq<seq<ScanCall<V>>>) {
    forall i :: 0 <= i < |batches| ==> Whole(batches[i])
  }

  lemma LastNext<V>(b: seq<ScanCall<V>>, hash: Bytes -> nat, size: nat)
    requires size > 0 && IsBatch(b, hash, size)
    ensures Next(b) < size
  {
    assert IsCall(b[|b| - 1], hash, size);
  }

  lemma {:induction false} ReportedIsMet<V>(batches: seq<seq<ScanCall<V>>>, hash: Bytes -> nat, size: nat, from: nat)
    requires size > 0 && FullSScan(batches, hash, size, from) && AllWhole(batches)
    ensures Reported(batches) == AllMet(Flat(batches))
    decreases |batches|
  {
    var b, rest := batches[0], batches[1..];
    ReplyWhole(b);
    MetConcat(b, Flat(rest));
    if |batches| > 1 {
      ReportedIsMet(rest, hash, size, Next(b));
    } else {
      assert rest == [];
    }
  }

  /** Each reply begins with the cursor that its command came to. */
  ghost predicate TellCursors<V>(batches: seq<seq<ScanCall<V>>>) {
    forall i :: 0 <= i < |batches| ==>
      && batches[i] != [] && Reply(batches[i]).Sent? && Reply(batches[i]).texts != []
      && Parse(Reply(batches[i]).texts[0]) == Some(Next(batches[i]))
  }

  lemma {:induction false} CursorsTold<V>(batches: seq<seq<ScanCall<V>>>, hash: Bytes -> nat, size: nat, from: nat)
    requires 0 < size <= UINT32_MOD && FullSScan(batches, hash, size, from) && AllWhole(batches)
    ensures TellCursors(batches)
    decreases |batches|
  {
    var b := batches[0];
    ReplyWhole(b);
    LastNext(b, hash, size);
    PrintThenParse(Next(b));
    if |batches| > 1 {
      CursorsTold(batches[1..], hash, size, Next(b));
      assert forall i :: 0 < i < |batches| ==> batches[i] == batches[1..][i - 1];
    }
  }

  /** Whatever the COUNT arguments of a client's SSCAN commands are, together they make one full
      scan, with its guarantee for the keys that were met. */
  lemma {:induction false} SScanMeets<V>(batches: seq<seq<ScanCall<V>>>, hash: Bytes -> nat, size: nat, k: Bytes)
    requires size > 0 && FullSScan(batches, hash, size, 0)
    ensures var calls := Flat(batches);
      && |calls| == size && hash(k) % size < size
      && Count(AllMet(calls), k) == if k in calls[hash(k) % size].m then 1 else 0
  {
    FlatScan(batches, hash, size, 0);
    ScanReports(Flat(batches), hash, size, k);
  }

  /** If every one of the commands is answered in full, each reply begins with the cursor to go
      on with, and a key that is there at the call that visits its bucket is sent exactly
      once, any other key never. */
  lemma {:induction false} SScanGuarantee<V>(batches: seq<seq<ScanCall<V>>>, hash: Bytes -> nat, size: nat, k: Bytes)
    requires 0 < size <= UINT32_MOD && FullSScan(batches, hash, size, 0) && AllWhole(batches)
    ensures TellCursors(batches)
    ensures var calls := Flat(batches);
      && |calls| == size && hash(k) % size < size
      && Count(Reported(batches), k) == if k in calls[hash(k) % size].m then 1 else 0
  {
    CursorsTold(batches, hash, size, 0);
    ReportedIsMet(batches, hash, size, 0);
    SScanMeets(batches, hash, size, k);
  }

  // ---- where a reply is lost ------------------------------------------------------

  /** A command that scans the whole set meets each member once. */
  lemma {:induction false} WholeSetMet<V>(calls: seq<ScanCall<V>>, hash: Bytes -> nat, t: Table<V>,
                                         m: map<Bytes, Slot<V>>)
    requires |t| > 0 && Batch(calls, hash, t, m, 0, 0)
    ensures |AllMet(calls)| == |m| && forall k :: Count(AllMet(calls), k) == if k in m then 1 else 0
  {
    forall k ensures Count(AllMet(calls), k) == if k in m.Keys then 1 else 0 {
      ScanReports(calls, hash, |t|, k);
    }
    OnceEach(AllMet(calls), m.Keys);
    assert |m.Keys| == |m|;
  }

  /** A command that scans the whole set is answered in full exactly if there are at
      most 254 members and they fit in a reply; with 255 the answer is empty, cursor and all. */
  lemma {:induction false} WholeSetReply<V>(calls: seq<ScanCall<V>>, hash: Bytes -> nat, t: Table<V>,
                                         m: map<Bytes, Slot<V>>)
    requires |t| > 0 && Batch(calls, hash, t, m, 0, 0)
    ensures Reply(calls) == Sent([Print(0)] + AllMet(calls))
      <==> |m| <= 254 && Sendable([Elem(16, Print(0))] + KeyElems(AllMet(calls)))
    ensures |m| == 255 ==> Reply(calls) == Sent([])
  {
    WholeSetMet(calls, hash, t, m);
    assert Next(calls) == 0;
    ReplyWhole(calls);
    if |m| == 255 { NothingLeft(AllMet(calls), Print(0)); }
  }

  /** 254 members of 5000 bytes each are answered with an error, without a cursor. */
  lemma {:induction false} LongKeysTooLong<V>(calls: seq<ScanCall<V>>)
    requires calls != [] && |AllMet(calls)| == 254 && forall i :: 0 <= i < 254 ==> |AllMet(calls)[i]| >= 5000
    ensures Reply(calls) == TooLong
  {
    var keys, number := AllMet(calls), Print(Next(calls));
    RoomAtLeast(keys, 5000);
    KeptTexts([Number], Refs(keys));
    SameTexts(keys, number);
    assert ([Elem(16, number)] + KeyElems(keys))[1..] == KeyElems(keys);
  }

  /** A set of 255 members and a COUNT of 255 or more: the number and the keys are 256 elements,
      and nothing at all comes back. */
  lemma {:induction false} LosesAll<V>(calls: seq<ScanCall<V>>, hash: Bytes -> nat, t: Table<V>,
                                    m: map<Bytes, Slot<V>>, cursor: nat, count: int)
    requires |t| > 0 && Batch(calls, hash, t, m, 0, cursor) && StopsAt(calls, count)
    requires |m| == 255 && count >= 255
    ensures cursor == 0 && Reply(calls) == Sent([])
  {
    assert !Enough(calls, count);
    WholeSetReply(calls, hash, t, m);
  }

  /** SADD of the one-byte keys below 255. */
  method Add255(hash: Bytes -> nat) returns (d: Dict<int>)
    ensures d.Valid() && fresh(d) && fresh(d.repr) && |d.M| == 255 && forall k :: k in d.M ==> |k| == 1
  {
    d := new Dict<int>(12, hash);
    for i := 0 to 255
      invariant d.Valid() && fresh(d.repr) && |d.M| == i
      invariant forall k :: k in d.M ==> |k| == 1 && k[0] < i
    {
      assert [i] !in d.M;
      d.Add([i], Marker);
    }
  }

  /** And then SSCAN 0 COUNT 1000. */
  method SScanLosesAll(hash: Bytes -> nat) returns (d: Dict<int>, reply: Sending, ghost calls: seq<ScanCall<int>>)
    ensures d.Valid() && |d.M| == 255 && (forall k :: k in d.M ==> |k| == 1)
    ensures Batch(calls, d.hash, d.table, d.M, 0, 0) && StopsAt(calls, 1000) && reply == Reply(calls) == Sent([])
  {
    hide Batch, StopsAt;
    d := Add255(hash);
    var cursor;
    reply, cursor, calls := SScan(d, 0, 1000);
    LosesAll(calls, d.hash, d.table, d.M, cursor, 1000);
  }
}
