/** A client's full scan of a chained table that others change between its calls. */
module ScanRuns {
  import opened Bytes
  import opened Buckets
  import opened Decimals
  import opened ReplyArrays
  import opened Walks
  import opened Masks
  import opened Dicts
  import opened DictRuns
  import opened Scans

  /** What becomes of a map by the operations that come before turn i. */
  function MapAt<V>(m0: Store<V>, between: nat -> seq<Op<V>>, i: nat): Store<V> {
    if i == 0 then m0 else ApplyAll(MapAt(m0, between, i - 1), between(i - 1))
  }

  /** The key is there at each of the first n turns. */
  ghost predicate Stays<V>(k: Bytes, m0: Store<V>, between: nat -> seq<Op<V>>, n: nat) {
    forall i: nat :: i < n ==> k in MapAt(m0, between, i)
  }

  /** It is there at none of them. */
  ghost predicate StaysAway<V>(k: Bytes, m0: Store<V>, between: nat -> seq<Op<V>>, n: nat) {
    forall i: nat :: i < n ==> k !in MapAt(m0, between, i)
  }

  /** Feed the cursor back until 0 comes back, adding the keys to the reply array. The table
      undergoes between(i) after the i-th call. However it changes, a key that stays is
      reported exactly once, and a key that is never there when it is looked for is not
      reported; the array holds all that was reported exactly if that is at most 255 keys. */
  method ScanAll<V>(d: Dict<V>, between: nat -> seq<Op<V>>) returns (arr: seq<Ref>, ghost calls: seq<ScanCall<V>>)
    requires d.Valid()
    modifies d.repr
    ensures d.Valid() && d.SameShape() && FullScan(calls, d.hash, |d.table|)
    ensures |calls| == |d.table| && Undergone(calls, old(d.M), d.M, between)
    ensures arr == AddAll([], Refs(AllMet(calls))) && (arr == Refs(AllMet(calls)) <==> |AllMet(calls)| <= 255)
    ensures forall k ::
      && d.hash(k) % |d.table| < |d.table|
      && Count(AllMet(calls), k) == if k in MapAt(old(d.M), between, d.hash(k) % |d.table|) then 1 else 0
    ensures forall k :: Stays(k, old(d.M), between, |d.table|) ==> Count(AllMet(calls), k) == 1
    ensures forall k :: StaysAway(k, old(d.M), between, |d.table|) ==> Count(AllMet(calls), k) == 0
  {
    arr, calls := FeedBack(d, between);
    ScanLength(calls, d.hash, |d.table|);
    AddAllFits(Refs(AllMet(calls)));
    forall k
      ensures d.hash(k) % |d.table| < |d.table|
      ensures Count(AllMet(calls), k) == if k in MapAt(old(d.M), between, d.hash(k) % |d.table|) then 1 else 0
    {
      ScanReports(calls, d.hash, |d.table|, k);
    }
  }

  /** The loop of the client. */
  method FeedBack<V>(d: Dict<V>, between: nat -> seq<Op<V>>) returns (arr: seq<Ref>, ghost calls: seq<ScanCall<V>>)
    requires d.Valid()
    modifies d.repr
    ensures d.Valid() && d.SameShape() && FullScan(calls, d.hash, |d.table|)
    ensures Undergone(calls, old(d.M), d.M, between) && arr == AddAll([], Refs(AllMet(calls)))
  {
    var cursor, done, i := 0, false, 0;
    arr, calls := [], [];
    CreateMask(d.power);
    while !done
      invariant d.Valid() && d.SameShape() && |d.table| == |old(d.table)|
      invariant Midway(calls, i, cursor, done, d.hash, |d.table|)
      invariant Undergone(calls, old(d.M), d.M, between) && arr == AddAll([], Refs(AllMet(calls)))
      decreases if done then 0 else |d.table| + (if i == 0 then 1 else 0) - cursor
    {
      NextMod(cursor, |d.table|);
      cursor, arr, calls := Turn(d, arr, calls, i, cursor, between, old(d.M));
      i := i + 1;
      done := cursor == 0;
    }
  }

  /** The first i calls of a scan. */
  ghost predicate Midway<V>(calls: seq<ScanCall<V>>, i: nat, cursor: nat, done: bool, hash: Bytes -> nat, size: nat) {
    && cursor < size <= UINT32_MOD
    && i == |calls| && Follows(calls, hash, size)
    && (i == 0 ==> cursor == 0 && !done)
    && (i > 0 ==> calls[0].cursor == 0 && calls[i - 1].next == cursor && (done <==> cursor == 0))
    && (forall j :: 0 <= j < i - 1 ==> calls[j].next != 0)
  }

  /** The maps that the calls found, and the one there is now. */
  ghost predicate Undergone<V>(calls: seq<ScanCall<V>>, m0: Store<V>, m: Store<V>, between: nat -> seq<Op<V>>) {
    && m == MapAt(m0, between, |calls|)
    && forall i :: 0 <= i < |calls| ==> calls[i].m == MapAt(m0, between, i)
  }

  /** The reply array after one call more. */
  lemma ArrayOneMore<V>(calls: seq<ScanCall<V>>, call: ScanCall<V>)
    ensures AddAll(AddAll([], Refs(AllMet(calls))), Refs(call.met)) == AddAll([], Refs(AllMet(calls + [call])))
  {
    RefsConcat([], AllMet(calls), call.met);
    MetConcat(calls, [call]);
    MetOne(call);
  }

  lemma UndergoneOneMore<V>(calls: seq<ScanCall<V>>, call: ScanCall<V>, m0: Store<V>, between: nat -> seq<Op<V>>)
    requires Undergone(calls, m0, call.m, between)
    ensures Undergone(calls + [call], m0, ApplyAll(call.m, between(|calls|)), between)
  {
    var more := calls + [call];
    assert forall i :: 0 <= i < |more| ==> more[i] == if i < |calls| then calls[i] else call;
  }

  /** What the others do between two calls. */
  method Undergo<V>(d: Dict<V>, ops: seq<Op<V>>)
    requires d.Valid()
    modifies d.repr
    ensures d.Valid() && d.SameShape() && |d.table| == old(|d.table|) && d.M == ApplyAll(old(d.M), ops)
  {
    PerformAll(d, ops);
  }

  /** One call, and what the others do after it. */
  method Turn<V>(d: Dict<V>, arr0: seq<Ref>, ghost calls0: seq<ScanCall<V>>, i: nat, cursor: nat,
                 between: nat -> seq<Op<V>>, ghost m0: Store<V>)
      returns (next: nat, arr: seq<Ref>, ghost calls: seq<ScanCall<V>>)
    requires arr0 == AddAll([], Refs(AllMet(calls0)))
    requires d.Valid() && Midway(calls0, i, cursor, false, d.hash, |d.table|) && Undergone(calls0, m0, d.M, between)
    modifies d.repr
    ensures d.Valid() && d.SameShape() && |d.table| == old(|d.table|)
    ensures Midway(calls, i + 1, next, next == 0, d.hash, |d.table|) && Undergone(calls, m0, d.M, between)
    ensures next == (cursor + 1) % |d.table| && arr == AddAll([], Refs(AllMet(calls)))
  {
    hide Dict.Valid, Undergone, MapAt, AddAll, AllMet, IsCall;
    ghost var call;
    next, arr, call := Scan(d, cursor, arr0);
    ArrayOneMore(calls0, call);
    SmallMod(cursor, |d.table|);
    calls := calls0 + [call];
    UndergoneOneMore(calls0, call, m0, between);
    if i > 0 { FollowsOneMore(calls0, call, d.hash, |d.table|); }
    Undergo(d, between(i));
  }

  // ---- a client of SSCAN ----------------------------------------------------------

  /** The cursor that the reply to one command begins with, if it begins with one. */
  function Told<V>(b: seq<ScanCall<V>>): (next: Option<nat>)
    ensures next.Some? ==> next.value < UINT32_MOD
  {
    var reply := Reply(b);
    if reply.TooLong? || reply.texts == [] then None
    else
      var number := Parse(reply.texts[0]);
      if number.Some? && 0 <= number.value < UINT32_MOD then Some(number.value) else None
  }

  /** The calls that a command made, on the map that there was and for its COUNT. */
  ghost predicate Found<V>(b: seq<ScanCall<V>>, hash: Bytes -> nat, size: nat, m: Store<V>, count: int)
    requires size > 0
  {
    IsBatch(b, hash, size) && StopsAt(b, count) && forall j :: 0 <= j < |b| ==> b[j].m == m
  }

  /** Commands one after the other, from cursor 0 on and each with the number that the reply
      before began with, as long as that is not 0. */
  ghost predicate Asked<V>(batches: seq<seq<ScanCall<V>>>, hash: Bytes -> nat, size: nat, m0: Store<V>,
                           counts: nat -> int, between: nat -> seq<Op<V>>)
  {
    && size > 0
    && (forall i {:trigger batches[i]} :: 0 <= i < |batches| ==>
          Found(batches[i], hash, size, MapAt(m0, between, i), counts(i)))
    && (batches != [] ==> From(batches[0]) == 0)
    && (forall i {:trigger From(batches[i])} :: 0 < i < |batches| ==>
          Told(batches[i - 1]) == Some(From(batches[i])) && From(batches[i]) != 0)
  }

  /** The cursor that a command was given. */
  function From<V>(b: seq<ScanCall<V>>): nat {
    if b == [] then 0 else b[0].cursor
  }

  lemma ToldWhole<V>(b: seq<ScanCall<V>>, hash: Bytes -> nat, size: nat)
    requires 0 < size <= UINT32_MOD && IsBatch(b, hash, size) && Whole(b)
    ensures Told(b) == Some(Next(b)) && Next(b) < size
  {
    LastNext(b, hash, size);
    ReplyWhole(b);
    PrintThenParse(Next(b));
  }

  /** If every one was answered in full and the last one with 0, the commands make a full scan. */
  lemma {:induction false} AskedToTheEnd<V>(batches: seq<seq<ScanCall<V>>>, hash: Bytes -> nat, size: nat,
                                           m0: Store<V>, counts: nat -> int, between: nat -> seq<Op<V>>, i: nat)
    requires Asked(batches, hash, size, m0, counts, between) && AllWhole(batches) && size <= UINT32_MOD
    requires i < |batches| && Told(batches[|batches| - 1]) == Some(0)
    ensures FullSScan(batches[i..], hash, size, From(batches[i]))
    decreases |batches| - i
  {
    hide Whole, Told, StopsAt, MapAt;
    ToldWhole(batches[i], hash, size);
    assert Found(batches[i], hash, size, MapAt(m0, between, i), counts(i));
    if i < |batches| - 1 {
      AskedToTheEnd(batches, hash, size, m0, counts, between, i + 1);
      assert batches[i..][1..] == batches[i + 1..];
    }
  }

  /** The calls of one command go up from its cursor. */
  lemma {:induction false} GoesUp<V>(b: seq<ScanCall<V>>, hash: Bytes -> nat, size: nat, j: nat)
    requires size > 0 && IsBatch(b, hash, size) && Next(b) != 0 && b[0].cursor < size && j < |b|
    ensures b[j].next == b[0].cursor + j + 1
  {
    if j > 0 { GoesUp(b, hash, size, j - 1); }
    assert IsCall(b[j], hash, size);
    NextMod(b[j].cursor, size);
  }

  lemma ToldHigher<V>(b: seq<ScanCall<V>>, hash: Bytes -> nat, size: nat)
    requires 0 < size <= UINT32_MOD && IsBatch(b, hash, size) && Whole(b) && Told(b) != Some(0) && From(b) < size
    ensures b != [] && Told(b) == Some(Next(b)) && From(b) < Next(b) < size
  {
    hide Whole, Told;
    ToldWhole(b, hash, size);
    GoesUp(b, hash, size, |b| - 1);
  }

  /** As long as 0 has not come back the commands cannot be more than the buckets. */
  lemma {:induction false} AskedFewer<V>(batches: seq<seq<ScanCall<V>>>, hash: Bytes -> nat, size: nat,
                                        m0: Store<V>, counts: nat -> int, between: nat -> seq<Op<V>>, i: nat)
    requires Asked(batches, hash, size, m0, counts, between) && AllWhole(batches) && size <= UINT32_MOD
    requires i < |batches| && Told(batches[|batches| - 1]) != Some(0)
    ensures batches[i] != [] && i < Next(batches[i]) < size && Told(batches[i]) == Some(Next(batches[i]))
  {
    hide Whole, Told, StopsAt, MapAt, IsBatch, Next, From;
    assert Found(batches[i], hash, size, MapAt(m0, between, i), counts(i));
    assert i < |batches| - 1 ==> Told(batches[i]) == Some(From(batches[i + 1]));
    if i > 0 {
      AskedFewer(batches, hash, size, m0, counts, between, i - 1);
      assert Told(batches[i - 1]) == Some(From(batches[i]));
    }
    ToldHigher(batches[i], hash, size);
  }

  /** One command and its reply: the client goes on with the number that the reply begins with,
      and gives up if there is none. */
  method Ask<V>(d: Dict<V>, cursor: nat, count: int)
      returns (next: Option<nat>, keys: seq<Bytes>, ghost b: seq<ScanCall<V>>)
    requires d.Valid() && cursor < UINT32_MOD
    ensures |d.table| > 0 && Found(b, d.hash, |d.table|, d.M, count) && From(b) == cursor
    ensures Batch(b, d.hash, d.table, d.M, cursor, Next(b))
    ensures next == Told(b) && keys == Reported([b])
  {
    var reply, came;
    reply, came, b := SScan(d, cursor, count);
    next, keys := None, [];
    assert [b][1..] == [] && keys + Reported([b][1..]) == keys;
    if reply.Sent? && reply.texts != [] {
      var number := Parse(reply.texts[0]);
      if number.Some? && 0 <= number.value < UINT32_MOD { next := Some(number.value); }
      keys := reply.texts[1..];
    }
  }

  lemma {:induction false} ReportedOneMore<V>(batches: seq<seq<ScanCall<V>>>, b: seq<ScanCall<V>>)
    ensures Reported(batches + [b]) == Reported(batches) + Reported([b])
  {
    if batches == [] {
      assert batches + [b] == [b];
    } else {
      assert (batches + [b])[1..] == batches[1..] + [b];
      ReportedOneMore(batches[1..], b);
    }
  }

  lemma AskedOneMore<V>(batches: seq<seq<ScanCall<V>>>, b: seq<ScanCall<V>>, hash: Bytes -> nat, size: nat,
                        m0: Store<V>, counts: nat -> int, between: nat -> seq<Op<V>>)
    requires Asked(batches, hash, size, m0, counts, between) &&
      Found(b, hash, size, MapAt(m0, between, |batches|), counts(|batches|))
    requires if batches == [] then From(b) == 0
             else Told(batches[|batches| - 1]) == Some(From(b)) && From(b) != 0
    ensures Asked(batches + [b], hash, size, m0, counts, between)
  {
    hide Told, Found, From, MapAt;
    var more := batches + [b];
    assert forall i :: 0 <= i < |more| ==> more[i] == if i < |batches| then batches[i] else b;
  }

  /** Whether 0 has come back. */
  ghost predicate Finished<V>(batches: seq<seq<ScanCall<V>>>) {
    batches != [] && Told(batches[|batches| - 1]) == Some(0)
  }

  lemma SeenOnce<V>(batches: seq<seq<ScanCall<V>>>, hash: Bytes -> nat, size: nat, m0: Store<V>,
                    counts: nat -> int, between: nat -> seq<Op<V>>, k: Bytes)
    requires Asked(batches, hash, size, m0, counts, between) && AllWhole(batches) && size <= UINT32_MOD
    requires Finished(batches)
    ensures Stays(k, m0, between, |batches|) ==> Count(Reported(batches), k) == 1
    ensures StaysAway(k, m0, between, |batches|) ==> Count(Reported(batches), k) == 0
  {
    AskedToTheEnd(batches, hash, size, m0, counts, between, 0);
    assert batches[0..] == batches;
    SScanGuarantee(batches, hash, size, k);
    var at := FlatFound(batches, hash, size, m0, counts, between, hash(k) % size);
    assert Flat(batches)[hash(k) % size].m == MapAt(m0, between, at);
  }

  /** Each call of all the commands found the map of one of the turns. */
  lemma {:induction false} FlatFound<V>(batches: seq<seq<ScanCall<V>>>, hash: Bytes -> nat, size: nat, m0: Store<V>,
                     counts: nat -> int, between: nat -> seq<Op<V>>, j: nat) returns (at: nat)
    requires Asked(batches, hash, size, m0, counts, between) && j < |Flat(batches)|
    ensures at < |batches| && Flat(batches)[j].m == MapAt(m0, between, at)
    decreases |batches|
  {
    hide StopsAt, MapAt, Told;
    var rest, last := batches[..|batches| - 1], batches[|batches| - 1];
    assert batches == rest + [last];
    FlatOneMore(rest, last);
    if j < |Flat(rest)| {
      assert Asked(rest, hash, size, m0, counts, between);
      at := FlatFound(rest, hash, size, m0, counts, between, j);
    } else {
      at := |batches| - 1;
      assert Found(last, hash, size, MapAt(m0, between, at), counts(at));
    }
  }

  lemma {:induction false} FlatOneMore<V>(batches: seq<seq<ScanCall<V>>>, b: seq<ScanCall<V>>)
    ensures Flat(batches + [b]) == Flat(batches) + b
  {
    if batches == [] {
      assert [b][1..] == [] && b + [] == b;
    } else {
      assert (batches + [b])[1..] == batches[1..] + [b];
      FlatOneMore(batches[1..], b);
    }
  }

  lemma GetsThere<V>(batches: seq<seq<ScanCall<V>>>, hash: Bytes -> nat, size: nat, m0: Store<V>,
                     counts: nat -> int, between: nat -> seq<Op<V>>, rounds: nat)
    requires Asked(batches, hash, size, m0, counts, between) && AllWhole(batches) && size <= UINT32_MOD
    requires |batches| <= rounds && (|batches| < rounds ==>
      batches != [] && (Finished(batches) || Told(batches[|batches| - 1]) == None))
    requires rounds >= size
    ensures Finished(batches)
  {
    hide Told, Whole, StopsAt, MapAt;
    var last := |batches| - 1;
    if batches != [] && !Finished(batches) {
      ToldWhole(batches[last], hash, size);
      AskedFewer(batches, hash, size, m0, counts, between, last);
    }
  }

  /** Commands with any COUNT arguments, for some number of rounds at most, while the set
      undergoes between(i) after the i-th of them. The client sees what the replies show,
      and stops when 0 comes back, when a reply does not begin with a number, or when the
      rounds are over. If every command was answered in full, then 0 comes back after at most
      as many rounds as there are buckets, and the client has seen each member that stayed
      exactly once and no key that was never there. */
  method AskAll<V>(d: Dict<V>, counts: nat -> int, between: nat -> seq<Op<V>>, rounds: nat)
      returns (done: bool, seen: seq<Bytes>, ghost batches: seq<seq<ScanCall<V>>>)
    requires d.Valid()
    modifies d.repr
    ensures d.Valid() && d.SameShape() && d.M == MapAt(old(d.M), between, |batches|)
    ensures Asked(batches, d.hash, |d.table|, old(d.M), counts, between) && seen == Reported(batches)
    ensures done <==> Finished(batches)
    ensures |batches| <= rounds && (|batches| < rounds ==>
      batches != [] && (done || Told(batches[|batches| - 1]) == None))
    ensures AllWhole(batches) && rounds >= |d.table| ==> done
    ensures done && AllWhole(batches) ==> forall k :: Stays(k, old(d.M), between, |batches|) ==> Count(seen, k) == 1
    ensures done && AllWhole(batches) ==> forall k :: StaysAway(k, old(d.M), between, |batches|) ==> Count(seen, k) == 0
  {
    hide Dict.Valid, Asked, AllWhole, Reported, Told, Stays, StaysAway;
    done, seen, batches := AskOn(d, counts, between, rounds);
    HasBuckets(d);
    if AllWhole(batches) {
      if done {
        forall k
          ensures Stays(k, old(d.M), between, |batches|) ==> Count(seen, k) == 1
          ensures StaysAway(k, old(d.M), between, |batches|) ==> Count(seen, k) == 0
        {
          SeenOnce(batches, d.hash, |d.table|, old(d.M), counts, between, k);
        }
      } else if rounds >= |d.table| {
        GetsThere(batches, d.hash, |d.table|, old(d.M), counts, between, rounds);
      }
    }
  }

  /** One turn of the loop of the client. */
  method AskOnce<V>(d: Dict<V>, counts: nat -> int, between: nat -> seq<Op<V>>, i: nat, cursor: nat,
                    seen0: seq<Bytes>, ghost m0: Store<V>, ghost batches0: seq<seq<ScanCall<V>>>)
      returns (next: Option<nat>, seen: seq<Bytes>, ghost batches: seq<seq<ScanCall<V>>>)
    requires d.Valid() && cursor < UINT32_MOD && i == |batches0|
    requires GoesOn(d, counts, between, cursor, seen0, m0, batches0)
    modifies d.repr
    ensures d.Valid() && d.SameShape() && |batches| == i + 1 && next == Told(batches[i])
    ensures |d.table| == old(|d.table|) && d.M == MapAt(m0, between, |batches|)
    ensures Asked(batches, d.hash, |d.table|, m0, counts, between) && seen == Reported(batches)
  {
    hide Dict.Valid, Asked, Told, Found, Reported, MapAt, Batch;
    var keys;
    ghost var b;
    next, keys, b := Ask(d, cursor, counts(i));
    seen, batches := seen0 + keys, batches0 + [b];
    ReportedOneMore(batches0, b);
    AskedOneMore(batches0, b, d.hash, |d.table|, m0, counts, between);
    MapAfter(m0, between, i);
    Undergo(d, between(i));
  }

  lemma MapAfter<V>(m0: Store<V>, between: nat -> seq<Op<V>>, i: nat)
    ensures MapAt(m0, between, i + 1) == ApplyAll(MapAt(m0, between, i), between(i))
  {
  }

  lemma HasBuckets<V>(d: Dict<V>)
    requires d.Valid()
    ensures 0 < |d.table| <= UINT32_MOD
  {
    CreateMask(d.power);
  }

  lemma NoneAsked<V>(hash: Bytes -> nat, size: nat, m0: Store<V>, counts: nat -> int, between: nat -> seq<Op<V>>)
    requires size > 0
    ensures Asked([], hash, size, m0, counts, between) && MapAt(m0, between, 0) == m0
    ensures Reported<V>([]) == []
  {
  }

  /** The client has come to a cursor to go on with. */
  ghost predicate GoesOn<V>(d: Dict<V>, counts: nat -> int, between: nat -> seq<Op<V>>, cursor: nat,
                            seen: seq<Bytes>, m0: Store<V>, batches: seq<seq<ScanCall<V>>>)
    reads d
  {
    && Asked(batches, d.hash, |d.table|, m0, counts, between) && seen == Reported(batches)
    && d.M == MapAt(m0, between, |batches|)
    && (if batches == [] then cursor == 0 else cursor != 0 && Told(batches[|batches| - 1]) == Some(cursor))
  }

  /** The loop of the client. */
  method AskOn<V>(d: Dict<V>, counts: nat -> int, between: nat -> seq<Op<V>>, rounds: nat)
      returns (done: bool, seen: seq<Bytes>, ghost batches: seq<seq<ScanCall<V>>>)
    requires d.Valid()
    modifies d.repr
    ensures d.Valid() && d.SameShape() && d.M == MapAt(old(d.M), between, |batches|)
    ensures Asked(batches, d.hash, |d.table|, old(d.M), counts, between) && seen == Reported(batches)
    ensures done <==> Finished(batches)
    ensures |batches| <= rounds && (|batches| < rounds ==>
      batches != [] && (done || Told(batches[|batches| - 1]) == None))
  {
    hide Dict.Valid, Asked, MapAt, Told, Reported;
    done, seen, batches := false, [], [];
    var cursor: nat := 0;
    HasBuckets(d);
    NoneAsked(d.hash, |d.table|, d.M, counts, between);
    for i := 0 to rounds
      invariant d.Valid() && d.SameShape() && |d.table| == |old(d.table)|
      invariant !done && cursor < UINT32_MOD && |batches| == i
      invariant GoesOn(d, counts, between, cursor, seen, old(d.M), batches)
    {
      var next;
      next, seen, batches := AskOnce(d, counts, between, i, cursor, seen, old(d.M), batches);
      if next == None { return; }
      cursor := next.value;
      if cursor == 0 { return true, seen, batches; }
    }
  }
}
