/** SINTER, SDIFF and SUNION of server/commands.c: walks by dict_iter over chained
    tables, one of them over the very table its callback unlinks entries from. */
module SetOps {
  import opened Bytes
  import opened Buckets
  import opened Dicts
  import opened ReplyArrays
  import opened ReplyCodec
  import opened Walks

  /** The callbacks that dict_iter is given to change another table with. */
  datatype Callback = Copy | Union | Diff

  ghost predicate AllMarkers<V>(m: map<Bytes, Slot<V>>) {
    forall k :: k in m ==> m[k] == Marker
  }

  function Changed(cb: Callback, s: set<Bytes>, keys: set<Bytes>): set<Bytes> {
    if cb == Diff then s - keys else s + keys
  }

  method Call<V>(cb: Callback, dst: Dict<V>, key: Bytes)
    requires dst.Valid() && AllMarkers(dst.M)
    modifies dst.repr
    ensures dst.Valid() && AllMarkers(dst.M) && fresh(dst.repr - old(dst.repr))
    ensures dst.M.Keys == Changed(cb, old(dst.M).Keys, {key})
  {
    match cb {
      case Copy => dst.Add(key, Marker);
      case Union => dst.AddShallow(key, Marker);
      case Diff => var gone, p := dst.RmNf(key);
    }
  }

  lemma ChangedStep<V>(cb: Callback, s: set<Bytes>, c: Bucket<V>, j: nat)
    requires j < |c|
    ensures Changed(cb, Changed(cb, s, KeySet(c[..j])), {c[j].0}) == Changed(cb, s, KeySet(c[..j + 1]))
  {
    KeySetOneMore(c, j);
  }

  lemma ChangedBucket<V>(cb: Callback, s: set<Bytes>, t: Table<V>, b: nat)
    requires b < |t|
    ensures Changed(cb, Changed(cb, s, AllKeys(t[..b])), KeySet(t[b])) == Changed(cb, s, AllKeys(t[..b + 1]))
  {
    AllKeysOneMore(t, b);
  }

  /** One chain of dict_iter. */
  method IterChain<V>(src: Dict<V>, b: nat, cb: Callback, dst: Dict<V>)
    requires src.Valid() && dst.Valid() && src.repr !! dst.repr && AllMarkers(dst.M)
    requires b < |src.table|
    modifies dst.repr
    ensures dst.Valid() && AllMarkers(dst.M) && fresh(dst.repr - old(dst.repr))
    ensures dst.M.Keys == Changed(cb, old(dst.M).Keys, KeySet(src.table[b]))
  {
    var curr := src.hashTbl[b];
    ghost var j, chain, pairs, before := 0, src.chains[b], src.table[b], dst.M.Keys;
    assert Chained(curr, chain, pairs);
    while curr != null
      invariant j <= |pairs| && curr == if j < |pairs| then chain[j] else null
      invariant src.Valid() && Chained(src.hashTbl[b], chain, pairs)
      invariant dst.Valid() && AllMarkers(dst.M) && fresh(dst.repr - old(dst.repr))
      invariant dst.M.Keys == Changed(cb, before, KeySet(pairs[..j]))
      decreases |pairs| - j
    {
      var next := curr.next;
      assert curr.key == pairs[j].0;
      ChangedStep(cb, before, pairs, j);
      Call(cb, dst, curr.key);
      curr := next;
      j := j + 1;
    }
    assert pairs[..j] == pairs;
  }

  /** dict_iter with a callback that changes another table. */
  method Iter<V>(src: Dict<V>, cb: Callback, dst: Dict<V>)
    requires src.Valid() && dst.Valid() && src.repr !! dst.repr && AllMarkers(dst.M)
    modifies dst.repr
    ensures dst.Valid() && AllMarkers(dst.M) && fresh(dst.repr - old(dst.repr))
    ensures dst.M.Keys == Changed(cb, old(dst.M).Keys, src.M.Keys)
  {
    ghost var t, before := src.table, dst.M.Keys;
    for b := 0 to src.hashTbl.Length
      invariant src.Valid() && src.table == t
      invariant dst.Valid() && AllMarkers(dst.M) && fresh(dst.repr - old(dst.repr))
      invariant dst.M.Keys == Changed(cb, before, AllKeys(t[..b]))
    {
      ChangedBucket(cb, before, t, b);
      IterChain(src, b, cb, dst);
    }
    assert t[..|t|] == t;
    AllKeysAreStored(src.table, src.M, src.hash);
  }

  /** What is left of a walk that has passed the first n pairs of a chain and kept
      those the other set has. */
  function Kept<V>(c: Bucket<V>, keep: set<Bytes>): Bucket<V> {
    if c == [] then [] else (if c[0].0 in keep then [c[0]] else []) + Kept(c[1..], keep)
  }

  lemma {:induction false} KeptKeys<V>(c: Bucket<V>, keep: set<Bytes>)
    ensures KeySet(Kept(c, keep)) == KeySet(c) * keep
  {
    if c != [] {
      KeptKeys(c[1..], keep);
      KeySetConcat(if c[0].0 in keep then [c[0]] else [], Kept(c[1..], keep));
    }
  }

  lemma {:induction false} KeptOneMore<V>(c: Bucket<V>, n: nat, keep: set<Bytes>)
    requires n < |c|
    ensures Kept(c[..n + 1], keep) == Kept(c[..n], keep) + if c[n].0 in keep then [c[n]] else []
  {
    assert c[..n + 1][1..] == c[1..][..n];
    if n > 0 {
      assert c[..n][1..] == c[1..][..n - 1];
      KeptOneMore(c[1..], n - 1, keep);
    }
  }

  /** A chain of which the first n pairs have been visited. */
  function Partly<V>(all: Bucket<V>, n: nat, keep: set<Bytes>): Bucket<V>
    requires n <= |all|
  {
    Kept(all[..n], keep) + all[n..]
  }

  lemma PartlyStep<V>(all: Bucket<V>, n: nat, keep: set<Bytes>)
    requires n < |all|
    ensures var j, c := |Kept(all[..n], keep)|, Partly(all, n, keep);
      && j < |c| && c[j] == all[n]
      && if all[n].0 in keep then Partly(all, n + 1, keep) == c && |Kept(all[..n + 1], keep)| == j + 1
         else Partly(all, n + 1, keep) == Drop(c, j) && |Kept(all[..n + 1], keep)| == j
  {
    KeptOneMore(all, n, keep);
    var front := Kept(all[..n], keep);
    assert all[n..] == [all[n]] + all[n + 1..];
    assert front + ([all[n]] + all[n + 1..]) == (front + [all[n]]) + all[n + 1..];
    assert Drop(front + all[n..], |front|) == front + all[n + 1..];
  }

  /** The walk along bucket b has visited n of its pairs and is about to visit curr. */
  ghost predicate At<V>(d: Dict<V>, b: nat, all: Bucket<V>, n: nat, keep: set<Bytes>, curr: DictEntry?<V>)
    reads d, d.repr
  {
    && d.Valid() && b < |d.table| && n <= |all| && d.table[b] == Partly(all, n, keep)
    && var j := |Kept(all[..n], keep)|;
       curr == if j < |d.chains[b]| then d.chains[b][j] else null
  }

  /** The callback unlinks the current entry: the entry after it takes its place. */
  method RemoveAt<V>(d: Dict<V>, key: Bytes, ghost b: nat, ghost j: nat)
    requires d.Valid() && AllMarkers(d.M) && b < |d.table| && j < |d.table[b]| && d.table[b][j].0 == key
    modifies d.repr
    ensures d.Valid() && d.Same() && AllMarkers(d.M)
    ensures d.table == old(d.table)[b := Drop(old(d.table)[b], j)]
    ensures d.chains == old(d.chains)[b := Drop(old(d.chains)[b], j)]
  {
    GetAt(d.table[b], j);
    var gone, p := d.RmNf(key);
  }

  /** One turn of dict_iter with dict_inter_callback, which unlinks the current entry
      from the table being walked if the other set does not have its key. */
  method InterVisit<V>(d: Dict<V>, other: Dict<V>, curr: DictEntry<V>, ghost b: nat, ghost all: Bucket<V>, ghost n: nat)
      returns (next: DictEntry?<V>)
    requires d.repr !! other.repr && other.Valid() && AllMarkers(d.M)
    requires At(d, b, all, n, other.M.Keys, curr) && n < |all|
    modifies d.repr
    ensures d.Same() && AllMarkers(d.M) && At(d, b, all, n + 1, other.M.Keys, next)
    ensures |d.table| == |old(d.table)| && forall i :: 0 <= i < |d.table| && i != b ==> d.table[i] == old(d.table)[i]
  {
    assert Chained(d.hashTbl[b], d.chains[b], d.table[b]);
    PartlyStep(all, n, other.M.Keys);
    next := curr.next;
    var found := other.LookUp(curr.key);
    if found == None {
      RemoveAt(d, curr.key, b, |Kept(all[..n], other.M.Keys)|);
    }
  }

  method InterChain<V>(d: Dict<V>, b: nat, other: Dict<V>)
    requires d.Valid() && other.Valid() && d.repr !! other.repr && AllMarkers(d.M) && b < |d.table|
    modifies d.repr
    ensures d.Valid() && d.Same() && AllMarkers(d.M)
    ensures d.table == old(d.table)[b := Kept(old(d.table)[b], other.M.Keys)]
  {
    var curr := d.hashTbl[b];
    ghost var n: nat, all := 0, d.table[b];
    assert Chained(curr, d.chains[b], all);
    assert Kept(all[..0], other.M.Keys) + all == all;
    while curr != null
      invariant d.repr !! other.repr && other.Valid() && other.M == old(other.M)
      invariant d.Same() && AllMarkers(d.M) && At(d, b, all, n, other.M.Keys, curr)
      invariant |d.table| == |old(d.table)|
      invariant forall i :: 0 <= i < |d.table| && i != b ==> d.table[i] == old(d.table)[i]
      decreases |all| - n
    {
      assert Chained(d.hashTbl[b], d.chains[b], d.table[b]);
      curr := InterVisit(d, other, curr, b, all, n);
      n := n + 1;
    }
    assert Chained(d.hashTbl[b], d.chains[b], d.table[b]);
    assert n == |all| && all[..n] == all;
    assert Kept(all, other.M.Keys) + [] == Kept(all, other.M.Keys);
    assert d.table == old(d.table)[b := Kept(all, other.M.Keys)];
  }

  function KeptTable<V>(t: Table<V>, keep: set<Bytes>): (r: Table<V>)
    ensures |r| == |t|
  {
    if t == [] then [] else [Kept(t[0], keep)] + KeptTable(t[1..], keep)
  }

  lemma {:induction false} KeptTableKeys<V>(t: Table<V>, keep: set<Bytes>)
    ensures AllKeys(KeptTable(t, keep)) == AllKeys(t) * keep
  {
    if t != [] {
      KeptKeys(t[0], keep);
      KeptTableKeys(t[1..], keep);
    }
  }

  lemma {:induction false} KeptTableAt<V>(t: Table<V>, keep: set<Bytes>, b: nat)
    requires b < |t|
    ensures KeptTable(t, keep)[b] == Kept(t[b], keep)
  {
    if b > 0 { KeptTableAt(t[1..], keep, b - 1); }
  }

  /** dict_iter with dict_inter_callback. */
  method Inter<V>(d: Dict<V>, other: Dict<V>)
    requires d.Valid() && other.Valid() && d.repr !! other.repr && AllMarkers(d.M)
    modifies d.repr
    ensures d.Valid() && d.Same() && AllMarkers(d.M)
    ensures d.M.Keys == old(d.M).Keys * other.M.Keys
  {
    ghost var t, goal := d.table, KeptTable(d.table, other.M.Keys);
    AllKeysAreStored(d.table, d.M, d.hash);
    KeptTableKeys(t, other.M.Keys);
    for b := 0 to d.hashTbl.Length
      invariant d.Valid() && d.Same() && AllMarkers(d.M)
      invariant d.repr !! other.repr && other.Valid() && other.M == old(other.M)
      invariant |d.table| == |t|
      invariant (forall i :: 0 <= i < b ==> d.table[i] == goal[i]) && (forall i :: b <= i < |t| ==> d.table[i] == t[i])
    {
      KeptTableAt(t, other.M.Keys, b);
      InterChain(d, b, other);
    }
    assert d.table == goal;
    AllKeysAreStored(d.table, d.M, d.hash);
  }

  // ---- the commands -------------------------------------------------------------

  /** What an argument of a set command names in the key dictionary. */
  datatype Arg<V> = Missing | OtherType | SetAt(members: Dict<V>)

  ghost predicate ArgOk<V>(a: Arg<V>)
    reads if a.SetAt? then {a.members} + a.members.repr else {}
  {
    a.SetAt? ==> a.members.Valid()
  }

  ghost function Members<V>(a: Arg<V>): set<Bytes>
    reads if a.SetAt? then {a.members} else {}
  {
    if a.SetAt? then a.members.M.Keys else {}
  }

  datatype SetReply = WrongType | NumArgs | Array(sending: Sending)

  ghost predicate HasOther<V>(args: seq<Arg<V>>) {
    exists i :: 0 <= i < |args| && args[i].OtherType?
  }

  method AnyOtherType<V>(args: seq<Arg<V>>) returns (found: bool)
    ensures found <==> HasOther(args)
  {
    for i := 0 to |args|
      invariant forall j :: 0 <= j < i ==> !args[j].OtherType?
    {
      if args[i].OtherType? { return true; }
    }
    return false;
  }

  function UnionOf(sets: seq<set<Bytes>>): set<Bytes> {
    if sets == [] then {} else sets[0] + UnionOf(sets[1..])
  }

  /** s cut down to what each of the sets has too. */
  function InterFrom(s: set<Bytes>, sets: seq<set<Bytes>>): set<Bytes>
    decreases |sets|
  {
    if sets == [] then s else InterFrom(s * sets[0], sets[1..])
  }

  lemma {:induction false} InUnion(sets: seq<set<Bytes>>, k: Bytes)
    ensures k in UnionOf(sets) <==> exists i :: 0 <= i < |sets| && k in sets[i]
  {
    if sets != [] {
      InUnion(sets[1..], k);
      if i :| 0 <= i < |sets| && k in sets[i] {
        if i > 0 { assert k in sets[1..][i - 1]; }
      }
    }
  }

  lemma {:induction false} InInter(s: set<Bytes>, sets: seq<set<Bytes>>, k: Bytes)
    ensures k in InterFrom(s, sets) <==> k in s && forall i :: 0 <= i < |sets| ==> k in sets[i]
    decreases |sets|
  {
    if sets != [] {
      InInter(s * sets[0], sets[1..], k);
      assert (forall i :: 0 <= i < |sets| ==> k in sets[i])
        <==> k in sets[0] && forall i :: 0 <= i < |sets[1..]| ==> k in sets[1..][i];
    }
  }

  /** The members of the sets named, an absent key naming the empty set. */
  ghost function Named<V>(args: seq<Arg<V>>): (sets: seq<set<Bytes>>)
    reads set a | a in args && a.SetAt? :: a.members
    ensures |sets| == |args| && forall i :: 0 <= i < |args| ==> sets[i] == Members(args[i])
  {
    if args == [] then [] else [Members(args[0])] + Named(args[1..])
  }

  const NEW_DICT_POW := 12

  /** A table filled from a set by dict_cpy_callback. */
  method CopyOf<V>(src: Dict<V>, power: nat) returns (copy: Dict<V>)
    requires src.Valid() && power < 32
    ensures copy.Valid() && fresh(copy) && fresh(copy.repr) && AllMarkers(copy.M)
    ensures copy.M.Keys == src.M.Keys
  {
    copy := new Dict(power, src.hash);
    Iter(src, Copy, copy);
  }

  /** Each member was met once, in walking order, and the reply shows what the reply array has
      room for: all of them exactly if there are at most 255 and they fit in a reply. */
  ghost predicate Lists(reply: SetReply, met: seq<Bytes>, members: set<Bytes>) {
    && |met| == |members| && (forall k :: Count(met, k) == if k in members then 1 else 0)
    && reply == Array(Send(AddAll([], Refs(met)), []))
    && (reply == Array(Sent(met)) <==> |members| <= 255 && Sendable(KeyElems(met)))
  }

  /** Two members of 600000 bytes are answered with an error. */
  lemma LongMembersTooLong(reply: SetReply, met: seq<Bytes>, a: Bytes, b: Bytes)
    requires Lists(reply, met, {a, b}) && a != b && |a| == |b| == 600_000
    ensures reply == Array(TooLong)
  {
    assert |{a, b}| == 2;
    forall i | 0 <= i < |met| ensures |met[i]| >= 600_000 {
      CountAt(met, i);
    }
    RoomAtLeast(met, 600_000);
    KeptTexts([], Refs(met));
    assert [] + Refs(met) == Refs(met);
  }

  lemma ShowsNothing(members: set<Bytes>)
    requires members == {}
    ensures Lists(Array(Sent([])), [], members)
  {
    KeysWhole([]);
    assert KeyElems([]) == [] && Sendable([]);
  }

  method Show<V>(d: Dict<V>) returns (reply: SetReply, ghost met: seq<Bytes>)
    requires d.Valid()
    ensures Lists(reply, met, d.M.Keys)
  {
    var arr;
    arr, met := AddKeys(d);
    reply := Array(Send(arr, []));
    KeysWhole(met);
    forall k ensures Count(met, k) == if k in d.M.Keys then 1 else 0 {
      WalkMeetsEachKeyOnce(d.table, d.M, d.hash, k);
    }
    OnceEach(met, d.M.Keys);
  }

  lemma ChangedArg(cb: Callback, s: set<Bytes>, sets: seq<set<Bytes>>, i: nat)
    requires i < |sets|
    ensures Changed(cb, Changed(cb, s, sets[i]), UnionOf(sets[i + 1..])) == Changed(cb, s, UnionOf(sets[i..]))
    ensures sets[i] == {} ==> Changed(cb, s, UnionOf(sets[i + 1..])) == Changed(cb, s, UnionOf(sets[i..]))
  {
    assert sets[i..][1..] == sets[i + 1..];
  }

  /** The set named is not the one being worked on. */
  ghost predicate Clear<V>(a: Arg<V>, newSet: Dict<V>)
    reads newSet, if a.SetAt? then {a.members} else {}
  {
    a.SetAt? ==> a.members.repr !! newSet.repr
  }

  /** Apply a callback for every set named, from argument first on. */
  method IterArgs<V>(args: seq<Arg<V>>, first: nat, cb: Callback, newSet: Dict<V>, ghost sets: seq<set<Bytes>>)
    requires first <= |args| == |sets|
    requires forall i {:trigger args[i]} :: 0 <= i < |args| ==>
      ArgOk(args[i]) && Members(args[i]) == sets[i] && Clear(args[i], newSet)
    requires newSet.Valid() && AllMarkers(newSet.M)
    modifies newSet.repr
    ensures newSet.Valid() && AllMarkers(newSet.M) && fresh(newSet.repr - old(newSet.repr))
    ensures newSet.M.Keys == Changed(cb, old(newSet.M).Keys, UnionOf(sets[first..]))
  {
    for i := first to |args|
      invariant forall i {:trigger args[i]} :: 0 <= i < |args| ==>
        ArgOk(args[i]) && Members(args[i]) == sets[i] && Clear(args[i], newSet)
      invariant newSet.Valid() && AllMarkers(newSet.M) && fresh(newSet.repr - old(newSet.repr))
      invariant Changed(cb, newSet.M.Keys, UnionOf(sets[i..]))
        == Changed(cb, old(newSet.M).Keys, UnionOf(sets[first..]))
    {
      ChangedArg(cb, newSet.M.Keys, sets, i);
      IterArg(args[i], cb, newSet);
    }
  }

  method IterArg<V>(a: Arg<V>, cb: Callback, newSet: Dict<V>)
    requires ArgOk(a) && Clear(a, newSet)
    requires newSet.Valid() && AllMarkers(newSet.M)
    modifies newSet.repr
    ensures newSet.Valid() && AllMarkers(newSet.M) && fresh(newSet.repr - old(newSet.repr))
    ensures newSet.M.Keys == Changed(cb, old(newSet.M).Keys, old(Members(a)))
  {
    if a.SetAt? {
      Iter(a.members, cb, newSet);
    }
  }

  /** SUNION */
  method SUnion<V>(args: seq<Arg<V>>, hash: Bytes -> nat) returns (reply: SetReply, ghost met: seq<Bytes>)
    requires forall i :: 0 <= i < |args| ==> ArgOk(args[i])
    ensures |args| < 2 ==> reply == NumArgs
    ensures |args| >= 2 && HasOther(args) ==> reply == WrongType
    ensures |args| >= 2 && !HasOther(args) ==>
      Lists(reply, met, UnionOf(Named(args)))
  {
    met := [];
    if |args| < 2 { return NumArgs, met; }
    var other := AnyOtherType(args);
    if other { return WrongType, met; }
    reply, met := UnionOfAll(args, hash);
  }

  method UnionOfAll<V>(args: seq<Arg<V>>, hash: Bytes -> nat) returns (reply: SetReply, ghost met: seq<Bytes>)
    requires forall i :: 0 <= i < |args| ==> ArgOk(args[i])
    ensures Lists(reply, met, UnionOf(Named(args)))
  {
    ghost var sets := Named(args);
    var newSet := new Dict<V>(NEW_DICT_POW, hash);
    IterArgs(args, 0, Union, newSet, sets);
    assert sets[0..] == sets;
    assert newSet.M.Keys == UnionOf(sets);
    reply, met := Show(newSet);
    assert Lists(reply, met, UnionOf(sets));
  }

  /** SDIFF */
  method SDiff<V>(args: seq<Arg<V>>) returns (reply: SetReply, ghost met: seq<Bytes>)
    requires forall i :: 0 <= i < |args| ==> ArgOk(args[i])
    ensures |args| < 2 ==> reply == NumArgs
    ensures |args| >= 2 && HasOther(args) ==> reply == WrongType
    ensures |args| >= 2 && !HasOther(args) ==>
      Lists(reply, met, Named(args)[0] - UnionOf(Named(args)[1..]))
  {
    met := [];
    if |args| < 2 { return NumArgs, met; }
    var other := AnyOtherType(args);
    if other { return WrongType, met; }
    if args[0].Missing? {
      ShowsNothing(Named(args)[0] - UnionOf(Named(args)[1..]));
      return Array(Sent([])), met;
    }
    assert args[0].SetAt?;
    reply, met := DiffOf(args, args[0].members);
  }

  method DiffOf<V>(args: seq<Arg<V>>, set0: Dict<V>) returns (reply: SetReply, ghost met: seq<Bytes>)
    requires args != [] && args[0] == SetAt(set0) && forall i :: 0 <= i < |args| ==> ArgOk(args[i])
    ensures Lists(reply, met, Named(args)[0] - UnionOf(Named(args)[1..]))
  {
    ghost var sets := Named(args);
    assert ArgOk(args[0]);
    var newSet := CopyOf(set0, set0.power);
    IterArgs(args, 1, Diff, newSet, sets);
    assert newSet.M.Keys == sets[0] - UnionOf(sets[1..]);
    reply, met := Show(newSet);
    assert Lists(reply, met, sets[0] - UnionOf(sets[1..]));
  }

  /** The smallest set by its count of entries, and whether a key is missing. */
  method Smallest<V>(args: seq<Arg<V>>) returns (other: bool, missing: bool, least: Option<Dict<V>>, ghost at: nat)
    ensures other <==> HasOther(args)
    ensures !other ==> (missing <==> exists i :: 0 <= i < |args| && args[i].Missing?)
    ensures !other && !missing && args != [] ==>
      && at < |args| && least.Some? && args[at] == SetAt(least.value)
      && forall i :: 0 <= i < |args| ==> args[i].SetAt? && least.value.entryNum <= args[i].members.entryNum
  {
    other, missing, least, at := false, false, None, 0;
    for i := 0 to |args|
      invariant !other && forall j :: 0 <= j < i ==> !args[j].OtherType?
      invariant missing <==> exists j :: 0 <= j < i && args[j].Missing?
      invariant i > 0 && !missing ==> least.Some?
      invariant least.Some? ==> at < i && args[at] == SetAt(least.value)
      invariant forall j :: 0 <= j < i && args[j].SetAt? ==>
        least.Some? && least.value.entryNum <= args[j].members.entryNum
    {
      match args[i] {
        case OtherType => other := true; return;
        case Missing => missing := true;
        case SetAt(seti) =>
          if least == None || seti.entryNum < least.value.entryNum {
            least, at := Some(seti), i;
          }
      }
    }
  }

  /** The loop of sinter: cut the copy down by each set in turn. */
  method InterArgs<V>(args: seq<Arg<V>>, newSet: Dict<V>, ghost sets: seq<set<Bytes>>)
    requires |args| == |sets|
    requires forall i :: 0 <= i < |args| ==> ArgOk(args[i]) && args[i].SetAt? && Members(args[i]) == sets[i]
    requires newSet.Valid() && AllMarkers(newSet.M)
    requires forall i :: 0 <= i < |args| ==> args[i].members.repr !! newSet.repr
    modifies newSet.repr
    ensures newSet.Valid() && newSet.Same() && AllMarkers(newSet.M)
    ensures newSet.M.Keys == InterFrom(old(newSet.M).Keys, sets)
  {
    assert sets[0..] == sets;
    for i := 0 to |args|
      invariant forall i :: 0 <= i < |args| ==> ArgOk(args[i]) && Members(args[i]) == sets[i]
      invariant newSet.Valid() && newSet.Same() && AllMarkers(newSet.M)
      invariant InterFrom(newSet.M.Keys, sets[i..]) == InterFrom(old(newSet.M).Keys, sets)
    {
      assert sets[i..][1..] == sets[i + 1..];
      Inter(newSet, args[i].members);
    }
  }

  /** SINTER */
  method SInter<V>(args: seq<Arg<V>>) returns (reply: SetReply, ghost met: seq<Bytes>)
    requires forall i :: 0 <= i < |args| ==> ArgOk(args[i])
    ensures |args| < 2 ==> reply == NumArgs
    ensures |args| >= 2 && HasOther(args) ==> reply == WrongType
    ensures |args| >= 2 && !HasOther(args) ==>
      Lists(reply, met, InterFrom(Named(args)[0], Named(args)))
  {
    met := [];
    if |args| < 2 { return NumArgs, met; }
    ghost var sets := Named(args);
    var other, missing, least, at := Smallest(args);
    if other { return WrongType, met; }
    if missing {
      InterOfEmpty(sets[0], sets);
      ShowsNothing(InterFrom(sets[0], sets));
      return Array(Sent([])), met;
    }
    assert ArgOk(args[at]) && Members(args[at]) == sets[at];
    var newSet := CopyOf(least.value, NEW_DICT_POW);
    InterArgs(args, newSet, sets);
    InterFromAny(sets, at);
    reply, met := Show(newSet);
  }

  lemma InterOfEmpty(s: set<Bytes>, sets: seq<set<Bytes>>)
    requires exists i :: 0 <= i < |sets| && sets[i] == {}
    ensures InterFrom(s, sets) == {}
  {
    forall k ensures k !in InterFrom(s, sets) {
      InInter(s, sets, k);
    }
  }

  /** It does not matter which of the sets is copied first. */
  lemma InterFromAny(sets: seq<set<Bytes>>, at: nat)
    requires at < |sets|
    ensures InterFrom(sets[at], sets) == InterFrom(sets[0], sets)
  {
    forall k ensures k in InterFrom(sets[at], sets) <==> k in InterFrom(sets[0], sets) {
      InInter(sets[at], sets, k);
      InInter(sets[0], sets, k);
    }
  }
}
