/** The contents of a chained hash table as values: each bucket is a sequence of
    key and value pairs, in chain order. */
module Buckets {
  import opened Bytes

  /** What an entry holds: an object, or the marker SET_VAL_PTR that every entry of
      a set holds. */
  datatype Slot<V> = Marker | Held(obj: V)

  type Pair<V> = (Bytes, Slot<V>)
  type Bucket<V> = seq<Pair<V>>
  type Table<V> = seq<Bucket<V>>

  function Get<V>(c: Bucket<V>, k: Bytes): Option<Slot<V>> {
    if c == [] then None else if c[0].0 == k then Some(c[0].1) else Get(c[1..], k)
  }

  function Lookup<V>(m: map<Bytes, Slot<V>>, k: Bytes): Option<Slot<V>> {
    if k in m then Some(m[k]) else None
  }

  ghost predicate Distinct<V>(c: Bucket<V>) {
    forall i, j :: 0 <= i < j < |c| ==> c[i].0 != c[j].0
  }

  /** Every key is in the bucket it hashes to, once. */
  ghost predicate Placed<V>(t: Table<V>, hash: Bytes -> nat)
    requires |t| > 0
  {
    && (forall b :: 0 <= b < |t| ==> Distinct(t[b]))
    && (forall b, i :: 0 <= b < |t| && 0 <= i < |t[b]| ==> hash(t[b][i].0) % |t| == b)
  }

  /** Looking a key up in its bucket is looking it up in m. */
  ghost predicate Stores<V>(t: Table<V>, m: map<Bytes, Slot<V>>, hash: Bytes -> nat)
    requires |t| > 0
  {
    forall k :: Get(t[hash(k) % |t|], k) == Lookup(m, k)
  }

  lemma {:induction false} GetAt<V>(c: Bucket<V>, i: nat)
    requires Distinct(c) && i < |c|
    ensures Get(c, c[i].0) == Some(c[i].1)
  {
    if i > 0 {
      assert c[0].0 != c[i].0;
      GetAt(c[1..], i - 1);
    }
  }

  lemma {:induction false} GetNone<V>(c: Bucket<V>, k: Bytes)
    requires forall i :: 0 <= i < |c| ==> c[i].0 != k
    ensures Get(c, k) == None
  {
    if c != [] { GetNone(c[1..], k); }
  }

  lemma {:induction false} GetSome<V>(c: Bucket<V>, k: Bytes) returns (i: nat)
    requires Get(c, k).Some?
    ensures i < |c| && c[i].0 == k && Get(c, k) == Some(c[i].1)
  {
    if c[0].0 == k {
      i := 0;
    } else {
      i := GetSome(c[1..], k);
      i := i + 1;
    }
  }

  lemma {:induction false} GetConcat<V>(c: Bucket<V>, d: Bucket<V>, k: Bytes)
    ensures Get(c + d, k) == if Get(c, k).Some? then Get(c, k) else Get(d, k)
  {
    if c == [] {
      assert c + d == d;
    } else {
      assert (c + d)[1..] == c[1..] + d;
      GetConcat(c[1..], d, k);
    }
  }

  lemma GetDrop<V>(c: Bucket<V>, p: nat, k: Bytes)
    requires Distinct(c) && p < |c|
    ensures Get(Drop(c, p), k) == if k == c[p].0 then None else Get(c, k)
  {
    assert c == c[..p] + ([c[p]] + c[p + 1..]);
    GetConcat(c[..p], [c[p]] + c[p + 1..], k);
    GetConcat([c[p]], c[p + 1..], k);
    GetConcat(c[..p], c[p + 1..], k);
    assert Get([c[p]], k) == if k == c[p].0 then Some(c[p].1) else None;
    if k == c[p].0 {
      GetNone(c[..p], k);
      GetNone(c[p + 1..], k);
    }
  }

  lemma GetUpdate<V>(c: Bucket<V>, p: nat, v: Slot<V>, k: Bytes)
    requires Distinct(c) && p < |c|
    ensures Get(c[p := (c[p].0, v)], k) == if k == c[p].0 then Some(v) else Get(c, k)
  {
    var d := c[p := (c[p].0, v)];
    assert Distinct(d);
    assert c == c[..p] + [c[p]] + c[p + 1..] && d == c[..p] + [d[p]] + c[p + 1..];
    GetConcat(c[..p] + [c[p]], c[p + 1..], k);
    GetConcat(c[..p], [c[p]], k);
    GetConcat(c[..p] + [d[p]], c[p + 1..], k);
    GetConcat(c[..p], [d[p]], k);
    if k == c[p].0 { GetAt(d, p); }
  }

  // ---- what one changed bucket does to the whole table ------------------------

  lemma RemoveAt<V>(t: Table<V>, m: map<Bytes, Slot<V>>, hash: Bytes -> nat, h: nat, p: nat)
    requires |t| > 0 && Placed(t, hash) && Stores(t, m, hash)
    requires h < |t| && p < |t[h]|
    ensures var t1 := t[h := Drop(t[h], p)];
      Placed(t1, hash) && Stores(t1, m - {t[h][p].0}, hash)
  {
    forall k ensures Get(Drop(t[h], p), k) == if k == t[h][p].0 then None else Get(t[h], k) {
      GetDrop(t[h], p, k);
    }
  }

  lemma AppendAt<V>(t: Table<V>, m: map<Bytes, Slot<V>>, hash: Bytes -> nat, h: nat, k: Bytes, v: Slot<V>)
    requires |t| > 0 && Placed(t, hash) && Stores(t, m, hash)
    requires h == hash(k) % |t| && k !in m
    ensures var t1 := t[h := t[h] + [(k, v)]];
      Placed(t1, hash) && Stores(t1, m[k := v], hash)
  {
    forall j ensures Get(t[h] + [(k, v)], j)
      == if Get(t[h], j).Some? then Get(t[h], j) else if j == k then Some(v) else None {
      GetConcat(t[h], [(k, v)], j);
    }
    forall i | 0 <= i < |t[h]| ensures t[h][i].0 != k {
      GetAt(t[h], i);
    }
  }

  lemma UpdateAt<V>(t: Table<V>, m: map<Bytes, Slot<V>>, hash: Bytes -> nat, h: nat, p: nat, v: Slot<V>)
    requires |t| > 0 && Placed(t, hash) && Stores(t, m, hash)
    requires h < |t| && p < |t[h]|
    ensures var k := t[h][p].0; var t1 := t[h := t[h][p := (k, v)]];
      Placed(t1, hash) && Stores(t1, m[k := v], hash)
  {
    forall j ensures Get(t[h][p := (t[h][p].0, v)], j) == if j == t[h][p].0 then Some(v) else Get(t[h], j) {
      GetUpdate(t[h], p, v, j);
    }
  }

  // ---- the keys of a table ----------------------------------------------------

  function KeySet<V>(c: Bucket<V>): set<Bytes> {
    if c == [] then {} else {c[0].0} + KeySet(c[1..])
  }

  /** The keys in the order a walk over all chains meets them. */
  function WalkKeys<V>(t: Table<V>): seq<Bytes> {
    if t == [] then [] else KeysOf(t[0]) + WalkKeys(t[1..])
  }

  function KeysOf<V>(c: Bucket<V>): (ks: seq<Bytes>)
    ensures |ks| == |c| && forall i :: 0 <= i < |c| ==> ks[i] == c[i].0
  {
    seq(|c|, i requires 0 <= i < |c| => c[i].0)
  }

  function AllKeys<V>(t: Table<V>): set<Bytes> {
    if t == [] then {} else KeySet(t[0]) + AllKeys(t[1..])
  }

  lemma {:induction false} KeySetConcat<V>(c: Bucket<V>, d: Bucket<V>)
    ensures KeySet(c + d) == KeySet(c) + KeySet(d)
  {
    if c == [] {
      assert c + d == d;
    } else {
      assert (c + d)[1..] == c[1..] + d;
      KeySetConcat(c[1..], d);
    }
  }

  lemma {:induction false} AllKeysConcat<V>(t: Table<V>, u: Table<V>)
    ensures AllKeys(t + u) == AllKeys(t) + AllKeys(u)
  {
    if t == [] {
      assert t + u == u;
    } else {
      assert (t + u)[1..] == t[1..] + u;
      AllKeysConcat(t[1..], u);
    }
  }

  lemma {:induction false} KeySetGet<V>(c: Bucket<V>, k: Bytes)
    ensures k in KeySet(c) <==> Get(c, k).Some?
  {
    if c != [] { KeySetGet(c[1..], k); }
  }

  lemma {:induction false} InAllKeys<V>(t: Table<V>, k: Bytes)
    ensures k in AllKeys(t) <==> exists b :: 0 <= b < |t| && Get(t[b], k).Some?
  {
    if t != [] {
      KeySetGet(t[0], k);
      InAllKeys(t[1..], k);
      if Get(t[0], k).None? && (exists b :: 0 <= b < |t| && Get(t[b], k).Some?) {
        var b :| 0 <= b < |t| && Get(t[b], k).Some?;
        assert Get(t[1..][b - 1], k).Some?;
      }
    }
  }

  lemma KeySetOneMore<V>(c: Bucket<V>, j: nat)
    requires j < |c|
    ensures KeySet(c[..j + 1]) == KeySet(c[..j]) + {c[j].0}
  {
    assert c[..j + 1] == c[..j] + [c[j]];
    KeySetConcat(c[..j], [c[j]]);
  }

  lemma AllKeysOneMore<V>(t: Table<V>, b: nat)
    requires b < |t|
    ensures AllKeys(t[..b + 1]) == AllKeys(t[..b]) + KeySet(t[b])
  {
    assert t[..b + 1] == t[..b] + [t[b]];
    AllKeysConcat(t[..b], [t[b]]);
  }

  /** A walk over all chains meets exactly the keys of the map. */
  lemma {:induction false} AllKeysAreStored<V>(t: Table<V>, m: map<Bytes, Slot<V>>, hash: Bytes -> nat)
    requires |t| > 0 && Placed(t, hash) && Stores(t, m, hash)
    ensures AllKeys(t) == m.Keys
  {
    forall k ensures k in AllKeys(t) <==> k in m {
      InAllKeys(t, k);
      if b :| 0 <= b < |t| && Get(t[b], k).Some? {
        InOneBucket(t, m, hash, b, k);
      } else {
        assert Get(t[hash(k) % |t|], k) == Lookup(m, k);
      }
    }
  }

  lemma {:induction false} CountInBucket<V>(c: Bucket<V>, k: Bytes)
    requires Distinct(c)
    ensures Count(KeysOf(c), k) == if Get(c, k).Some? then 1 else 0
  {
    if c != [] {
      assert KeysOf(c)[1..] == KeysOf(c[1..]);
      CountInBucket(c[1..], k);
      if c[0].0 == k { GetNone(c[1..], k); }
    }
  }

  /** Of buckets first and on, only the one k hashes to meets it. */
  lemma {:induction false} CountFrom<V>(t: Table<V>, m: map<Bytes, Slot<V>>, hash: Bytes -> nat, first: nat, k: Bytes)
    requires |t| > 0 && Placed(t, hash) && Stores(t, m, hash) && first <= |t|
    ensures Count(WalkKeys(t[first..]), k) == if k in m && hash(k) % |t| >= first then 1 else 0
    decreases |t| - first
  {
    if first < |t| {
      assert t[first..][1..] == t[first + 1..];
      CountFrom(t, m, hash, first + 1, k);
      CountConcat(KeysOf(t[first]), WalkKeys(t[first + 1..]), k);
      CountInBucket(t[first], k);
      InOneBucket(t, m, hash, first, k);
    }
  }

  lemma {:induction false} InOneBucket<V>(t: Table<V>, m: map<Bytes, Slot<V>>, hash: Bytes -> nat, b: nat, k: Bytes)
    requires |t| > 0 && Placed(t, hash) && Stores(t, m, hash) && b < |t|
    ensures Get(t[b], k).Some? <==> k in m && hash(k) % |t| == b
  {
    assert Get(t[hash(k) % |t|], k) == Lookup(m, k);
    if Get(t[b], k).Some? {
      var i := GetSome(t[b], k);
    }
  }

  /** A sequence in which each of some keys occurs once has as many elements. */
  lemma {:induction false} OnceEach(s: seq<Bytes>, ks: set<Bytes>)
    requires forall k :: Count(s, k) == if k in ks then 1 else 0
    ensures |s| == |ks|
  {
    if s == [] {
      assert forall k :: k !in ks;
      assert ks == {};
    } else {
      var rest := ks - {s[0]};
      forall k ensures Count(s[1..], k) == if k in rest then 1 else 0 {
        assert Count(s, k) == (if s[0] == k then 1 else 0) + Count(s[1..], k);
      }
      OnceEach(s[1..], rest);
      assert Count(s, s[0]) >= 1;
      assert ks == rest + {s[0]};
    }
  }

  /** A walk over all chains meets each key of the map exactly once, and no other. */
  lemma {:induction false} WalkMeetsEachKeyOnce<V>(t: Table<V>, m: map<Bytes, Slot<V>>, hash: Bytes -> nat, k: Bytes)
    requires |t| > 0 && Placed(t, hash) && Stores(t, m, hash)
    ensures Count(WalkKeys(t), k) == if k in m then 1 else 0
  {
    assert t[0..] == t;
    CountFrom(t, m, hash, 0, k);
  }

  lemma {:induction false} WalkConcat<V>(t: Table<V>, u: Table<V>)
    ensures WalkKeys(t + u) == WalkKeys(t) + WalkKeys(u)
  {
    if t == [] {
      assert t + u == u;
    } else {
      assert (t + u)[1..] == t[1..] + u;
      WalkConcat(t[1..], u);
    }
  }
}
