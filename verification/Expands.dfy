/** dict_expand of server/dict.c: it moves whole chains to where their first entry
    belongs. What that does to the map, and exactly when it does no harm. */
module Expands {
  import opened Bytes
  import opened Masks
  import opened Buckets
  import opened Dicts

  /** The bucket in a table of n buckets where the head of a chain belongs. */
  function HeadBucket<V>(c: Bucket<V>, hash: Bytes -> nat, n: nat): nat
    requires n > 0 && c != []
  {
    hash(c[0].0) % n
  }

  /** The table as the loop fills it from the first k buckets. */
  function Moved<V>(t: Table<V>, hash: Bytes -> nat, n: nat, k: nat): (r: Table<V>)
    requires n > 0 && k <= |t|
    ensures |r| == n
  {
    if k == 0 then seq(n, _ => [])
    else
      var r0 := Moved(t, hash, n, k - 1);
      if t[k - 1] == [] then r0 else r0[HeadBucket(t[k - 1], hash, n) := t[k - 1]]
  }

  /** All the entries of each chain belong where its first one does. */
  ghost predicate HeadsAgree<V>(t: Table<V>, hash: Bytes -> nat, n: nat)
    requires n > 0
  {
    forall b, i :: 0 <= b < |t| && 0 <= i < |t[b]| ==> hash(t[b][i].0) % n == hash(t[b][0].0) % n
  }

  /** Widening the mask leaves the lower bits of a bucket alone. */
  lemma WiderBucket(x: nat, s: nat, c: nat, j: nat)
    requires s > 0 && c > 0 && c * s > 0 && j == x % (c * s)
    ensures j % s == x % s
  {
    var q := Quotient(x, c * s);
    Regroup(q, c, s);
    SameRemainder(x, s, q * c, j);
  }

  lemma Quotient(x: nat, m: nat) returns (q: nat)
    requires m > 0
    ensures x == q * m + x % m && x % m < m
  {
    q := x / m;
  }

  lemma Regroup(q: nat, c: nat, s: nat)
    ensures q * (c * s) == (q * c) * s
  {
  }

  lemma SameRemainder(x: nat, s: nat, k: nat, r: nat)
    requires s > 0 && x == k * s + r
    ensures r % s == x % s
  {
    var j, rest := r / s, r % s;
    assert r == j * s + rest;
    assert (k + j) * s == k * s + j * s;
    ModIs(x, s, k + j, rest);
  }

  /** Bucket j of the expanded table holds the chain of bucket j modulo the old size
      if that is where the chain's head went, and nothing otherwise. */
  lemma {:induction false} MovedAt<V>(t: Table<V>, hash: Bytes -> nat, n: nat, c: nat, k: nat, j: nat)
    requires Wider(t, n, c) && Placed(t, hash) && k <= |t| && j < n
    ensures var b := t[j % |t|];
      Moved(t, hash, n, k)[j] == if j % |t| < k && b != [] && HeadBucket(b, hash, n) == j then b else []
  {
    if k > 0 {
      MovedAt(t, hash, n, c, k - 1, j);
      if t[k - 1] != [] {
        WiderBucket(hash(t[k - 1][0].0), |t|, c, HeadBucket(t[k - 1], hash, n));
      }
    }
  }

  /** n buckets are c times as many as the table has. */
  ghost predicate Wider<V>(t: Table<V>, n: nat, c: nat) {
    |t| > 0 && c > 0 && n > 0 && n == c * |t|
  }

  /** After the expansion a key is found exactly if it belongs where the head of its
      chain went; otherwise its entry is there but no lookup reaches it. */
  lemma {:induction false} FoundAfterExpand<V>(t: Table<V>, m: map<Bytes, Slot<V>>, hash: Bytes -> nat,
                                              n: nat, c: nat, k: Bytes)
    requires Wider(t, n, c) && Placed(t, hash) && Stores(t, m, hash)
    ensures var b := t[hash(k) % |t|];
      Get(Moved(t, hash, n, |t|)[hash(k) % n], k)
      == if k in m && HeadBucket(b, hash, n) == hash(k) % n then Some(m[k]) else None
  {
    WiderBucket(hash(k), |t|, c, hash(k) % n);
    MovedAt(t, hash, n, c, |t|, hash(k) % n);
    assert Get(t[hash(k) % |t|], k) == Lookup(m, k);
  }

  /** Expansion keeps every lookup exactly when the heads speak for their chains. */
  lemma {:induction false} ExpandKeepsLookups<V>(t: Table<V>, m: map<Bytes, Slot<V>>, hash: Bytes -> nat,
                                                n: nat, c: nat)
    requires Wider(t, n, c) && Placed(t, hash) && Stores(t, m, hash)
    ensures Stores(Moved(t, hash, n, |t|), m, hash) <==> HeadsAgree(t, hash, n)
  {
    var t1: Table<V> := Moved(t, hash, n, |t|);
    forall k ensures Get(t1[hash(k) % n], k)
        == if k in m && HeadBucket(t[hash(k) % |t|], hash, n) == hash(k) % n then Some(m[k]) else None {
      FoundAfterExpand(t, m, hash, n, c, k);
    }
    if HeadsAgree(t, hash, n) {
      forall k ensures Get(t1[hash(k) % n], k) == Lookup(m, k) {
        assert Get(t[hash(k) % |t|], k) == Lookup(m, k);
        if k in m { var i := GetSome(t[hash(k) % |t|], k); }
      }
    } else {
      var b, i :| 0 <= b < |t| && 0 <= i < |t[b]| && hash(t[b][i].0) % n != hash(t[b][0].0) % n;
      GetAt(t[b], i);
      var k := t[b][i].0;
      assert Get(t[hash(k) % |t|], k) == Lookup(m, k);
      assert Get(t1[hash(k) % n], k) != Lookup(m, k);
    }
  }

  /** Expansion keeps every entry in its place exactly when the heads speak for their chains. */
  lemma {:induction false} ExpandKeepsPlaces<V>(t: Table<V>, hash: Bytes -> nat, n: nat, c: nat)
    requires Wider(t, n, c) && Placed(t, hash)
    ensures Placed(Moved(t, hash, n, |t|), hash) <==> HeadsAgree(t, hash, n)
  {
    var t1: Table<V> := Moved(t, hash, n, |t|);
    forall j | 0 <= j < n ensures t1[j] == [] || (t1[j] == t[j % |t|] && HeadBucket(t1[j], hash, n) == j) {
      MovedAt(t, hash, n, c, |t|, j);
    }
    if !HeadsAgree(t, hash, n) {
      var b, i :| 0 <= b < |t| && 0 <= i < |t[b]| && hash(t[b][i].0) % n != hash(t[b][0].0) % n;
      var j := HeadBucket(t[b], hash, n);
      WiderBucket(hash(t[b][0].0), |t|, c, j);
      MovedAt(t, hash, n, c, |t|, j);
      assert t1[j] == t[b];
      var e: Pair<V> := t1[j][i];
      assert hash(e.0) % n != j;
    }
  }

  // ---- the expansion that was meant -----------------------------------------------

  /** The pairs of a chain that belong in bucket j of n. */
  function Picked<V>(c: Bucket<V>, hash: Bytes -> nat, n: nat, j: nat): Bucket<V>
    requires n > 0
  {
    if c == [] then [] else (if hash(c[0].0) % n == j then [c[0]] else []) + Picked(c[1..], hash, n, j)
  }

  /** Each entry goes where it belongs itself, so that with twice as many buckets one is
      split into two. */
  function Split<V>(t: Table<V>, hash: Bytes -> nat, n: nat): Table<V>
    requires |t| > 0 && n > 0
  {
    seq(n, j requires 0 <= j < n => Picked(t[j % |t|], hash, n, j))
  }

  lemma {:induction false} PickedGet<V>(c: Bucket<V>, hash: Bytes -> nat, n: nat, j: nat, k: Bytes)
    requires n > 0
    ensures Get(Picked(c, hash, n, j), k) == if hash(k) % n == j then Get(c, k) else None
  {
    if c != [] {
      PickedGet(c[1..], hash, n, j, k);
      GetConcat(if hash(c[0].0) % n == j then [c[0]] else [], Picked(c[1..], hash, n, j), k);
    }
  }

  lemma {:induction false} PickedPlaces<V>(c: Bucket<V>, hash: Bytes -> nat, n: nat, j: nat)
    requires n > 0 && Distinct(c)
    ensures Distinct(Picked(c, hash, n, j))
    ensures forall p <- Picked(c, hash, n, j) :: p in c && hash(p.0) % n == j
  {
    if c != [] {
      PickedPlaces(c[1..], hash, n, j);
      forall p | p in Picked(c[1..], hash, n, j) ensures p in c && p.0 != c[0].0 {
        assert p in c[1..];
      }
    }
  }

  lemma {:induction false} PickedAll<V>(c: Bucket<V>, hash: Bytes -> nat, n: nat, j: nat)
    requires n > 0
    ensures (forall p <- c :: hash(p.0) % n == j) ==> Picked(c, hash, n, j) == c
    ensures (forall p <- c :: hash(p.0) % n != j) ==> Picked(c, hash, n, j) == []
  {
    if c != [] {
      assert c == [c[0]] + c[1..];
      PickedAll(c[1..], hash, n, j);
    }
  }

  lemma {:induction false} PickedCount<V>(c: Bucket<V>, hash: Bytes -> nat, s: nat, b: nat)
    requires s > 0 && b < s && forall i :: 0 <= i < |c| ==> hash(c[i].0) % s == b
    ensures |Picked(c, hash, 2 * s, b)| + |Picked(c, hash, 2 * s, b + s)| == |c|
  {
    if c != [] {
      PickedCount(c[1..], hash, s, b);
      OneOfTwo(hash(c[0].0), s);
    }
  }

  lemma OneOfTwo(x: nat, s: nat)
    requires s > 0
    ensures var r := x % (2 * s); r == x % s || r == x % s + s
  {
    var r := x % (2 * s);
    WiderBucket(x, s, 2, r);
    if r < s { SmallMod(r, s); } else { ModIs(r, s, 1, r - s); }
  }

  lemma {:induction false} SplitPlaces<V>(t: Table<V>, hash: Bytes -> nat, n: nat)
    requires |t| > 0 && n > 0 && Placed(t, hash)
    ensures Placed(Split(t, hash, n), hash)
  {
    var t1: Table<V> := Split(t, hash, n);
    forall j | 0 <= j < n ensures Distinct(t1[j]) && forall i :: 0 <= i < |t1[j]| ==> hash(t1[j][i].0) % n == j {
      PickedPlaces(t[j % |t|], hash, n, j);
      assert forall i :: 0 <= i < |t1[j]| ==> t1[j][i] in t1[j];
    }
  }

  lemma {:induction false} SplitFinds<V>(t: Table<V>, m: map<Bytes, Slot<V>>, hash: Bytes -> nat,
                                        n: nat, c: nat, k: Bytes)
    requires Wider(t, n, c) && Stores(t, m, hash)
    ensures Get(Split(t, hash, n)[hash(k) % n], k) == Lookup(m, k)
  {
    var j := hash(k) % n;
    WiderBucket(hash(k), |t|, c, j);
    PickedGet(t[j % |t|], hash, n, j, k);
    assert Get(t[hash(k) % |t|], k) == Lookup(m, k);
  }

  /** No entry is lost or doubled: with twice as many buckets each chain is divided
      between two of them. */
  lemma {:induction false} SplitCounts<V>(t: Table<V>, hash: Bytes -> nat, b: nat)
    requires |t| > 0 && Placed(t, hash) && b < |t|
    ensures var t1: Table<V> := Split(t, hash, 2 * |t|); |t1[b]| + |t1[b + |t|]| == |t[b]|
  {
    SmallMod(b, |t|);
    ModIs(b + |t|, |t|, 1, b);
    PickedCount(t[b], hash, |t|, b);
  }

  /** The expansion that was meant keeps every lookup and the placement of the entries. */
  lemma {:induction false} SplitKeepsTheMap<V>(t: Table<V>, m: map<Bytes, Slot<V>>, hash: Bytes -> nat, n: nat, c: nat)
    requires Wider(t, n, c) && Placed(t, hash) && Stores(t, m, hash)
    ensures Placed(Split(t, hash, n), hash) && Stores(Split(t, hash, n), m, hash)
  {
    SplitPlaces(t, hash, n);
    var t1: Table<V> := Split(t, hash, n);
    forall k ensures Get(t1[hash(k) % |t1|], k) == Lookup(m, k) {
      SplitFinds(t, m, hash, n, c, k);
    }
  }

  /** The expansion that is made is the one that was meant exactly when the heads speak
      for their chains. */
  lemma {:induction false} ExpandAsMeant<V>(t: Table<V>, hash: Bytes -> nat, n: nat, c: nat)
    requires Wider(t, n, c) && Placed(t, hash)
    ensures Moved(t, hash, n, |t|) == Split(t, hash, n) <==> HeadsAgree(t, hash, n)
  {
    SplitPlaces(t, hash, n);
    ExpandKeepsPlaces(t, hash, n, c);
    if HeadsAgree(t, hash, n) {
      forall j | 0 <= j < n ensures Moved(t, hash, n, |t|)[j] == Split(t, hash, n)[j] {
        MovedAt(t, hash, n, c, |t|, j);
        PickedAll(t[j % |t|], hash, n, j);
      }
    }
  }

  /** Two keys that collide before and not after: the second one is lost. */
  lemma ExpandCanLoseAKey(hash: Bytes -> nat)
    requires hash([0]) == 0 && hash([1]) == 1
    ensures var t: Table<int> := [[([0], Marker), ([1], Marker)]]; var m := map[[0] := Marker, [1] := Marker];
      && Placed(t, hash) && Stores(t, m, hash)
      && [1] in m && Get(Moved(t, hash, 2, 1)[hash([1]) % 2], [1]) == None
  {
    var c: Bucket<int> := [([0], Marker), ([1], Marker)];
    var t: Table<int> := [c];
    var m: map<Bytes, Slot<int>> := map[[0] := Marker, [1] := Marker];
    assert c[1..] == [([1], Marker)] && c[1..][1..] == [];
    assert Moved(t, hash, 2, 0) == seq(2, _ => []);
    forall k ensures Get(t[hash(k) % |t|], k) == Lookup(m, k) {
      assert hash(k) % 1 == 0;
      assert Get(c[1..][1..], k) == None;
      assert Get(c[1..], k) == if k == [1] then Some(Marker) else None;
      assert Get(c, k) == if k == [0] || k == [1] then Some(Marker) else None;
    }
  }

  /** dict_expand, to any power below 32 that is not smaller. */
  method Expand<V>(d: Dict<V>, power: nat)
    requires d.Valid() && d.power <= power < 32
    modifies d
    ensures d.power == power && d.M == old(d.M) && d.entryNum == old(d.entryNum)
    ensures d.table == Moved(old(d.table), d.hash, Pow2(power), |old(d.table)|)
    ensures d.Shaped() && d.AllChained()
    ensures d.Valid() <==> HeadsAgree(old(d.table), d.hash, Pow2(power))
  {
    var size := TableSize(power);
    CreateMask(power);
    var newMask := TableMask(power);
    var newTbl := new DictEntry?<V>[size](_ => null);
    ghost var chains := Rehash(d, newTbl, power, newMask);
    Pow2Split(power - d.power, d.power);
    ExpandKeepsPlaces(d.table, d.hash, size, Pow2(power - d.power));
    ExpandKeepsLookups(d.table, d.M, d.hash, size, Pow2(power - d.power));
    Install(d, newTbl, power, newMask, chains);
  }

  /** Update the dictionary with the new table. */
  method Install<V>(d: Dict<V>, newTbl: array<DictEntry?<V>>, power: nat, newMask: nat,
                     ghost chains: seq<seq<DictEntry<V>>>)
    requires d.Valid() && power < 32 && newTbl.Length == Pow2(power) && newMask == Pow2(power) - 1
    requires Filled(d, newTbl, chains, |d.table|)
    modifies d
    ensures d.power == power && d.M == old(d.M) && d.entryNum == old(d.entryNum)
    ensures d.table == Moved(old(d.table), d.hash, newTbl.Length, |old(d.table)|)
    ensures d.Shaped() && d.AllChained()
  {
    ghost var t := d.table;
    d.table := Moved(t, d.hash, newTbl.Length, |t|);
    d.chains := chains;
    d.hashTbl := newTbl;
    d.power := power;
    d.bitMask := newMask;
    d.repr := d.repr + {newTbl};
  }

  /** The entries of the new chains, as far as the first k buckets were moved. */
  ghost predicate Filled<V>(d: Dict<V>, newTbl: array<DictEntry?<V>>, chains: seq<seq<DictEntry<V>>>, k: nat)
    requires d.Valid() && k <= |d.table| && newTbl.Length > 0
    reads d, d.repr, newTbl, set c, e | c in chains && e in c :: e
  {
    && |chains| == newTbl.Length
    && (forall j, x {:trigger chains[j][x]} :: 0 <= j < |chains| && 0 <= x < |chains[j]| ==> chains[j][x] in d.repr)
    && (forall j {:trigger chains[j]} :: 0 <= j < |chains| ==>
          Chained(newTbl[j], chains[j], Moved(d.table, d.hash, newTbl.Length, k)[j]))
  }

  /** One turn of the rehashing loop. */
  method MoveChain<V>(d: Dict<V>, newTbl: array<DictEntry?<V>>, power: nat, newMask: nat, i: nat,
                       ghost chains0: seq<seq<DictEntry<V>>>)
      returns (ghost chains: seq<seq<DictEntry<V>>>)
    requires d.Valid() && newTbl !in d.repr && i < |d.table| && newTbl.Length > 0 && Filled(d, newTbl, chains0, i)
    requires newTbl.Length == Pow2(power) && newMask == Pow2(power) - 1
    modifies newTbl
    ensures d.Valid() && Filled(d, newTbl, chains, i + 1)
  {
    chains := chains0;
    assert Chained(d.hashTbl[i], d.chains[i], d.table[i]);
    var head := d.hashTbl[i];
    if head != null {
      AndMask(d.hash(head.key), power);
      var h := And(d.hash(head.key), newMask);
      newTbl[h] := head;
      chains := chains[h := d.chains[i]];
    }
  }

  /** The rehashing loop. */
  method Rehash<V>(d: Dict<V>, newTbl: array<DictEntry?<V>>, power: nat, newMask: nat)
      returns (ghost chains: seq<seq<DictEntry<V>>>)
    requires d.Valid() && newTbl !in d.repr
    requires newTbl.Length == Pow2(power) && newMask == Pow2(power) - 1
    requires forall j :: 0 <= j < newTbl.Length ==> newTbl[j] == null
    modifies newTbl
    ensures d.Valid() && Filled(d, newTbl, chains, |d.table|)
  {
    chains := seq(newTbl.Length, _ => []);
    for i := 0 to d.hashTbl.Length
      invariant d.Valid() && Filled(d, newTbl, chains, i)
    {
      chains := MoveChain(d, newTbl, power, newMask, i, chains);
    }
  }
}
