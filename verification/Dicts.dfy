/** The chained hash table of server/dict.c. */
module Dicts {
  import opened Bytes
  import opened Masks
  import opened Buckets

  const UINT64_MOD := 0x1_0000_0000_0000_0000

  class DictEntry<V> {
    var key: Bytes
    var val: Slot<V>
    var next: DictEntry?<V>

    constructor (key: Bytes, val: Slot<V>)
      ensures this.key == key && this.val == val && next == null
    {
      this.key, this.val, next := key, val, null;
    }
  }

  /** The entries of a chain, in order, and the pairs they hold. */
  ghost predicate Chained<V>(first: DictEntry?<V>, chain: seq<DictEntry<V>>, pairs: Buckets.Bucket<V>)
    reads chain
  {
    && |chain| == |pairs|
    && first == (if chain == [] then null else chain[0])
    && (forall i {:trigger chain[i].next} :: 0 <= i < |chain| ==>
          chain[i].next == if i + 1 < |chain| then chain[i + 1] else null)
    && (forall i {:trigger chain[i].key} {:trigger chain[i].val} :: 0 <= i < |chain| ==>
          chain[i].key == pairs[i].0 && chain[i].val == pairs[i].1)
  }

  lemma ChainTail<V>(first: DictEntry<V>, chain: seq<DictEntry<V>>, pairs: Buckets.Bucket<V>)
    requires Chained(first, chain, pairs) && chain != []
    ensures Chained(first.next, Drop(chain, 0), Drop(pairs, 0))
  {
    assert Drop(chain, 0) == chain[1..] && Drop(pairs, 0) == pairs[1..];
    assert chain[0].next == if 1 < |chain| then chain[1] else null;
    forall i | 0 <= i < |chain| - 1
      ensures chain[1..][i].next == if i + 1 < |chain| - 1 then chain[1..][i + 1] else null
    {
      assert chain[i + 1].next == if i + 2 < |chain| then chain[i + 2] else null;
    }
  }

  /** Relink around the entry at place p. */
  method CutNext<V>(prev: DictEntry<V>, target: DictEntry<V>, ghost first: DictEntry?<V>,
                    ghost chain: seq<DictEntry<V>>, ghost pairs: Buckets.Bucket<V>, ghost p: nat)
    requires Chained(first, chain, pairs) && Distinct(pairs)
    requires 0 < p < |chain| && prev == chain[p - 1] && target == chain[p]
    modifies prev`next
    ensures Chained(first, Drop(chain, p), Drop(pairs, p))
  {
    assert forall i :: 0 <= i < |chain| && i != p - 1 ==> chain[i].key != prev.key;
    prev.next := target.next;
    ghost var cut := Drop(chain, p);
    forall i | 0 <= i < |cut| ensures cut[i].next == if i + 1 < |cut| then cut[i + 1] else null {
      assert cut[i] == if i < p then chain[i] else chain[i + 1];
    }
  }

  /** Link an entry after the last one. */
  method LinkNext<V>(prev: DictEntry<V>, entry: DictEntry<V>, ghost first: DictEntry?<V>,
                     ghost chain: seq<DictEntry<V>>, ghost pairs: Buckets.Bucket<V>)
    requires Chained(first, chain, pairs) && Distinct(pairs) && entry !in chain && entry.next == null
    requires chain != [] && prev == chain[|chain| - 1]
    modifies prev`next
    ensures Chained(first, chain + [entry], pairs + [(entry.key, entry.val)])
  {
    assert forall i :: 0 <= i < |chain| - 1 ==> chain[i].key != prev.key;
    prev.next := entry;
  }

  class Dict<V> {
    const hash: Bytes -> nat        // dict_get_hash: some function of the content
    var hashTbl: array<DictEntry?<V>>
    var power: nat
    var bitMask: nat
    var entryNum: nat               // a size_t
    ghost var chains: seq<seq<DictEntry<V>>>
    ghost var table: Table<V>       // what the chains hold
    ghost var M: map<Bytes, Slot<V>>
    ghost var repr: set<object>

    ghost predicate Valid()
      reads this, repr
    {
      && Shaped()
      && AllChained()
      && Placed(table, hash) && Stores(table, M, hash)
    }

    ghost predicate AllChained()
      requires Shaped()
      reads this, repr
    {
      forall b {:trigger chains[b]} :: 0 <= b < |chains| ==> Chained(hashTbl[b], chains[b], table[b])
    }

    ghost predicate Shaped()
      reads this, repr
    {
      && this in repr && hashTbl in repr
      && power < 32 && hashTbl.Length == Pow2(power) == |chains| == |table| && bitMask == Pow2(power) - 1
      && entryNum < UINT64_MOD
      && (forall b, i {:trigger chains[b][i]} :: 0 <= b < |chains| && 0 <= i < |chains[b]| ==> chains[b][i] in repr)
    }

    /** The buckets other than h are in order. */
    ghost predicate OthersChained(h: nat)
      requires Shaped()
      reads this, repr
    {
      forall b {:trigger chains[b]} :: 0 <= b < |chains| && b != h ==> Chained(hashTbl[b], chains[b], table[b])
    }

    /** Record what bucket h holds after its chain was relinked. */
    ghost method Commit(h: nat, chain: seq<DictEntry<V>>, pairs: Buckets.Bucket<V>, m: map<Bytes, Slot<V>>)
      requires Shaped() && h < |chains| && OthersChained(h)
      requires (forall i :: 0 <= i < |chain| ==> chain[i] in repr) && Chained(hashTbl[h], chain, pairs)
      requires Placed(table[h := pairs], hash) && Stores(table[h := pairs], m, hash)
      modifies `chains, `table, `M
      ensures Valid() && M == m && table == old(table)[h := pairs] && chains == old(chains)[h := chain]
    {
      chains := chains[h := chain];
      table := table[h := pairs];
      M := m;
    }

    /** The bucket array is the one it was. */
    twostate predicate Same()
      reads this
    {
      repr == old(repr) && hashTbl == old(hashTbl) && power == old(power)
    }

    constructor (power: nat, hash: Bytes -> nat)
      requires power <= 32
      ensures this.power == power && this.hash == hash && entryNum == 0
      ensures hashTbl.Length == TableSize(power) && bitMask == TableMask(power)
      ensures power < 32 ==> Valid() && fresh(repr) && M == map[]
    {
      this.power := power;
      this.hash := hash;
      var size := TableSize(power);
      bitMask := TableMask(power);
      if power < 32 { CreateMask(power); }
      var tbl := new DictEntry?<V>[size](_ => null);
      hashTbl := tbl;
      entryNum := 0;
      chains := seq(size, _ => []);
      table := seq(size, _ => []);
      M := map[];
      repr := {this, tbl};
    }

    /** hash & bit_mask */
    method Index(key: Bytes) returns (h: nat)
      requires Valid()
      ensures h == hash(key) % |table| && h < |table|
    {
      AndMask(hash(key), power);
      h := And(hash(key), bitMask);
    }

    /** _dict_look_up_hash: the entry with the key, and the one before it. */
    method LookUpHash(h: nat, key: Bytes) returns (prev: DictEntry?<V>, curr: DictEntry?<V>, ghost p: nat)
      requires Valid() && h == hash(key) % |table|
      ensures p <= |chains[h]|
      ensures prev == if p == 0 then null else chains[h][p - 1]
      ensures curr == if p == |chains[h]| then null else chains[h][p]
      ensures curr != null <==> key in M
      ensures curr != null ==> curr in repr && curr.key == key == table[h][p].0 && curr.val == M[key]
    {
      prev, curr, p := null, hashTbl[h], 0;
      ghost var chain := chains[h];
      assert Chained(hashTbl[h], chain, table[h]);
      while curr != null
        invariant p <= |chain|
        invariant prev == if p == 0 then null else chain[p - 1]
        invariant curr == if p == |chain| then null else chain[p]
        invariant forall i :: 0 <= i < p ==> table[h][i].0 != key
        decreases |chain| - p
      {
        if curr.key == key {
          GetAt(table[h], p);
          return;
        }
        prev := curr;
        curr := curr.next;
        p := p + 1;
      }
      GetNone(table[h], key);
    }

    /** dict_look_up */
    method LookUp(key: Bytes) returns (val: Option<Slot<V>>)
      requires Valid()
      ensures val == Lookup(M, key)
    {
      var h := Index(key);
      var prev, curr, p := LookUpHash(h, key);
      val := if curr == null then None else Some(curr.val);
    }

    /** An entry belongs to the bucket of its key only. */
    lemma Elsewhere(h: nat, p: nat)
      requires Valid() && h < |chains| && p < |chains[h]|
      ensures forall b :: 0 <= b < |chains| && b != h ==> chains[h][p] !in chains[b]
    {
      assert Chained(hashTbl[h], chains[h], table[h]);
      forall b | 0 <= b < |chains| && b != h ensures chains[h][p] !in chains[b] {
        assert Chained(hashTbl[b], chains[b], table[b]);
        assert table[h][p].0 == chains[h][p].key;
      }
    }

    /** Unlink the entry at place p of bucket h. */
    method Unlink(h: nat, prev: DictEntry?<V>, target: DictEntry<V>, ghost p: nat)
      requires Valid() && h < |chains| && p < |chains[h]|
      requires target == chains[h][p] && prev == if p == 0 then null else chains[h][p - 1]
      modifies repr
      ensures Valid() && Same() && entryNum == (old(entryNum) - 1) % UINT64_MOD
      ensures M == old(M) - {old(table)[h][p].0}
      ensures chains == old(chains)[h := Drop(old(chains)[h], p)] && table == old(table)[h := Drop(old(table)[h], p)]
      ensures target.key == old(target.key) && target.val == old(target.val)
    {
      ghost var chain, pairs := chains[h], table[h];
      assert Chained(hashTbl[h], chain, pairs);
      RemoveAt(table, M, hash, h, p);
      if prev == null {
        ChainTail(target, chain, pairs);
        hashTbl[h] := target.next;
      } else {
        Elsewhere(h, p - 1);
        CutNext(prev, target, hashTbl[h], chain, pairs, p);
      }
      entryNum := (entryNum - 1) % UINT64_MOD;
      Commit(h, Drop(chain, p), Drop(pairs, p), M - {pairs[p].0});
    }

    /** dict_rm_nf: unlink the entry of a key, if there is one. */
    method RmNf(key: Bytes) returns (target: DictEntry?<V>, ghost p: nat)
      requires Valid()
      modifies repr
      ensures Valid() && Same() && M == old(M) - {key}
      ensures target != null <==> key in old(M)
      ensures target == null ==> chains == old(chains) && table == old(table) && entryNum == old(entryNum)
      ensures target != null ==>
        && target in repr && target.key == key && target.val == old(M)[key]
        && entryNum == (old(entryNum) - 1) % UINT64_MOD
        && var h := hash(key) % |old(table)|;
           p < |old(table)[h]| && old(table)[h][p].0 == key && table == old(table)[h := Drop(old(table)[h], p)]
           && chains == old(chains)[h := Drop(old(chains)[h], p)]
    {
      var h := Index(key);
      var prev: DictEntry?<V>;
      prev, target, p := LookUpHash(h, key);
      if target == null { return; }
      Unlink(h, prev, target, p);
    }

    /** The entry is in no chain. */
    ghost predicate Loose(e: DictEntry<V>)
      reads this
    {
      forall b {:trigger chains[b]} :: 0 <= b < |chains| ==> e !in chains[b]
    }

    lemma AbsentIsLoose(e: DictEntry<V>)
      requires Valid() && e.key !in M
      ensures Loose(e)
    {
      forall b | 0 <= b < |chains| ensures e !in chains[b] {
        assert Chained(hashTbl[b], chains[b], table[b]);
        forall i | 0 <= i < |chains[b]| ensures chains[b][i] != e {
          assert chains[b][i].key == table[b][i].0;
          GetAt(table[b], i);
        }
      }
    }

    /** Link a new last entry into bucket h; prev is the last one so far. */
    method LinkLast(h: nat, prev: DictEntry?<V>, entry: DictEntry<V>)
      requires Valid() && h == hash(entry.key) % |table| && entry.key !in M
      requires prev == if chains[h] == [] then null else chains[h][|chains[h]| - 1]
      requires entry.next == null && entry in repr
      modifies repr
      ensures Valid() && Same() && entryNum == old(entryNum)
      ensures M == old(M)[old(entry.key) := old(entry.val)]
      ensures table == old(table)[h := old(table)[h] + [(old(entry.key), old(entry.val))]]
    {
      ghost var chain, pairs := chains[h], table[h];
      assert Chained(hashTbl[h], chain, pairs);
      AppendAt(table, M, hash, h, entry.key, entry.val);
      AbsentIsLoose(entry);
      if prev == null {
        hashTbl[h] := entry;
      } else {
        Elsewhere(h, |chain| - 1);
        LinkNext(prev, entry, hashTbl[h], chain, pairs);
      }
      Commit(h, chain + [entry], pairs + [(entry.key, entry.val)], M[entry.key := entry.val]);
    }

    /** dict_entry_create, for an entry that is about to be linked. */
    method NewEntry(key: Bytes, val: Slot<V>) returns (entry: DictEntry<V>)
      requires Valid()
      modifies `repr
      ensures Valid() && fresh(entry) && repr == old(repr) + {entry}
      ensures entry.key == key && entry.val == val && entry.next == null
    {
      entry := new DictEntry(key, val);
      repr := repr + {entry};
    }

    /** Give an unlinked entry another key and no successor. */
    method Relabel(entry: DictEntry<V>, newKey: Bytes)
      requires Valid() && entry in repr && entry.key !in M
      modifies entry`key, entry`next
      ensures Valid() && entry.key == newKey && entry.next == null
    {
      AbsentIsLoose(entry);
      entry.key := newKey;
      entry.next := null;
      assert forall b {:trigger chains[b]} :: 0 <= b < |chains| ==> old(Chained(hashTbl[b], chains[b], table[b]));
    }

    /** Change what the entry at place p of bucket h holds. */
    method SetVal(h: nat, entry: DictEntry<V>, val: Slot<V>, ghost p: nat)
      requires Valid() && h < |chains| && p < |chains[h]| && entry == chains[h][p]
      modifies repr
      ensures Valid() && Same() && entryNum == old(entryNum)
      ensures M == old(M)[old(table)[h][p].0 := val]
      ensures table == old(table)[h := old(table)[h][p := (old(table)[h][p].0, val)]]
    {
      ghost var chain, pairs := chains[h], table[h];
      assert Chained(hashTbl[h], chain, pairs);
      UpdateAt(table, M, hash, h, p, val);
      Elsewhere(h, p);
      assert forall i :: 0 <= i < |chain| && i != p ==> chain[i].key != entry.key;
      entry.val := val;
      Commit(h, chain, pairs[p := (pairs[p].0, val)], M[pairs[p].0 := val]);
    }

    /** dict_add_shallow: insert if absent. */
    method AddShallow(key: Bytes, val: Slot<V>)
      requires Valid()
      modifies repr
      ensures Valid() && SameShape()
      ensures M == if key in old(M) then old(M) else old(M)[key := val]
      ensures entryNum == if key in old(M) then old(entryNum) else (old(entryNum) + 1) % UINT64_MOD
    {
      var h := Index(key);
      var prev, curr, p := LookUpHash(h, key);
      if curr == null {
        AppendNew(h, prev, key, val);
      }
    }

    /** Add an entry for a key that is not there. */
    method AppendNew(h: nat, prev: DictEntry?<V>, key: Bytes, val: Slot<V>)
      requires Valid() && h == hash(key) % |table| && key !in M
      requires prev == if chains[h] == [] then null else chains[h][|chains[h]| - 1]
      modifies repr
      ensures Valid() && SameShape()
      ensures M == old(M)[key := val] && entryNum == (old(entryNum) + 1) % UINT64_MOD
    {
      var entry := NewEntry(key, val);
      LinkLast(h, prev, entry);
      entryNum := (entryNum + 1) % UINT64_MOD;
    }

    /** The bucket array is the one it was; only new entries joined. */
    twostate predicate SameShape()
      reads this
    {
      old(repr) <= repr && fresh(repr - old(repr)) && hashTbl == old(hashTbl) && power == old(power)
    }

    /** dict_add: insert or replace, but never replace the set marker. */
    method Add(key: Bytes, val: Slot<V>)
      requires Valid()
      modifies repr
      ensures Valid() && SameShape()
      ensures M == old(M)[key := if key in old(M) && old(M)[key].Marker? then Marker else val]
      ensures entryNum == if key in old(M) then old(entryNum) else (old(entryNum) + 1) % UINT64_MOD
    {
      var h := Index(key);
      var prev, curr, p := LookUpHash(h, key);
      if curr == null {
        AppendNew(h, prev, key, val);
      } else if curr.val != Marker {
        SetVal(h, curr, val, p);
      } else {
        assert M == M[key := Marker];
      }
    }

    /** dict_rename: the map is updated as it should be; the count of entries is one
        less whether or not a key went away. */
    method Rename(key: Bytes, newKey: Bytes) returns (found: bool)
      requires Valid()
      modifies repr
      ensures Valid() && Same() && found == (key in old(M))
      ensures M == if found then (old(M) - {key})[newKey := old(M)[key]] else old(M)
      ensures entryNum == if found then (old(entryNum) - 1) % UINT64_MOD else old(entryNum)
    {
      var iter, p := RmNf(key);
      if iter == null { return false; }
      found := true;
      var h := Index(newKey);
      var prev, curr, q := LookUpHash(h, newKey);
      if curr != null {
        SetVal(h, curr, iter.val, q);
      } else {
        Relabel(iter, newKey);
        LinkLast(h, prev, iter);
      }
    }
  }
}
