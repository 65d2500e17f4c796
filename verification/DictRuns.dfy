/** Any sequence of operations on a chained table, on the map it stores and on its
    count of entries. */
module DictRuns {
  import opened Bytes
  import opened Buckets
  import opened Dicts

  datatype Op<V> =
    | AddOp(key: Bytes, val: Slot<V>)
    | AddShallowOp(key: Bytes, val: Slot<V>)
    | RmOp(key: Bytes)
    | RenameOp(key: Bytes, newKey: Bytes)

  type Store<V> = map<Bytes, Slot<V>>

  function Apply<V>(m: Store<V>, op: Op<V>): Store<V> {
    match op
    case AddOp(key, val) => m[key := if key in m && m[key].Marker? then Marker else val]
    case AddShallowOp(key, val) => if key in m then m else m[key := val]
    case RmOp(key) => m - {key}
    case RenameOp(key, newKey) => if key in m then (m - {key})[newKey := m[key]] else m
  }

  /** What each operation does to its own keys, and that it does nothing to others. */
  lemma ApplyMeans<V>(m: Store<V>, op: Op<V>, k: Bytes)
    ensures var t := Apply(m, op);
      match op
      case AddOp(key, val) =>
        if k == key then k in t && t[k] == (if k in m && m[k] == Marker then Marker else val)
        else (k in t <==> k in m) && (k in m ==> t[k] == m[k])
      case AddShallowOp(key, val) =>
        if k == key && k !in m then k in t && t[k] == val
        else (k in t <==> k in m) && (k in m ==> t[k] == m[k])
      case RmOp(key) => if k == key then k !in t else (k in t <==> k in m) && (k in m ==> t[k] == m[k])
      case RenameOp(key, newKey) =>
        if key !in m then t == m
        else if k == newKey then k in t && t[k] == m[key]
        else if k == key then k !in t
        else (k in t <==> k in m) && (k in m ==> t[k] == m[k])
  {
  }

  /** What the operation makes of entry_num, a size_t. */
  function Recount<V>(m: Store<V>, n: nat, op: Op<V>): nat {
    match op
    case AddOp(key, _) => if key in m then n else (n + 1) % UINT64_MOD
    case AddShallowOp(key, _) => if key in m then n else (n + 1) % UINT64_MOD
    case RmOp(key) => if key in m then (n - 1) % UINT64_MOD else n
    case RenameOp(key, _) => if key in m then (n - 1) % UINT64_MOD else n
  }

  method Perform<V>(d: Dict<V>, op: Op<V>)
    requires d.Valid()
    modifies d.repr
    ensures d.Valid() && d.SameShape()
    ensures d.M == Apply(old(d.M), op) && d.entryNum == Recount(old(d.M), old(d.entryNum), op)
  {
    match op {
      case AddOp(key, val) => d.Add(key, val);
      case AddShallowOp(key, val) => d.AddShallow(key, val);
      case RmOp(key) => var gone, p := d.RmNf(key);
      case RenameOp(key, newKey) => var found := d.Rename(key, newKey);
    }
  }

  function ApplyAll<V>(m: Store<V>, ops: seq<Op<V>>): Store<V>
    decreases |ops|
  {
    if ops == [] then m else ApplyAll(Apply(m, ops[0]), ops[1..])
  }

  function RecountAll<V>(m: Store<V>, n: nat, ops: seq<Op<V>>): nat
    decreases |ops|
  {
    if ops == [] then n else RecountAll(Apply(m, ops[0]), Recount(m, n, ops[0]), ops[1..])
  }

  /** A whole run on the pointer structure. */
  method PerformAll<V>(d: Dict<V>, ops: seq<Op<V>>)
    requires d.Valid()
    modifies d.repr
    ensures d.Valid() && d.SameShape()
    ensures d.M == ApplyAll(old(d.M), ops) && d.entryNum == RecountAll(old(d.M), old(d.entryNum), ops)
  {
    for i := 0 to |ops|
      invariant d.Valid() && d.SameShape()
      invariant ApplyAll(d.M, ops[i..]) == ApplyAll(old(d.M), ops)
      invariant RecountAll(d.M, d.entryNum, ops[i..]) == RecountAll(old(d.M), old(d.entryNum), ops)
    {
      assert ops[i..][1..] == ops[i + 1..];
      Perform(d, ops[i]);
    }
  }

  /** A rename to a key that does not exist, once the old one is gone. */
  predicate FreshRename<V>(m: Store<V>, op: Op<V>) {
    op.RenameOp? && op.key in m && op.newKey !in m - {op.key}
  }

  function FreshRenames<V>(m: Store<V>, ops: seq<Op<V>>): nat
    decreases |ops|
  {
    if ops == [] then 0
    else (if FreshRename(m, ops[0]) then 1 else 0) + FreshRenames(Apply(m, ops[0]), ops[1..])
  }

  /** n is c as far as a size_t can tell. */
  predicate Counts(n: nat, c: int) {
    n < UINT64_MOD && n == c % UINT64_MOD
  }

  lemma CountOn(n: nat, c: int)
    requires Counts(n, c)
    ensures Counts((n + 1) % UINT64_MOD, c + 1) && Counts((n - 1) % UINT64_MOD, c - 1)
  {
  }

  function Size<V>(m: Store<V>, op: Op<V>): int {
    match op
    case AddOp(key, _) => if key in m then |m| else |m| + 1
    case AddShallowOp(key, _) => if key in m then |m| else |m| + 1
    case RmOp(key) => if key in m then |m| - 1 else |m|
    case RenameOp(key, newKey) => if key in m && newKey in m - {key} then |m| - 1 else |m|
  }

  lemma SizeIs<V>(m: Store<V>, op: Op<V>)
    ensures |Apply(m, op)| == Size(m, op)
  {
    if op.RmOp? && op.key !in m { assert m - {op.key} == m; }
    if (op.RmOp? || op.RenameOp?) && op.key in m { SizeWithout(m, op.key); }
  }

  lemma StepCount<V>(m: Store<V>, n: nat, op: Op<V>, lost: nat)
    requires Counts(n, |m| - lost)
    ensures Counts(Recount(m, n, op), |Apply(m, op)| - lost - if FreshRename(m, op) then 1 else 0)
  {
    SizeIs(m, op);
    CountOn(n, |m| - lost);
  }

  lemma SizeWithout<V>(m: Store<V>, key: Bytes)
    requires key in m
    ensures |m - {key}| == |m| - 1
  {
    assert m == (m - {key})[key := m[key]];
  }

  /** Over every sequence of operations the count is short by the number of renames
      to fresh keys, and by nothing else. */
  lemma {:induction false} RunCount<V>(m: Store<V>, n: nat, ops: seq<Op<V>>, lost: nat)
    requires Counts(n, |m| - lost)
    ensures Counts(RecountAll(m, n, ops), |ApplyAll(m, ops)| - lost - FreshRenames(m, ops))
    decreases |ops|
  {
    if ops != [] {
      StepCount(m, n, ops[0], lost);
      RunCount(Apply(m, ops[0]), Recount(m, n, ops[0]), ops[1..], lost + if FreshRename(m, ops[0]) then 1 else 0);
    }
  }

  /** Starting from an exact count of a map that fits in memory, the count at the end
      is exact if and only if no rename made up a new key. */
  lemma CountIsExact<V>(m: Store<V>, ops: seq<Op<V>>)
    requires |m| + |ops| < UINT64_MOD
    ensures RecountAll(m, |m|, ops) == |ApplyAll(m, ops)| <==> FreshRenames(m, ops) == 0
  {
    RunCount(m, |m|, ops, 0);
    RunSizes(m, ops);
    OffBy(RecountAll(m, |m|, ops), |ApplyAll(m, ops)|, FreshRenames(m, ops));
  }

  lemma OffBy(n: nat, c: nat, f: nat)
    requires c < UINT64_MOD && f < UINT64_MOD && Counts(n, c - 0 - f)
    ensures n == c <==> f == 0
  {
  }

  lemma {:induction false} RunSizes<V>(m: Store<V>, ops: seq<Op<V>>)
    ensures |ApplyAll(m, ops)| <= |m| + |ops| && FreshRenames(m, ops) <= |ops|
    decreases |ops|
  {
    if ops != [] {
      var op := ops[0];
      SizeIs(m, op);
      RunSizes(Apply(m, op), ops[1..]);
    }
  }
}
