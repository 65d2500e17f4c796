/** The loops of the list commands in server/commands.c, on the pointer ring. */
module ListLoops {
  import opened Bytes
  import opened Rings
  import opened ListSpec

  /** A forward walk has passed k entries and is about to look at next; with left more
      removals it will leave whole. */
  ghost predicate Ahead<T(0)>(list: Ring<T>, next: Entry<T>, k: nat, v: T, left: nat, whole: seq<T>)
    reads list, list.repr
  {
    && list.Valid() && k <= list.num
    && next == (if k < list.num then list.nodes[k + 1] else list.head)
    && list.contents[..k] + RemoveFirst(list.contents[k..], v, left) == whole
  }

  /** One turn of the walk. */
  method ForwardTurn<T(0,==)>(list: Ring<T>, entry: Entry<T>, v: T, left: nat, ghost k: nat, ghost whole: seq<T>)
      returns (next: Entry<T>, removed: bool, ghost k1: nat)
    requires Ahead(list, entry, k, v, left, whole) && entry != list.head && left > 0
    modifies list, list.repr
    ensures Ahead(list, next, k1, v, if removed then left - 1 else left, whole)
    ensures list.num == old(list.num) - if removed then 1 else 0
    ensures list.num - k1 == old(list.num) - k - 1
    ensures list.repr <= old(list.repr)
  {
    next, removed, k1 := entry.next, false, k;
    ForwardStep(list.contents, k, v, left);
    if entry.val == v {
      list.Rm(entry, k + 1);
      removed := true;
    } else {
      k1 := k + 1;
    }
  }

  lemma WalkDone<T>(c: seq<T>, k: nat, v: T, left: nat)
    requires k <= |c|
    ensures k == |c| || left == 0 ==> c[..k] + RemoveFirst(c[k..], v, left) == c
  {
    RemoveNone(c[k..], v);
  }

  /** target > 0 */
  method LRemForward<T(0,==)>(list: Ring<T>, target: int, v: T) returns (count: nat)
    requires list.Valid() && target > 0
    modifies list, list.repr
    ensures list.Valid()
    ensures list.contents == RemoveFirst(old(list.contents), v, target)
    ensures count == old(list.num) - list.num
    ensures list.repr <= old(list.repr)
  {
    count := 0;
    var next := list.head.next;
    ghost var k: nat, whole := 0, RemoveFirst(list.contents, v, target);
    assert list.contents[0..] == list.contents;
    while next != list.head
      invariant count < target && count == old(list.num) - list.num
      invariant Ahead(list, next, k, v, target - count, whole)
      invariant list.repr <= old(list.repr)
      decreases list.num - k
    {
      var removed;
      next, removed, k := ForwardTurn(list, next, v, target - count, k, whole);
      if removed {
        count := count + 1;
        if count == target { break; }
      }
    }
    WalkDone(list.contents, k, v, target - count);
  }

  /** A forward walk that removes every v has passed k entries. */
  ghost predicate Sweeping<T(0)>(list: Ring<T>, next: Entry<T>, k: nat, v: T, whole: seq<T>)
    reads list, list.repr
  {
    && list.Valid() && k <= list.num
    && next == (if k < list.num then list.nodes[k + 1] else list.head)
    && list.contents[..k] + Without(list.contents[k..], v) == whole
  }

  method SweepTurn<T(0,==)>(list: Ring<T>, entry: Entry<T>, v: T, ghost k: nat, ghost whole: seq<T>)
      returns (next: Entry<T>, removed: bool, ghost k1: nat)
    requires Sweeping(list, entry, k, v, whole) && entry != list.head
    modifies list, list.repr
    ensures Sweeping(list, next, k1, v, whole)
    ensures list.num == old(list.num) - if removed then 1 else 0
    ensures list.num - k1 == old(list.num) - k - 1
    ensures list.repr <= old(list.repr)
  {
    next, removed, k1 := entry.next, false, k;
    SweepStep(list.contents, k, v);
    if entry.val == v {
      list.Rm(entry, k + 1);
      removed := true;
    } else {
      k1 := k + 1;
    }
  }

  /** target == 0 */
  method LRemAll<T(0,==)>(list: Ring<T>, v: T) returns (count: nat)
    requires list.Valid()
    modifies list, list.repr
    ensures list.Valid()
    ensures list.contents == Without(old(list.contents), v)
    ensures count == old(list.num) - list.num
    ensures list.repr <= old(list.repr)
  {
    count := 0;
    var next := list.head.next;
    ghost var k: nat, whole := 0, Without(list.contents, v);
    assert list.contents[0..] == list.contents;
    while next != list.head
      invariant count == old(list.num) - list.num
      invariant Sweeping(list, next, k, v, whole)
      invariant list.repr <= old(list.repr)
      decreases list.num - k
    {
      var removed;
      next, removed, k := SweepTurn(list, next, v, k, whole);
      if removed { count := count + 1; }
    }
    assert list.contents[..k] + [] == list.contents;
  }

  /** target < 0 */
  method LRemBackward<T(0,==)>(list: Ring<T>, target: int, v: T) returns (count: nat)
    requires list.Valid() && target > 0
    modifies list, list.repr
    ensures list.Valid()
    ensures list.contents == RemoveLast(old(list.contents), v, target)
    ensures count == old(list.num) - list.num
    ensures list.repr <= old(list.repr)
  {
    count := 0;
    var entry := list.head;
    var next := entry.prev;
    ghost var k := list.num;
    assert list.contents[..k] == list.contents && list.contents[k..] == [];
    while next != list.head
      invariant list.Valid() && 0 <= k < |list.nodes|
      invariant next == list.nodes[k]
      invariant count < target && count == old(list.num) - list.num
      invariant RemoveLast(list.contents[..k], v, target - count) + list.contents[k..]
             == RemoveLast(old(list.contents), v, target)
      invariant list.repr <= old(list.repr)
      decreases k
    {
      entry := next;
      next := entry.prev;
      BackwardStep(list.contents, k, v, target - count);
      if entry.val == v && count < target {
        list.Rm(entry, k);
        count := count + 1;
        if count == target {
          RemoveNone(list.contents[..k - 1], v);
          assert list.contents[..k - 1] + list.contents[k - 1..] == list.contents;
          return;
        }
      }
      k := k - 1;
    }
    assert k == 0;
    assert [] + list.contents[0..] == list.contents;
  }

  /** _lrem: the three walks, by the sign of the count. */
  method LRem<T(0,==)>(list: Ring<T>, target: int, v: T) returns (count: nat)
    requires list.Valid()
    modifies list, list.repr
    ensures list.Valid()
    ensures list.contents == LRemSpec(old(list.contents), target, v)
    ensures count == |old(list.contents)| - |list.contents|
    ensures list.repr <= old(list.repr)
  {
    if target > 0 {
      count := LRemForward(list, target, v);
    } else if target == 0 {
      count := LRemAll(list, v);
    } else {
      count := LRemBackward(list, -target, v);
    }
  }

  /** The walk to the entry at the given place. */
  method EntryAt<T(0)>(list: Ring<T>, index: nat) returns (entry: Entry<T>)
    requires list.Valid() && index < list.num
    ensures entry == list.nodes[index + 1]
  {
    entry := list.head;
    for i := 0 to index + 1
      invariant entry == list.nodes[i]
    {
      entry := entry.next;
    }
  }

  lemma MoveStep<T>(s: seq<T>, lo: nat, offset: nat)
    requires lo <= offset < |s|
    ensures var c := s[..lo] + s[offset..];
      c[lo] == s[offset] && c[..lo] + c[lo + 1..] == s[..lo] + s[offset + 1..]
    ensures s[lo..offset] + [s[offset]] == s[lo..offset + 1]
  {
  }

  /** The entries of s from place lo up to offset have moved to newList. */
  ghost predicate Moving<T(0)>(list: Ring<T>, newList: Ring<T>, entry: Entry<T>, s: seq<T>, lo: nat, offset: nat)
    reads list, list.repr, newList, newList.repr
  {
    && list.Valid() && newList.Valid() && list.Apart(newList)
    && lo <= offset <= |s|
    && list.contents == s[..lo] + s[offset..] && newList.contents == s[lo..offset]
    && entry == (if offset < |s| then list.nodes[lo + 1] else list.head)
  }

  method MoveTurn<T(0)>(list: Ring<T>, newList: Ring<T>, entry: Entry<T>,
                        ghost s: seq<T>, ghost lo: nat, ghost offset: nat)
      returns (next: Entry<T>)
    requires Moving(list, newList, entry, s, lo, offset) && entry != list.head
    modifies list, list.repr, newList, newList.repr
    ensures offset < |s| && Moving(list, newList, next, s, lo, offset + 1)
    ensures list.repr <= old(list.repr) && newList.repr <= old(list.repr + newList.repr)
  {
    next := entry.next;
    MoveStep(s, lo, offset);
    list.MoveBack(entry, newList, lo + 1);
  }

  /** The loop of ltrim: move the entries from place lo up to place last, or up
      to the end, to the back of an empty new list. */
  method MoveRange<T(0)>(list: Ring<T>, newList: Ring<T>, lo: nat, last: nat)
    requires list.Valid() && newList.Valid() && list.Apart(newList)
    requires lo < list.num && lo <= last && newList.contents == []
    modifies list, list.repr, newList, newList.repr
    ensures list.Valid() && newList.Valid() && list.Apart(newList)
    ensures newList.contents == old(list.contents)[lo..Min(last + 1, old(list.num))]
    ensures list.repr <= old(list.repr) && newList.repr <= old(list.repr + newList.repr)
  {
    var entry := EntryAt(list, lo);
    var offset := lo;
    ghost var s := list.contents;
    assert s[..lo] + s[lo..] == s;
    while entry != list.head
      invariant offset <= last && Moving(list, newList, entry, s, lo, offset)
      invariant list.repr <= old(list.repr) && newList.repr <= old(list.repr + newList.repr)
      decreases |s| - offset
    {
      entry := MoveTurn(list, newList, entry, s, lo, offset);
      offset := offset + 1;
      if offset - 1 == last { break; }
    }
  }

  /** Move a range to a new list and destroy the old one. */
  method KeepRange<T(0)>(list: Ring<T>, lo: nat, last: nat) returns (newList: Ring<T>)
    requires list.Valid() && lo < list.num && lo <= last
    modifies list, list.repr
    ensures newList.Valid() && fresh(newList) && fresh(newList.repr - old(list.repr))
    ensures newList.contents == old(list.contents)[lo..Min(last + 1, old(list.num))]
  {
    newList := new Ring<T>();
    MoveRange(list, newList, lo, last);
    ghost var freed := list.Destroy();
  }

  /** ltrim on the list itself; None when the range is empty and the key is to
      be removed. */
  method LTrim<T(0)>(list: Ring<T>, a: int, b: int) returns (kept: Option<Ring<T>>)
    requires list.Valid()
    modifies list, list.repr
    ensures kept.None? <==> Range(old(list.contents), a, b) == []
    ensures kept.None? ==> list.Valid() && list.contents == old(list.contents) && list.repr == old(list.repr)
    ensures kept.Some? ==>
      && kept.value.Valid() && fresh(kept.value)
      && kept.value.contents == Range(old(list.contents), a, b)
      && fresh(kept.value.repr - old(list.repr))
  {
    var offset1, offset2 := a, b;
    if offset1 < 0 { offset1 := offset1 + list.num; }
    if offset1 < 0 { offset1 := 0; }
    if offset2 < 0 { offset2 := offset2 + list.num; }
    if offset2 < offset1 || offset1 >= list.num {
      return None;
    }
    var newList := KeepRange(list, offset1, offset2);
    kept := Some(newList);
  }

  /** The walk of linsert to the first entry that holds v; the sentinel if none does. */
  method FindEntry<T(0,==)>(list: Ring<T>, v: T) returns (entry: Entry<T>)
    requires list.Valid()
    ensures var p := Find(list.contents, v);
      entry == if p < list.num then list.nodes[p + 1] else list.head
  {
    entry := list.head.next;
    ghost var k := 0;
    while entry != list.head
      invariant k <= list.num
      invariant entry == if k < list.num then list.nodes[k + 1] else list.head
      invariant v !in list.contents[..k]
      decreases list.num - k
    {
      if entry.val == v {
        FindIs(list.contents, v, k);
        return;
      }
      assert list.contents[..k + 1] == list.contents[..k] + [entry.val];
      entry := entry.next;
      k := k + 1;
    }
    assert list.contents[..k] == list.contents;
  }

  method LInsert<T(0,==)>(list: Ring<T>, after: bool, pivot: T, v: T) returns (found: bool)
    requires list.Valid()
    modifies list, list.repr
    ensures list.Valid()
    ensures found == (pivot in old(list.contents))
    ensures list.contents == LInsertSpec(old(list.contents), after, pivot, v)
    ensures fresh(list.repr - old(list.repr))
  {
    var entry := FindEntry(list, pivot);
    found := entry != list.head;
    if found {
      var newEntry := new Entry(v);
      ghost var p := Find(list.contents, pivot) + 1;
      if after {
        list.InsertAfter(entry, newEntry, p);
      } else {
        list.InsertBefore(entry, newEntry, p);
      }
    }
  }

  /** The walk and the assignment of lset, for an index in range. */
  method LSet<T(0)>(list: Ring<T>, index: nat, v: T)
    requires list.Valid() && index < list.num
    modifies list, list.repr
    ensures list.Valid() && list.contents == old(list.contents)[index := v]
    ensures list.repr == old(list.repr)
  {
    var entry := EntryAt(list, index);
    list.SetVal(entry, v, index + 1);
  }

  /** The loop of lpush and rpush. */
  method PushAll<T(0)>(list: Ring<T>, front: bool, vals: seq<T>)
    requires list.Valid()
    modifies list, list.repr
    ensures list.Valid() && fresh(list.repr - old(list.repr))
    ensures list.contents == Pushed(front, old(list.contents), vals)
  {
    for i := 0 to |vals|
      invariant list.Valid() && fresh(list.repr - old(list.repr))
      invariant list.contents == Pushed(front, old(list.contents), vals[..i])
    {
      var entry := new Entry(vals[i]);
      assert vals[..i + 1] == vals[..i] + [vals[i]];
      PushedOneMore(front, old(list.contents), vals[..i], vals[i]);
      if front {
        list.InsertFront(entry);
      } else {
        list.InsertBack(entry);
      }
    }
    assert vals[..|vals|] == vals;
  }

  /** The walk of lrange over the entries from place from to place last, or to the end. */
  method ShowFrom<T(0)>(list: Ring<T>, from: nat, last: nat) returns (shown: seq<T>)
    requires list.Valid() && from < list.num && from <= last
    ensures shown == list.contents[from..Min(last + 1, list.num)]
  {
    var entry := EntryAt(list, from);
    var i := from;
    shown := [];
    while i <= last && i < list.num
      invariant from <= i <= Min(last + 1, list.num)
      invariant entry == if i < list.num then list.nodes[i + 1] else list.head
      invariant shown == list.contents[from..i]
    {
      assert entry.val == list.contents[i];
      shown := shown + [entry.val];
      entry := entry.next;
      i := i + 1;
    }
  }

  /** lrange on the list itself: the values to put in the reply. */
  method LRange<T(0)>(list: Ring<T>, a: int, b: int) returns (shown: seq<T>)
    requires list.Valid()
    ensures shown == Range(list.contents, a, b)
  {
    var offset1, offset2 := a, b;
    if offset1 < 0 { offset1 := offset1 + list.num; }
    if offset1 < 0 { offset1 := 0; }
    if offset2 < 0 { offset2 := offset2 + list.num; }
    if offset2 < offset1 || offset1 >= list.num { return []; }
    shown := ShowFrom(list, offset1, offset2);
  }
}
