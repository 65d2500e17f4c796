/** The sentinel-based circular doubly linked list of server/list.c. */
module Rings {

  class Entry<T(0)> {
    var next: Entry<T>
    var prev: Entry<T>
    var val: T

    constructor (v: T)
      ensures val == v
    {
      val := v;
      next := this;
      prev := this;
    }

    /** The sentinel embedded in the list header; its val is never read. */
    constructor Sentinel()
      ensures next == this && prev == this
    {
      next := this;
      prev := this;
    }
  }

  /** s with x put in at place k. */
  ghost function Splice<T>(s: seq<T>, k: nat, x: T): (r: seq<T>)
    requires k <= |s|
    ensures |r| == |s| + 1 && r[k] == x
    ensures forall i {:trigger r[i]} :: 0 <= i < k ==> r[i] == s[i]
    ensures forall i {:trigger r[i]} :: k < i < |r| ==> r[i] == s[i - 1]
  {
    s[..k] + [x] + s[k..]
  }

  class Ring<T(0)> {
    const head: Entry<T>
    var num: nat
    ghost var contents: seq<T>       // the abstract value
    ghost var nodes: seq<Entry<T>>   // the sentinel, then the entries in next order
    ghost var repr: set<Entry<T>>    // the objects of nodes

    /** next and prev are mutual inverses round the ring, and num counts the entries. */
    ghost predicate Valid()
      reads this, repr
    {
      && (forall i {:trigger nodes[i]} :: 0 <= i < |nodes| ==> nodes[i] in repr)
      && 1 <= |nodes| && nodes[0] == head
      && num == |nodes| - 1 == |contents|
      && (forall i {:trigger contents[i]} :: 0 <= i < |contents| ==> nodes[i + 1].val == contents[i])
      && (forall i, j :: 0 <= i < j < |nodes| ==> nodes[i] != nodes[j])
      && (forall i {:trigger nodes[i].next} :: 0 <= i < |nodes| - 1 ==> nodes[i].next == nodes[i + 1])
      && (forall i {:trigger nodes[i].prev} :: 0 < i < |nodes| ==> nodes[i].prev == nodes[i - 1])
      && nodes[|nodes| - 1].next == head && head.prev == nodes[|nodes| - 1]
    }

    /** The two rings share neither a header nor an entry. */
    ghost predicate Apart(other: Ring<T>)
      reads this, other
    {
      this != other && repr !! other.repr
    }

    constructor ()
      ensures Valid() && fresh(repr) && contents == []
    {
      var h := new Entry<T>.Sentinel();
      head := h;
      num := 0;
      nodes := [h];
      repr := {h};
      contents := [];
    }

    /** p is the place of the entry in the ring. */
    method RmNf(entry: Entry<T>, ghost p: nat) returns (r: Entry<T>)
      requires Valid()
      requires 0 < p < |nodes| && nodes[p] == entry
      modifies this, repr
      ensures Valid() && r == entry
      ensures nodes == old(nodes[..p] + nodes[p + 1..]) && repr == old(repr) - {entry}
      ensures contents == old(contents)[..p - 1] + old(contents)[p..]
      ensures forall e <- old(repr) :: e.val == old(e.val)
    {
      entry.prev.next := entry.next;
      entry.next.prev := entry.prev;
      num := num - 1;
      nodes := nodes[..p] + nodes[p + 1..];
      repr := repr - {entry};
      contents := contents[..p - 1] + contents[p..];
      r := entry;
    }

    /** Unlink an entry and destroy it: its links are no longer to be followed. */
    method Rm(entry: Entry<T>, ghost p: nat)
      requires Valid()
      requires 0 < p < |nodes| && nodes[p] == entry
      modifies this, repr
      ensures Valid()
      ensures nodes == old(nodes[..p] + nodes[p + 1..]) && repr == old(repr) - {entry}
      ensures contents == old(contents)[..p - 1] + old(contents)[p..]
      ensures forall e <- old(repr) :: e.val == old(e.val)
    {
      var gone := RmNf(entry, p);
      gone.next, gone.prev := gone, gone;
    }

    method InsertFront(entry: Entry<T>)
      requires Valid() && entry !in repr
      modifies this, repr, entry
      ensures Valid()
      ensures nodes == [head, entry] + old(nodes[1..]) && repr == old(repr) + {entry}
      ensures contents == [entry.val] + old(contents)
      ensures entry.val == old(entry.val)
      ensures forall e <- old(repr) :: e.val == old(e.val)
    {
      head.next.prev := entry;
      entry.next := head.next;
      head.next := entry;
      entry.prev := head;
      num := num + 1;
      nodes := [head, entry] + nodes[1..];
      contents := [entry.val] + contents;
      repr := repr + {entry};
    }

    method InsertBack(entry: Entry<T>)
      requires Valid() && entry !in repr
      modifies this, repr, entry
      ensures Valid()
      ensures nodes == old(nodes) + [entry] && repr == old(repr) + {entry}
      ensures contents == old(contents) + [entry.val]
      ensures entry.val == old(entry.val)
      ensures forall e <- old(repr) :: e.val == old(e.val)
    {
      head.prev.next := entry;
      entry.prev := head.prev;
      head.prev := entry;
      entry.next := head;
      num := num + 1;
      nodes := nodes + [entry];
      contents := contents + [entry.val];
      repr := repr + {entry};
    }

    method InsertAfter(entry: Entry<T>, target: Entry<T>, ghost p: nat)
      requires Valid() && target !in repr
      requires p < |nodes| && nodes[p] == entry
      modifies this, repr, target
      ensures Valid()
      ensures nodes == Splice(old(nodes), p + 1, target) && repr == old(repr) + {target}
      ensures contents == Splice(old(contents), p, target.val)
      ensures target.val == old(target.val)
      ensures forall e <- old(repr) :: e.val == old(e.val)
    {
      entry.next.prev := target;
      target.next := entry.next;
      entry.next := target;
      target.prev := entry;
      num := num + 1;
      nodes := Splice(nodes, p + 1, target);
      contents := Splice(contents, p, target.val);
      repr := repr + {target};
    }

    method InsertBefore(entry: Entry<T>, target: Entry<T>, ghost p: nat)
      requires Valid() && target !in repr
      requires 0 < p < |nodes| && nodes[p] == entry
      modifies this, repr, target
      ensures Valid()
      ensures nodes == Splice(old(nodes), p, target) && repr == old(repr) + {target}
      ensures contents == Splice(old(contents), p - 1, target.val)
      ensures target.val == old(target.val)
      ensures forall e <- old(repr) :: e.val == old(e.val)
    {
      entry.prev.next := target;
      target.prev := entry.prev;
      entry.prev := target;
      target.next := entry;
      num := num + 1;
      nodes := Splice(nodes, p, target);
      contents := Splice(contents, p - 1, target.val);
      repr := repr + {target};
    }

    method SetVal(entry: Entry<T>, v: T, ghost p: nat)
      requires Valid()
      requires 0 < p < |nodes| && nodes[p] == entry
      modifies `contents, entry`val
      ensures Valid() && contents == old(contents)[p - 1 := v]
    {
      entry.val := v;
      contents := contents[p - 1 := v];
    }

    method PopFront() returns (r: Entry?<T>)
      requires Valid()
      modifies this, repr
      ensures Valid()
      ensures r == null <==> old(contents) == []
      ensures r == null ==> repr == old(repr) && contents == []
      ensures r != null ==> r == old(nodes)[1] && repr == old(repr) - {r}
      ensures r != null ==> old(contents) == [r.val] + contents
    {
      if head.next == head {
        assert |nodes| == 1;
        return null;
      }
      r := RmNf(head.next, 1);
    }

    method PopBack() returns (r: Entry?<T>)
      requires Valid()
      modifies this, repr
      ensures Valid()
      ensures r == null <==> old(contents) == []
      ensures r == null ==> repr == old(repr) && contents == []
      ensures r != null ==> r == old(nodes)[|old(nodes)| - 1] && repr == old(repr) - {r}
      ensures r != null ==> old(contents) == contents + [r.val]
    {
      if head.next == head {
        assert |nodes| == 1;
        return null;
      }
      r := RmNf(head.prev, |nodes| - 1);
    }

    method MoveBack(entry: Entry<T>, dst: Ring<T>, ghost p: nat)
      requires Valid() && dst.Valid() && Apart(dst)
      requires 0 < p < |nodes| && nodes[p] == entry
      modifies this, repr, dst, dst.repr
      ensures Valid() && dst.Valid() && Apart(dst)
      ensures nodes == old(nodes[..p] + nodes[p + 1..])
      ensures repr == old(repr) - {entry} && dst.repr == old(dst.repr) + {entry}
      ensures contents == old(contents)[..p - 1] + old(contents)[p..]
      ensures dst.contents == old(dst.contents + [contents[p - 1]])
    {
      var e := RmNf(entry, p);
      dst.InsertBack(e);
    }

    method MoveFront(entry: Entry<T>, dst: Ring<T>, ghost p: nat)
      requires Valid() && dst.Valid() && Apart(dst)
      requires 0 < p < |nodes| && nodes[p] == entry
      modifies this, repr, dst, dst.repr
      ensures Valid() && dst.Valid() && Apart(dst)
      ensures nodes == old(nodes[..p] + nodes[p + 1..])
      ensures repr == old(repr) - {entry} && dst.repr == old(dst.repr) + {entry}
      ensures contents == old(contents)[..p - 1] + old(contents)[p..]
      ensures dst.contents == old([contents[p - 1]] + dst.contents)
    {
      var e := RmNf(entry, p);
      dst.InsertFront(e);
    }

    /** list_destroy by way of list_iter: the callback clobbers each entry it is
        given, and the walk still reaches every entry once, in order. */
    method Destroy() returns (ghost freed: seq<Entry<T>>)
      requires Valid()
      modifies nodes[1..]
      ensures freed == nodes[1..]
    {
      freed := [];
      var curr := head;
      var next := head.next;
      while next != head
        invariant |freed| < |nodes| && freed == nodes[1..|freed| + 1]
        invariant next == if |freed| + 1 < |nodes| then nodes[|freed| + 1] else head
        invariant forall i :: |freed| + 1 <= i < |nodes| ==> nodes[i].next == old(nodes[i].next)
        decreases |nodes| - |freed|
      {
        curr := next;
        next := curr.next;
        curr.next, curr.prev := curr, curr;
        freed := freed + [curr];
      }
    }
  }
}
