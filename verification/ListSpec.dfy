/** What the list commands mean on sequences, and the laws of those meanings. */
module ListSpec {
  import opened Bytes

  function Reverse<T>(s: seq<T>): (r: seq<T>)
    ensures |r| == |s|
  {
    if s == [] then [] else Reverse(s[1..]) + [s[0]]
  }

  /** s without any v. */
  function Without<T(==)>(s: seq<T>, v: T): seq<T> {
    if s == [] then [] else (if s[0] == v then [] else [s[0]]) + Without(s[1..], v)
  }

  /** s without its first n occurrences of v. */
  function RemoveFirst<T(==)>(s: seq<T>, v: T, n: nat): (r: seq<T>)
    ensures |r| <= |s|
  {
    if s == [] then []
    else if s[0] == v && n > 0 then RemoveFirst(s[1..], v, n - 1)
    else [s[0]] + RemoveFirst(s[1..], v, n)
  }

  /** s without its last n occurrences of v. */
  function RemoveLast<T(==)>(s: seq<T>, v: T, n: nat): (r: seq<T>)
    ensures |r| <= |s|
  {
    if s == [] then []
    else
      var k := |s| - 1;
      if s[k] == v && n > 0 then RemoveLast(s[..k], v, n - 1)
      else RemoveLast(s[..k], v, n) + [s[k]]
  }

  /** The survivors of LREM key target v. */
  function LRemSpec<T(==)>(s: seq<T>, target: int, v: T): seq<T> {
    if target > 0 then RemoveFirst(s, v, target)
    else if target == 0 then Without(s, v)
    else RemoveLast(s, v, -target)
  }

  lemma {:induction false} RemoveNone<T>(s: seq<T>, v: T)
    ensures RemoveFirst(s, v, 0) == s
    ensures RemoveLast(s, v, 0) == s
  {
    if s != [] {
      RemoveNone(s[1..], v);
      RemoveNone(s[..|s| - 1], v);
    }
  }

  /** A forward walk that has decided the first k elements of c. */
  lemma ForwardStep<T>(c: seq<T>, k: nat, v: T, n: nat)
    requires k < |c|
    ensures c[k] == v && n > 0 ==>
      Drop(c, k)[..k] + RemoveFirst(Drop(c, k)[k..], v, n - 1) == c[..k] + RemoveFirst(c[k..], v, n)
    ensures c[k] != v || n == 0 ==> c[..k + 1] + RemoveFirst(c[k + 1..], v, n) == c[..k] + RemoveFirst(c[k..], v, n)
  {
    assert c[k..][1..] == c[k + 1..];
    assert Drop(c, k)[..k] == c[..k] && Drop(c, k)[k..] == c[k + 1..];
    assert c[..k] + ([c[k]] + RemoveFirst(c[k + 1..], v, n)) == c[..k + 1] + RemoveFirst(c[k + 1..], v, n);
  }

  /** A backward walk that has yet to decide the first k elements of c. */
  lemma BackwardStep<T>(c: seq<T>, k: nat, v: T, n: nat)
    requires 0 < k <= |c|
    ensures c[k - 1] == v && n > 0 ==>
      RemoveLast(Drop(c, k - 1)[..k - 1], v, n - 1) + Drop(c, k - 1)[k - 1..] == RemoveLast(c[..k], v, n) + c[k..]
    ensures c[k - 1] != v || n == 0 ==> RemoveLast(c[..k - 1], v, n) + c[k - 1..] == RemoveLast(c[..k], v, n) + c[k..]
  {
    assert c[..k][..k - 1] == c[..k - 1];
    assert Drop(c, k - 1)[..k - 1] == c[..k - 1] && Drop(c, k - 1)[k - 1..] == c[k..];
    assert (RemoveLast(c[..k - 1], v, n) + [c[k - 1]]) + c[k..] == RemoveLast(c[..k - 1], v, n) + c[k - 1..];
  }

  /** A forward walk that removes every v. */
  lemma SweepStep<T>(c: seq<T>, k: nat, v: T)
    requires k < |c|
    ensures c[k] == v ==> Drop(c, k)[..k] + Without(Drop(c, k)[k..], v) == c[..k] + Without(c[k..], v)
    ensures c[k] != v ==> c[..k + 1] + Without(c[k + 1..], v) == c[..k] + Without(c[k..], v)
  {
    assert c[k..][1..] == c[k + 1..];
    assert Drop(c, k)[..k] == c[..k] && Drop(c, k)[k..] == c[k + 1..];
    assert c[..k] + ([c[k]] + Without(c[k + 1..], v)) == c[..k + 1] + Without(c[k + 1..], v);
  }

  lemma {:induction false} WithoutConcat<T>(a: seq<T>, b: seq<T>, v: T)
    ensures Without(a + b, v) == Without(a, v) + Without(b, v)
  {
    if a == [] {
      assert a + b == b;
    } else {
      assert (a + b)[1..] == a[1..] + b;
      WithoutConcat(a[1..], b, v);
    }
  }

  lemma CountSnoc<T>(s: seq<T>, x: T, v: T)
    ensures Count(s + [x], v) == Count(s, v) + if x == v then 1 else 0
    ensures Without(s + [x], v) == Without(s, v) + if x == v then [] else [x]
  {
    CountConcat(s, [x], v);
    WithoutConcat(s, [x], v);
  }

  lemma {:induction false} WithoutCount<T>(s: seq<T>, v: T)
    ensures |Without(s, v)| == |s| - Count(s, v)
    ensures v !in Without(s, v)
  {
    if s != [] { WithoutCount(s[1..], v); }
  }

  lemma {:induction false} ReverseConcat<T>(a: seq<T>, b: seq<T>)
    ensures Reverse(a + b) == Reverse(b) + Reverse(a)
  {
    if a == [] {
      assert a + b == b;
    } else {
      assert (a + b)[1..] == a[1..] + b;
      ReverseConcat(a[1..], b);
    }
  }

  lemma {:induction false} ReverseTwice<T>(s: seq<T>)
    ensures Reverse(Reverse(s)) == s
  {
    if s != [] {
      ReverseTwice(s[1..]);
      ReverseConcat(Reverse(s[1..]), [s[0]]);
      assert Reverse([s[0]]) == [s[0]];
    }
  }

  lemma {:induction false} ReverseAt<T>(s: seq<T>, i: nat)
    requires i < |s|
    ensures Reverse(s)[i] == s[|s| - 1 - i]
  {
    if i < |s| - 1 { ReverseAt(s[1..], i); }
  }

  /** Where the first-n removal stops: every v before the cut goes, none after it. */
  lemma {:induction false} RemoveFirstCut<T>(s: seq<T>, v: T, n: nat) returns (cut: nat)
    ensures cut <= |s|
    ensures Count(s[..cut], v) == Min(n, Count(s, v))
    ensures RemoveFirst(s, v, n) == Without(s[..cut], v) + s[cut..]
  {
    if s == [] || n == 0 {
      RemoveNone(s, v);
      cut := 0;
    } else {
      var k := RemoveFirstCut(s[1..], v, if s[0] == v then n - 1 else n);
      cut := k + 1;
      assert s[..cut][1..] == s[1..][..k] && s[cut..] == s[1..][k..];
    }
  }

  /** LREM with a negative count is LREM with the positive one seen in a mirror. */
  lemma {:induction false} RemoveLastMirrors<T>(s: seq<T>, v: T, n: nat)
    ensures RemoveLast(s, v, n) == Reverse(RemoveFirst(Reverse(s), v, n))
  {
    if s != [] {
      var k := |s| - 1;
      ReverseConcat(s[..k], [s[k]]);
      assert s == s[..k] + [s[k]];
      assert Reverse([s[k]]) == [s[k]];
      assert Reverse(s)[1..] == Reverse(s[..k]);
      RemoveLastMirrors(s[..k], v, if s[k] == v && n > 0 then n - 1 else n);
    }
  }

  /** Taking all v out of one part of s leaves the other elements as they were. */
  lemma {:induction false} WithoutPart<T>(a: seq<T>, b: seq<T>, v: T)
    ensures Without(Without(a, v) + b, v) == Without(a + b, v) == Without(a + Without(b, v), v)
    ensures |Without(a, v) + b| == |a + b| - Count(a, v)
    ensures |a + Without(b, v)| == |a + b| - Count(b, v)
  {
    WithoutConcat(a, b, v);
    WithoutConcat(Without(a, v), b, v);
    WithoutConcat(a, Without(b, v), v);
    WithoutCount(a, v);
    WithoutCount(b, v);
    WithoutAbsent(Without(a, v), v);
    WithoutAbsent(Without(b, v), v);
  }

  /** LREM as a whole: which occurrences go, that the rest keep their order, and
      how many are gone. */
  lemma LRemMeaning<T>(s: seq<T>, target: int, v: T) returns (cut: nat)
    ensures cut <= |s|
    ensures var r := LRemSpec(s, target, v);
      && |s| - |r| == (if target == 0 then Count(s, v) else Min(if target < 0 then -target else target, Count(s, v)))
      && (target > 0 ==> r == Without(s[..cut], v) + s[cut..])
      && (target < 0 ==> r == s[..cut] + Without(s[cut..], v))
      && (target == 0 ==> v !in r)
      && Without(r, v) == Without(s, v)
  {
    if target == 0 {
      cut := 0;
      WithoutCount(s, v);
      WithoutAbsent(Without(s, v), v);
    } else {
      if target > 0 { cut := RemoveFirstCut(s, v, target); } else { cut := RemoveLastCut(s, v, -target); }
      assert s == s[..cut] + s[cut..];
      WithoutPart(s[..cut], s[cut..], v);
    }
  }

  lemma {:induction false} RemoveLastCut<T>(s: seq<T>, v: T, n: nat) returns (cut: nat)
    ensures cut <= |s|
    ensures Count(s[cut..], v) == Min(n, Count(s, v))
    ensures RemoveLast(s, v, n) == s[..cut] + Without(s[cut..], v)
  {
    if s == [] || n == 0 {
      RemoveNone(s, v);
      cut := |s|;
      assert s[..cut] + Without(s[cut..], v) == s;
    } else {
      var t, x := s[..|s| - 1], s[|s| - 1];
      assert s == t + [x];
      cut := RemoveLastCut(t, v, if x == v then n - 1 else n);
      CutCounts(t, x, v, cut);
      CutRest(t, x, v, cut);
      RemoveLastStep(t, x, v, n);
    }
  }

  lemma {:induction false} CutCounts<T>(t: seq<T>, x: T, v: T, cut: nat)
    requires cut <= |t|
    ensures Count((t + [x])[cut..], v) == Count(t[cut..], v) + if x == v then 1 else 0
    ensures Count(t + [x], v) == Count(t, v) + if x == v then 1 else 0
  {
    assert (t + [x])[cut..] == t[cut..] + [x];
    CountSnoc(t, x, v);
    CountSnoc(t[cut..], x, v);
  }

  lemma CutRest<T>(t: seq<T>, x: T, v: T, cut: nat)
    requires cut <= |t|
    ensures var s := t + [x];
      s[..cut] + Without(s[cut..], v) == t[..cut] + Without(t[cut..], v) + if x == v then [] else [x]
  {
    var s := t + [x];
    assert s[..cut] == t[..cut] && s[cut..] == t[cut..] + [x];
    CountSnoc(t[cut..], x, v);
  }

  lemma RemoveLastStep<T>(t: seq<T>, x: T, v: T, n: nat)
    requires n > 0
    ensures RemoveLast(t + [x], v, n) == if x == v then RemoveLast(t, v, n - 1) else RemoveLast(t, v, n) + [x]
  {
    var s := t + [x];
    assert s[..|s| - 1] == t;
  }

  lemma {:induction false} WithoutAbsent<T>(s: seq<T>, v: T)
    requires v !in s
    ensures Without(s, v) == s
  {
    if s != [] { WithoutAbsent(s[1..], v); }
  }

  /** s after its new elements were pushed, one after the other, on one end. */
  function Pushed<T>(front: bool, s: seq<T>, vals: seq<T>): seq<T> {
    if front then Reverse(vals) + s else s + vals
  }

  lemma PushedOneMore<T>(front: bool, s: seq<T>, vals: seq<T>, x: T)
    ensures Pushed(front, s, vals + [x]) == if front then [x] + Pushed(front, s, vals) else Pushed(front, s, vals) + [x]
  {
    ReverseConcat(vals, [x]);
    assert Reverse([x]) == [x];
    if front {
      assert ([x] + Reverse(vals)) + s == [x] + (Reverse(vals) + s);
    } else {
      assert s + (vals + [x]) == (s + vals) + [x];
    }
  }

  // ---- LRANGE and LTRIM ---------------------------------------------------

  /** A negative offset counts from the end. */
  function FromEnd(n: nat, k: int): int {
    if k < 0 then k + n else k
  }

  /** The elements that LRANGE key a b replies with and LTRIM key a b keeps. */
  function Range<T>(s: seq<T>, a: int, b: int): seq<T> {
    var lo := Max(FromEnd(|s|, a), 0);
    var hi := FromEnd(|s|, b);
    if hi < lo || lo >= |s| then [] else s[lo..Min(hi + 1, |s|)]
  }

  /** The elements of s at the places from first to last that exist. */
  function Between<T>(s: seq<T>, first: int, last: int): seq<T> {
    if s == [] then []
    else (if first <= 0 <= last then [s[0]] else []) + Between(s[1..], first - 1, last - 1)
  }

  lemma {:induction false} RangeIsBetween<T>(s: seq<T>, a: int, b: int)
    ensures Range(s, a, b) == Between(s, if a < 0 then a + |s| else a, if b < 0 then b + |s| else b)
  {
    BetweenSlice(s, FromEnd(|s|, a), FromEnd(|s|, b));
  }

  lemma {:induction false} BetweenSlice<T>(s: seq<T>, first: int, last: int)
    ensures Between(s, first, last) ==
            (var lo := Max(first, 0); if last < lo || lo >= |s| then [] else s[lo..Min(last + 1, |s|)])
  {
    if s != [] {
      var lo := Max(first, 0);
      BetweenSlice(s[1..], first - 1, last - 1);
      if last < lo || lo >= |s| {
      } else {
        var end := Min(last + 1, |s|);
        if lo > 0 {
          assert s[lo..end] == s[1..][lo - 1..end - 1];
        } else {
          assert s[0..end] == [s[0]] + s[1..][0..end - 1];
        }
      }
    }
  }

  /** Place i of n lies within the two offsets, of which negative ones count back from -1 for the
      last place. */
  predicate Within(i: nat, n: nat, a: int, b: int) {
    (if a >= 0 then a <= i else a <= i - n) && (if b >= 0 then i <= b else i - n <= b)
  }

  /** The range is the stretch of s at just those places. */
  lemma RangePlaces<T>(s: seq<T>, a: int, b: int) returns (lo: nat)
    ensures lo + |Range(s, a, b)| <= |s| && Range(s, a, b) == s[lo..lo + |Range(s, a, b)|]
    ensures forall i: nat :: i < |s| ==> (lo <= i < lo + |Range(s, a, b)| <==> Within(i, |s|, a, b))
  {
    lo := if Range(s, a, b) == [] then 0 else Max(if a < 0 then a + |s| else a, 0);
  }

  /** The last d elements. */
  lemma RangeFromEnd<T>(s: seq<T>, d: int)
    requires 0 < d <= |s|
    ensures Range(s, -d, -1) == s[|s| - d..]
  {
  }

  /** What LTRIM leaves is what LRANGE showed before. */
  lemma TrimThenRange<T>(s: seq<T>, a: int, b: int)
    ensures Range(Range(s, a, b), 0, -1) == Range(s, a, b)
  {
    var r := Range(s, a, b);
    if r != [] { assert r[0..|r|] == r; }
  }

  // ---- LINSERT and LSET ---------------------------------------------------

  /** The place of the first v, or |s|. */
  function Find<T(==)>(s: seq<T>, v: T): (p: nat)
    ensures p <= |s| && v !in s[..p]
    ensures p < |s| <==> v in s
    ensures p < |s| ==> s[p] == v
  {
    if s == [] || s[0] == v then 0
    else
      assert forall p: nat :: p <= |s[1..]| ==> s[..p + 1] == [s[0]] + s[1..][..p];
      1 + Find(s[1..], v)
  }

  lemma {:induction false} FindIs<T>(s: seq<T>, v: T, p: nat)
    requires p < |s| && s[p] == v && v !in s[..p]
    ensures Find(s, v) == p
  {
    if p > 0 {
      assert s[..p] == [s[0]] + s[1..][..p - 1];
      FindIs(s[1..], v, p - 1);
    }
  }

  function LInsertSpec<T(==)>(s: seq<T>, after: bool, pivot: T, v: T): seq<T> {
    var p := Find(s, pivot);
    if p == |s| then s
    else if after then s[..p + 1] + [v] + s[p + 1..]
    else s[..p] + [v] + s[p..]
  }

  /** LINSERT puts one element next to the first pivot and leaves the others alone. */
  lemma {:induction false} LInsertPlaces<T>(s: seq<T>, after: bool, pivot: T, v: T) returns (i: nat)
    ensures pivot !in s ==> LInsertSpec(s, after, pivot, v) == s
    ensures pivot in s ==>
      var r := LInsertSpec(s, after, pivot, v);
      && i < |r| && r[i] == v && Drop(r, i) == s
      && (after ==> i > 0 && r[i - 1] == pivot && pivot !in s[..i - 1])
      && (!after ==> i + 1 < |r| && r[i + 1] == pivot && pivot !in s[..i])
  {
    var p := Find(s, pivot);
    i := if after then p + 1 else p;
    if pivot in s {
      assert Drop(LInsertSpec(s, after, pivot, v), i) == s;
    }
  }

  function LSetSpec<T>(s: seq<T>, index: int, v: T): seq<T> {
    var i := FromEnd(|s|, index);
    if 0 <= i < |s| then s[i := v] else s
  }
}
