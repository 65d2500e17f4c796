/** Bytes, byte strings, and what the other modules share about sequences. */
module Bytes {

  type Byte = b: nat | b < 256

  type Bytes = seq<Byte>

  datatype Option<+T> = None | Some(value: T)

  function Max(a: int, b: int): int {
    if a < b then b else a
  }

  function Min(a: int, b: int): int {
    if a < b then a else b
  }

  /** How often v occurs in s. */
  function Count<T(==)>(s: seq<T>, v: T): (n: nat)
    ensures n <= |s|
  {
    if s == [] then 0 else (if s[0] == v then 1 else 0) + Count(s[1..], v)
  }

  lemma {:induction false} CountConcat<T>(a: seq<T>, b: seq<T>, v: T)
    ensures Count(a + b, v) == Count(a, v) + Count(b, v)
  {
    if a == [] {
      assert a + b == b;
    } else {
      assert (a + b)[1..] == a[1..] + b;
      CountConcat(a[1..], b, v);
    }
  }

  lemma {:induction false} CountAt<T>(s: seq<T>, i: nat)
    requires i < |s|
    ensures Count(s, s[i]) >= 1
  {
    if i > 0 { CountAt(s[1..], i - 1); }
  }

  /** s with the element at place k taken out. */
  function Drop<T>(s: seq<T>, k: nat): seq<T>
    requires k < |s|
  {
    s[..k] + s[k + 1..]
  }

  lemma SliceOfSlice(data: Bytes, curr: nat, i: nat, j: nat)
    requires curr <= |data| && i <= j <= |data| - curr
    ensures data[curr..][i..j] == data[curr + i..curr + j] && data[curr..][i..] == data[curr + i..]
  {
  }

  /** isspace in the C locale */
  predicate IsSpace(b: Byte) {
    b == 32 || 9 <= b <= 13
  }

  ghost predicate AllSpace(s: Bytes) {
    forall i :: 0 <= i < |s| ==> IsSpace(s[i])
  }
}
