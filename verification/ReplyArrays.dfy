/** The reply array of server/server.c. Its length is a uint8_t, so the test for a
    full array of 1024 is never true and the 256th element empties it again. */
module ReplyArrays {

  const LEN_MOD := 256

  /** addto_reply_arr */
  function AddTo<T>(arr: seq<T>, x: T): (r: seq<T>)
    ensures |arr| < LEN_MOD ==> |r| == (|arr| + 1) % LEN_MOD
  {
    if |arr| == LEN_MOD - 1 then [] else arr + [x]
  }

  function AddAll<T>(arr: seq<T>, xs: seq<T>): seq<T>
    decreases |xs|
  {
    if xs == [] then arr else AddAll(AddTo(arr, xs[0]), xs[1..])
  }

  lemma {:induction false} AddAllConcat<T>(arr: seq<T>, xs: seq<T>, ys: seq<T>)
    ensures AddAll(arr, xs + ys) == AddAll(AddAll(arr, xs), ys)
    decreases |xs|
  {
    if xs == [] {
      assert xs + ys == ys;
    } else {
      assert (xs + ys)[1..] == xs[1..] + ys;
      AddAllConcat(AddTo(arr, xs[0]), xs[1..], ys);
    }
  }

  lemma AddAllOneMore<T>(arr: seq<T>, xs: seq<T>, x: T)
    ensures AddAll(arr, xs + [x]) == AddTo(AddAll(arr, xs), x)
  {
    AddAllConcat(arr, xs, [x]);
  }

  /** What is left of a number of elements added one after the other. */
  lemma {:induction false} AddAllKeeps<T>(arr: seq<T>, xs: seq<T>)
    requires |arr| < LEN_MOD
    ensures AddAll(arr, xs) == (arr + xs)[|arr + xs| / LEN_MOD * LEN_MOD..]
    decreases |xs|
  {
    if xs == [] {
      assert arr + xs == arr;
    } else {
      var n := |arr + xs|;
      AddAllKeeps(AddTo(arr, xs[0]), xs[1..]);
      if |arr| < LEN_MOD - 1 {
        assert (arr + [xs[0]]) + xs[1..] == arr + xs;
      } else {
        assert [] + xs[1..] == (arr + xs)[LEN_MOD..];
        assert n / LEN_MOD == (n - LEN_MOD) / LEN_MOD + 1;
      }
    }
  }

  /** The array holds all that was added exactly when that is at most 255 elements. */
  lemma AddAllFits<T>(xs: seq<T>)
    ensures AddAll([], xs) == xs <==> |xs| < LEN_MOD
    ensures |AddAll([], xs)| == |xs| % LEN_MOD
  {
    AddAllKeeps([], xs);
    assert [] + xs == xs;
    assert |xs| < LEN_MOD ==> xs[0..] == xs;
  }
}
