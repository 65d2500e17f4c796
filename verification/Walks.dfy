/** The walks of dict_iter and dict_scan that put keys into the reply array. */
module Walks {
  import opened Bytes
  import opened Buckets
  import opened Dicts
  import opened ReplyArrays
  import opened ReplyCodec

  /** What an element of the reply array points to: the key of an entry, or the number
      that SSCAN puts first and changes later. */
  datatype Ref = Key(text: Bytes) | Number

  function Refs(keys: seq<Bytes>): (refs: seq<Ref>)
    ensures |refs| == |keys| && forall i :: 0 <= i < |keys| ==> refs[i] == Key(keys[i])
  {
    seq(|keys|, i requires 0 <= i < |keys| => Key(keys[i]))
  }

  /** The texts that are sent when the number reads as given. */
  function Texts(refs: seq<Ref>, number: Bytes): (texts: seq<Bytes>)
    ensures |texts| == |refs|
    ensures forall i :: 0 <= i < |refs| ==> texts[i] == if refs[i].Key? then refs[i].text else number
  {
    seq(|refs|, i requires 0 <= i < |refs| => if refs[i].Key? then refs[i].text else number)
  }

  /** The elements with their types: STR_NORMAL for a key, NEED_FREE for the number. */
  function RefElems(refs: seq<Ref>, number: Bytes): (es: seq<Elem>)
    ensures |es| == |refs|
    ensures forall i :: 0 <= i < |refs| ==> es[i] == if refs[i].Key? then Elem(0, refs[i].text) else Elem(16, number)
  {
    if refs == [] then []
    else [if refs[0].Key? then Elem(0, refs[0].text) else Elem(16, number)] + RefElems(refs[1..], number)
  }

  function KeyElems(keys: seq<Bytes>): (es: seq<Elem>)
    ensures |es| == |keys| && forall i :: 0 <= i < |keys| ==> es[i] == Elem(0, keys[i])
  {
    RefElems(Refs(keys), [])
  }

  /** An array reply, or the error for one that is too long. */
  datatype Sending = Sent(texts: seq<Bytes>) | TooLong

  /** What is sent for a reply array when the number reads as given. */
  function Send(refs: seq<Ref>, number: Bytes): Sending {
    if Sendable(RefElems(refs, number)) then Sent(Texts(refs, number)) else TooLong
  }

  /** One chain, with addkey_to_arr for the callback. */
  method AddChain<V>(d: Dict<V>, b: nat, arr0: seq<Ref>, ghost met0: seq<Bytes>)
      returns (arr: seq<Ref>, ghost met: seq<Bytes>)
    requires d.Valid() && b < |d.table|
    ensures met == met0 + KeysOf(d.table[b]) && arr == AddAll(arr0, Refs(KeysOf(d.table[b])))
  {
    arr, met := arr0, met0;
    var curr := d.hashTbl[b];
    ghost var j, chain, keys := 0, d.chains[b], KeysOf(d.table[b]);
    assert Chained(curr, chain, d.table[b]);
    while curr != null
      invariant j <= |keys| && curr == if j < |keys| then chain[j] else null
      invariant met == met0 + keys[..j] && arr == AddAll(arr0, Refs(keys[..j]))
      decreases |keys| - j
    {
      AddAllOneMore(arr0, Refs(keys[..j]), Key(curr.key));
      arr, met := AddTo(arr, Key(curr.key)), met + [curr.key];
      assert keys[..j + 1] == keys[..j] + [keys[j]];
      assert Refs(keys[..j + 1]) == Refs(keys[..j]) + [Key(keys[j])];
      curr := curr.next;
      j := j + 1;
    }
    assert keys[..j] == keys;
  }

  lemma RefsConcat(arr0: seq<Ref>, a: seq<Bytes>, b: seq<Bytes>)
    ensures AddAll(arr0, Refs(a + b)) == AddAll(AddAll(arr0, Refs(a)), Refs(b))
  {
    AddAllConcat(arr0, Refs(a), Refs(b));
    assert Refs(a + b) == Refs(a) + Refs(b);
  }

  /** dict_iter with addkey_to_arr: the keys in walking order go into the reply array. */
  method AddKeys<V>(d: Dict<V>) returns (arr: seq<Ref>, ghost met: seq<Bytes>)
    requires d.Valid()
    ensures met == WalkKeys(d.table) && arr == AddAll([], Refs(met))
  {
    arr, met := [], [];
    for b := 0 to d.hashTbl.Length
      invariant met == WalkKeys(d.table[..b]) && arr == AddAll([], Refs(met))
    {
      WalkOneMore(d.table, b);
      RefsConcat([], met, KeysOf(d.table[b]));
      arr, met := AddChain(d, b, arr, met);
    }
    assert d.table[..|d.table|] == d.table;
  }

  lemma WalkOneMore<V>(t: Table<V>, b: nat)
    requires b < |t|
    ensures WalkKeys(t[..b + 1]) == WalkKeys(t[..b]) + KeysOf(t[b])
  {
    assert t[..b + 1] == t[..b] + [t[b]];
    WalkConcat(t[..b], [t[b]]);
    assert WalkKeys([t[b]]) == KeysOf(t[b]) + [];
  }

  /** What a reply array keeps of more elements. */
  lemma {:induction false} KeptTexts(refs: seq<Ref>, xs: seq<Ref>)
    requires |refs| < LEN_MOD
    ensures |refs + xs| < LEN_MOD ==> AddAll(refs, xs) == refs + xs
    ensures |refs + xs| >= LEN_MOD ==> |AddAll(refs, xs)| < |refs + xs|
    ensures |AddAll(refs, xs)| == |refs + xs| % LEN_MOD
  {
    AddAllKeeps(refs, xs);
    if |refs + xs| < LEN_MOD {
      assert (refs + xs)[0..] == refs + xs;
    }
  }

  lemma SameTexts(met: seq<Bytes>, number: Bytes)
    ensures Texts(Refs(met), number) == met && Texts([Number] + Refs(met), number) == [number] + met
    ensures RefElems(Refs(met), number) == KeyElems(met)
    ensures RefElems([Number] + Refs(met), number) == [Elem(16, number)] + KeyElems(met)
  {
  }

  /** Keys alone are sent as they were met exactly if there are at most 255 of them and there
      is room for them in a reply. */
  lemma {:induction false} KeysWhole(met: seq<Bytes>)
    ensures Send(AddAll([], Refs(met)), []) == Sent(met) <==> |met| <= 255 && Sendable(KeyElems(met))
  {
    KeptTexts([], Refs(met));
    assert [] + Refs(met) == Refs(met);
    SameTexts(met, []);
    if |met| > 255 { assert |Texts(AddAll([], Refs(met)), [])| < |met|; }
  }

  /** Keys behind the number are sent so exactly if there are at most 254 of them and there is
      room for all of it in a reply. */
  lemma {:induction false} NumberedWhole(met: seq<Bytes>, number: Bytes)
    ensures Send(AddAll([Number], Refs(met)), number) == Sent([number] + met)
      <==> |met| <= 254 && Sendable([Elem(16, number)] + KeyElems(met))
    ensures |AddAll([Number], Refs(met))| == (|met| + 1) % LEN_MOD
  {
    KeptTexts([Number], Refs(met));
    SameTexts(met, number);
    if |met| > 254 { assert |Texts(AddAll([Number], Refs(met)), number)| < |met| + 1; }
  }

  /** The 256th element empties the reply array. */
  lemma {:induction false} NothingLeft(met: seq<Bytes>, number: Bytes)
    requires |met| == 255
    ensures Send(AddAll([Number], Refs(met)), number) == Sent([])
  {
    KeptTexts([Number], Refs(met));
    assert AddAll([Number], Refs(met)) == [];
  }

  /** The room that keys of some length take up at least. */
  lemma {:induction false} RoomAtLeast(keys: seq<Bytes>, len: nat)
    requires forall i :: 0 <= i < |keys| ==> |keys[i]| >= len
    ensures Room(KeyElems(keys)) >= |keys| * (len + SIZE_TL)
  {
    if keys != [] {
      assert !IsNil(0);
      assert KeyElems(keys)[1..] == KeyElems(keys[1..]);
      RoomAtLeast(keys[1..], len);
    }
  }
}
