/** What the client displays of the array replies that the server sends. */
module Displays {
  import opened BitStrings
  import opened Bytes
  import Machine
  import opened ReplyCodec
  import opened Walks

  /** Elements that fit in a reply are short enough for their length fields. */
  lemma SendableFits(es: seq<Elem>)
    requires Sendable(es) && forall i :: 0 <= i < |es| ==> IsNil(es[i].ty) ==> es[i].text == []
    ensures Fits(es)
  {
    forall i | 0 <= i < |es| ensures |es[i].text| < 0x8000_0000 {
      if !IsNil(es[i].ty) { RoomBound(es, i); }
    }
  }

  /** The types that the server gives its elements, with their flags. */
  lemma Types()
    ensures !IsNil(0) && !IsEnd(0) && !IsNotQuoted(0) && !IsNI(0)
    ensures !IsNil(16) && !IsEnd(16)
    ensures !IsNil(24) && !IsEnd(24) && !IsNotQuoted(24) && IsNI(24)
    ensures IsNil(9) && !IsEnd(9) && IsNI(9)
    ensures !IsNil(12) && !IsEnd(12) && IsNotQuoted(12) && IsNI(12)
  {
    assert Bit(16, 1) == Bit(8, 0);
    assert Bit(24, 1) == Bit(12, 0) && Bit(24, 2) == Bit(12, 1) == Bit(6, 0);
    assert Bit(24, 3) == Bit(12, 2) == Bit(6, 1) == Bit(3, 0);
    assert Bit(9, 1) == Bit(4, 0) && Bit(9, 3) == Bit(4, 2) == Bit(2, 1) == Bit(1, 0);
    assert Bit(12, 1) == Bit(6, 0) && Bit(12, 2) == Bit(6, 1) == Bit(3, 0);
    assert Bit(12, 3) == Bit(6, 2) == Bit(3, 1) == Bit(1, 0);
    assert Bit(0, 1) == 0 && Bit(0, 2) == Bit(0, 1) && Bit(0, 3) == Bit(0, 2);
  }

  // ---- LRANGE and the blocking pops -----------------------------------------------

  /** A line of the display: keys, popped elements, nil and the time stand without a number,
      the elements of a range with one. */
  function Line(item: Machine.Item): Shown {
    match item
    case KeyItem(name) => Shown(false, Text(true, name))
    case PopItem(elem) => Shown(false, Text(true, elem))
    case ValItem(elem) => Shown(true, Text(true, elem))
    case NilItem => Shown(false, NilItem)
    case Elapsed(us) => Shown(false, Text(false, Machine.TimeText(us)))
  }

  function Lines(items: seq<Machine.Item>): seq<Shown> {
    if items == [] then [] else [Line(items[0])] + Lines(items[1..])
  }

  lemma {:induction false} LinesAreShown(items: seq<Machine.Item>)
    ensures ShownForAll(Machine.Elems(items)) == Lines(items)
  {
    if items != [] {
      Types();
      assert Machine.Elems(items)[1..] == Machine.Elems(items[1..]);
      LinesAreShown(items[1..]);
    }
  }

  /** Any array of the server that fits in a reply is displayed line by line, to its end. */
  lemma ItemsDisplayed(items: seq<Machine.Item>)
    requires Machine.FitsReply(items)
    ensures var es := Machine.Elems(items);
      Fits(es) && Decode(EncodeAll(es) + [STR_END]) == Some((Lines(items), []))
  {
    Types();
    SendableFits(Machine.Elems(items));
    RoundTrip(Machine.Elems(items));
    LinesAreShown(items);
  }

  /** The bytes of the reply to a blocking pop that found the element v under the key k. */
  lemma PopOnTheWire()
    ensures var es := Machine.Elems([Machine.KeyItem([107]), Machine.PopItem([118])]);
      Fits(es) && EncodeAll(es) + [STR_END] == [8, 1, 0, 0, 0, 107, 8, 1, 0, 0, 0, 118, 2]
  {
    hide Encode, EncodeAll;
    TwoOnTheWire(Machine.KeyItem([107]), Machine.PopItem([118]));
    OnTheWire(24, [107], 1, 0, 0, 0);
    OnTheWire(24, [118], 1, 0, 0, 0);
  }

  /** The bytes of the reply to one that waited 1.23 seconds in vain. */
  lemma TimeoutOnTheWire()
    ensures var es := Machine.Elems([Machine.NilItem, Machine.Elapsed(1_234_567)]);
      Fits(es) && EncodeAll(es) + [STR_END] == [9, 12, 6, 0, 0, 0, 40, 49, 46, 50, 51, 41, 2]
  {
    var time := Machine.TimeText(1_234_567);
    assert time == [40, 49, 46, 50, 51, 41];
    TwoOnTheWire(Machine.NilItem, Machine.Elapsed(1_234_567));
    OnTheWire(9, [], 0, 0, 0, 0);
    OnTheWire(12, time, 6, 0, 0, 0);
    hide Encode, EncodeAll, Fits, Machine.TimeText;
  }

  lemma TwoOnTheWire(a: Machine.Item, b: Machine.Item)
    requires |Machine.ElemOf(a).text| < 0x8000_0000 && |Machine.ElemOf(b).text| < 0x8000_0000
    ensures var es := Machine.Elems([a, b]);
      Fits(es) && EncodeAll(es) == Encode(Machine.ElemOf(a)) + Encode(Machine.ElemOf(b))
  {
    var es := Machine.Elems([a, b]);
    assert es[1..] == [Machine.ElemOf(b)] && es[1..][1..] == [];
    assert EncodeAll(es[1..]) == Encode(Machine.ElemOf(b)) + [];
  }

  // ---- the set commands -------------------------------------------------------------

  function KeyLines(keys: seq<Bytes>): seq<Shown> {
    if keys == [] then [] else [Shown(true, Text(true, keys[0]))] + KeyLines(keys[1..])
  }

  lemma {:induction false} KeyLinesAreShown(keys: seq<Bytes>)
    ensures ShownForAll(KeyElems(keys)) == KeyLines(keys)
  {
    if keys != [] {
      Types();
      assert KeyElems(keys)[1..] == KeyElems(keys[1..]);
      KeyLinesAreShown(keys[1..]);
    }
  }

  /** Keys that fit in a reply are displayed one by one, in quotes and numbered. */
  lemma KeysDisplayed(keys: seq<Bytes>)
    requires Sendable(KeyElems(keys))
    ensures Fits(KeyElems(keys)) && Decode(EncodeAll(KeyElems(keys)) + [STR_END]) == Some((KeyLines(keys), []))
  {
    Types();
    SendableFits(KeyElems(keys));
    RoundTrip(KeyElems(keys));
    KeyLinesAreShown(keys);
  }

  /** An SSCAN reply that fits is displayed as the cursor and the keys. */
  lemma ScanDisplayed(cursor: Bytes, keys: seq<Bytes>)
    requires Sendable([Elem(16, cursor)] + KeyElems(keys))
    ensures var es := [Elem(16, cursor)] + KeyElems(keys);
      Fits(es) && DecodeDouble(EncodeAll(es) + [STR_END]) == Some((cursor, KeyLines(keys), []))
  {
    Types();
    var es := [Elem(16, cursor)] + KeyElems(keys);
    SendableFits(es);
    assert es[1..] == KeyElems(keys) && forall i :: 0 < i < |es| ==> es[i] == KeyElems(keys)[i - 1];
    assert forall i :: 0 <= i < |keys| ==> KeyElems(keys)[i] == es[i + 1];
    DoubleRoundTrip(Elem(16, cursor), KeyElems(keys));
    KeyLinesAreShown(keys);
  }
}
