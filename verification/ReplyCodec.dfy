/** The array replies: create_arr_reply of server/server.c and the decoding part of
    display_reply in client/client.c. */
module ReplyCodec {
  import opened Bytes
  import opened Masks
  import opened BitStrings

  const MAX_RPLY_SIZE := 1024 * 1024
  const SIZE_TL := 5
  const STR_END: Byte := 2
  const TYPE_MASK := 15
  const RPLY_ARR: Byte := 7

  /** An element of the reply array; the text of a nil element is not looked at. */
  datatype Elem = Elem(ty: Byte, text: Bytes)

  // The flags of an element type: STR_NIL 1, STR_END 2, STR_NOT_QUOTED 4, STR_NI 8.

  predicate IsNil(ty: nat) { Bit(ty, 0) == 1 }

  predicate IsEnd(ty: nat) { Bit(ty, 1) == 1 }

  predicate IsNotQuoted(ty: nat) { Bit(ty, 2) == 1 }

  predicate IsNI(ty: nat) { Bit(ty, 3) == 1 }

  function Masked(ty: Byte): (r: Byte)
  {
    AndBound(ty, TYPE_MASK);
    And(ty, TYPE_MASK)
  }

  /** The upper bits of a type are not transferred; the four flags are. */
  lemma MaskKeepsFlags(ty: Byte)
    ensures IsNil(Masked(ty)) == IsNil(ty) && IsEnd(Masked(ty)) == IsEnd(ty)
    ensures IsNotQuoted(Masked(ty)) == IsNotQuoted(ty) && IsNI(Masked(ty)) == IsNI(ty)
  {
    BitOfAnd(ty, TYPE_MASK, 0);
    BitOfAnd(ty, TYPE_MASK, 1);
    BitOfAnd(ty, TYPE_MASK, 2);
    BitOfAnd(ty, TYPE_MASK, 3);
  }

  /** A flag test as C writes it. */
  lemma FlagTest(ty: nat, k: nat)
    requires k < 4
    ensures And(ty, [1, 2, 4, 8][k]) != 0 <==> Bit(ty, k) == 1
  {
    assert Pow2(0) == 1 && Pow2(1) == 2 && Pow2(2) == 4 && Pow2(3) == 8;
    TestBit(ty, k);
  }

  /** A uint32_t as it lies in memory. */
  function Le32(n: nat): (r: Bytes)
    requires n < UINT32_MOD
    ensures |r| == 4
  {
    [n % 256, n / 256 % 256, n / 65536 % 256, n / 16777216]
  }

  function Un32(s: Bytes): nat
    requires |s| >= 4
  {
    var b0: int, b1: int, b2: int, b3: int := s[0], s[1], s[2], s[3];
    b0 + 256 * b1 + 65536 * b2 + 16777216 * b3
  }

  lemma Un32OfLe32(n: nat, rest: Bytes)
    requires n < UINT32_MOD
    ensures Un32(Le32(n) + rest) == n
  {
    assert n == n % 256 + 256 * (n / 256);
    assert n / 256 == n / 256 % 256 + 256 * (n / 65536);
    assert n / 65536 == n / 65536 % 256 + 256 * (n / 16777216);
  }

  // ---- encoding -------------------------------------------------------------------

  /** Lengths are below 2^31. */
  ghost predicate Fits(es: seq<Elem>) {
    forall i :: 0 <= i < |es| ==> |es[i].text| < 0x8000_0000
  }

  function Encode(e: Elem): (r: Bytes)
    requires |e.text| < UINT32_MOD
    ensures |r| == if IsNil(e.ty) then 1 else |e.text| + SIZE_TL
  {
    [Masked(e.ty)] + if IsNil(e.ty) then [] else Le32(|e.text|) + e.text
  }

  /** On the wire: a byte for the type, without its upper half, the length with its least
      significant byte first, and the text; for nil the first byte alone. */
  lemma OnTheWire(ty: Byte, text: Bytes, b0: Byte, b1: Byte, b2: Byte, b3: Byte)
    requires |text| == b0 + 256 * b1 + 65_536 * b2 + 16_777_216 * b3
    ensures Encode(Elem(ty, text)) == if ty % 2 == 1 then [ty % 16] else [ty % 16, b0, b1, b2, b3] + text
  {
    AndMask(ty, 4);
    assert Pow2(4) == 16;
    assert Masked(ty) == ty % 16 && (IsNil(ty) <==> ty % 2 == 1);
    Le32Is(|text|, b0, b1, b2, b3);
    hide And, IsNil, Masked, Le32, Pow2;
    assert [ty % 16] + ([b0, b1, b2, b3] + text) == [ty % 16, b0, b1, b2, b3] + text;
  }

  lemma Le32Is(n: nat, b0: Byte, b1: Byte, b2: Byte, b3: Byte)
    requires n == b0 + 256 * b1 + 65_536 * b2 + 16_777_216 * b3
    ensures n < UINT32_MOD && Le32(n) == [b0, b1, b2, b3]
  {
    var m2 := b2 + 256 * b3;
    var m1 := b1 + 256 * m2;
    ModIs(n, 256, m1, b0);
    ModIs(m1, 256, m2, b1);
    ModIs(n, 65_536, m2, b0 + 256 * b1);
    ModIs(m2, 256, b3, b2);
    ModIs(n, 16_777_216, b3, b0 + 256 * b1 + 65_536 * b2);
  }

  function EncodeAll(es: seq<Elem>): Bytes
    requires Fits(es)
  {
    if es == [] then [] else Encode(es[0]) + EncodeAll(es[1..])
  }

  /** The bytes that elements take up in a reply, without the end marker. */
  function Room(es: seq<Elem>): nat {
    if es == [] then 0 else (if IsNil(es[0].ty) then 1 else |es[0].text| + SIZE_TL) + Room(es[1..])
  }

  /** The elements and the end marker fit in the data of a reply. */
  predicate Sendable(es: seq<Elem>) {
    Room(es) + 1 <= MAX_RPLY_SIZE
  }

  lemma {:induction false} EncodedRoom(es: seq<Elem>)
    requires Fits(es)
    ensures |EncodeAll(es)| == Room(es)
  {
    if es != [] { EncodedRoom(es[1..]); }
  }

  lemma {:induction false} RoomBound(es: seq<Elem>, i: nat)
    requires i < |es| && !IsNil(es[i].ty)
    ensures |es[i].text| + SIZE_TL <= Room(es)
  {
    if i > 0 { RoomBound(es[1..], i - 1); }
  }

  lemma {:induction false} EncodeOneMore(es: seq<Elem>, i: nat)
    requires Fits(es) && i < |es|
    ensures EncodeAll(es[..i + 1]) == EncodeAll(es[..i]) + Encode(es[i])
  {
    if i == 0 {
      assert es[..1] == [es[0]] && es[..1][1..] == [] && es[..0] == [];
      assert EncodeAll(es[..1]) == Encode(es[0]) + [];
    } else {
      EncodeOneMore(es[1..], i - 1);
      assert es[..i + 1][1..] == es[1..][..i] && es[..i][1..] == es[1..][..i - 1];
    }
  }

  lemma {:induction false} EncodeGrows(es: seq<Elem>, i: nat)
    requires Fits(es) && i <= |es|
    ensures |EncodeAll(es[..i])| <= |EncodeAll(es)|
    decreases |es| - i
  {
    if i < |es| {
      EncodeOneMore(es, i);
      EncodeGrows(es, i + 1);
    } else {
      assert es[..i] == es;
    }
  }

  datatype Reply = Reply(ty: Byte, arrNum: nat, data: Bytes)

  /** create_arr_reply. The type tested at the end is that of the last element, not
      that of the reply; with no element it is whatever the stack held. */
  method CreateArrReply(es: seq<Elem>, arrType: Byte, junk: Byte) returns (r: Option<Reply>)
    requires Fits(es) && |es| < 256
    ensures r == if Sendable(es)
                 then Some(Reply(arrType, ArrNum(es, junk), EncodeAll(es) + [STR_END])) else None
  {
    var out: Bytes := [];
    var ty := junk;
    EncodedRoom(es);
    for i := 0 to |es|
      invariant out == EncodeAll(es[..i]) && |out| < MAX_RPLY_SIZE
      invariant ty == if i == 0 then junk else es[i - 1].ty
    {
      ty := es[i].ty;
      EncodeOneMore(es, i);
      EncodeGrows(es, i + 1);
      var more := PutElem(es[i], out);
      if more == None { return None; }
      out := more.value;
    }
    assert es[..|es|] == es;
    r := Some(Reply(arrType, if RPLY_ARR == ty then |es| else (|es| - 1) % UINT32_MOD, out + [STR_END]));
  }

  /** One turn of its loop; None if the element would leave no room for the end marker. */
  method PutElem(e: Elem, out: Bytes) returns (more: Option<Bytes>)
    requires |e.text| < 0x8000_0000 && |out| < MAX_RPLY_SIZE
    ensures more == if |out| + |Encode(e)| + 1 <= MAX_RPLY_SIZE then Some(out + Encode(e)) else None
  {
    var ty, totalLen := e.ty, |out|;
    var nil := And(ty, 1) != 0;
    assert nil <==> IsNil(ty) by { FlagTest(ty, 0); }
    if nil {
      if totalLen + 2 > MAX_RPLY_SIZE { return None; }
      assert Encode(e) == [Masked(ty)];
      more := Some(out + [Masked(ty)]);
    } else {
      var len := |e.text| % UINT32_MOD;
      SmallMod(|e.text|, UINT32_MOD);
      SmallMod(totalLen + len + SIZE_TL + 1, UINT32_MOD);
      if (totalLen + len + SIZE_TL + 1) % UINT32_MOD > MAX_RPLY_SIZE { return None; }
      assert Encode(e) == [Masked(ty)] + (Le32(len) + e.text);
      more := Some(out + ([Masked(ty)] + (Le32(len) + e.text)));
    }
  }

  function ArrNum(es: seq<Elem>, junk: Byte): nat {
    if RPLY_ARR == (if es == [] then junk else es[|es| - 1].ty) then |es| else (|es| - 1) % UINT32_MOD
  }

  /** The announced number of elements is one too small for every array that is not empty and
      that the client can decode, because the type 7 of an array has the end flag among its
      bits and so is never that of an element. */
  lemma ArrNumIsOneShort(es: seq<Elem>, junk: Byte)
    requires es != [] && |es| < 256 && forall i :: 0 <= i < |es| ==> !IsEnd(es[i].ty)
    ensures ArrNum(es, junk) == |es| - 1
  {
    assert IsEnd(RPLY_ARR);
  }

  /** A double array is announced with the number of elements that follow
      its first one, if any do. */
  lemma ArrNumOfDouble(first: Elem, es: seq<Elem>, junk: Byte)
    requires es != [] && |es| < 255 && forall i :: 0 <= i < |es| ==> !IsEnd(es[i].ty)
    ensures ArrNum([first] + es, junk) == |es|
  {
    assert ([first] + es)[|es|] == es[|es| - 1];
    assert IsEnd(RPLY_ARR);
  }

  // ---- decoding -------------------------------------------------------------------

  /** What the client prints for an element. */
  datatype Shown = Shown(numbered: bool, item: Item)
  datatype Item = NilItem | Text(quoted: bool, text: Bytes)

  /** The elements shown, and the bytes after the end marker; None if the client would
      read past the end of the data. */
  function Decode(data: Bytes): Option<(seq<Shown>, Bytes)>
    decreases |data|
  {
    if data == [] then None
    else
      var ty, rest := data[0], data[1..];
      if IsEnd(ty) then Some(([], rest))
      else if IsNil(ty) then Showing(Shown(!IsNI(ty), NilItem), Decode(rest))
      else if |rest| < 4 || |rest| - 4 < Un32(rest) then None
      else
        var n := Un32(rest);
        Showing(Shown(!IsNI(ty), Text(!IsNotQuoted(ty), rest[4..4 + n])), Decode(rest[4 + n..]))
  }

  function Showing(s: Shown, more: Option<(seq<Shown>, Bytes)>): Option<(seq<Shown>, Bytes)> {
    if more == None then None else Some(([s] + more.value.0, more.value.1))
  }

  function ShownFor(e: Elem): Shown {
    Shown(!IsNI(e.ty), if IsNil(e.ty) then NilItem else Text(!IsNotQuoted(e.ty), e.text))
  }

  function ShownForAll(es: seq<Elem>): (s: seq<Shown>)
    ensures |s| == |es|
  {
    if es == [] then [] else [ShownFor(es[0])] + ShownForAll(es[1..])
  }

  function Joined(a: seq<Shown>, more: Option<(seq<Shown>, Bytes)>): Option<(seq<Shown>, Bytes)> {
    if more == None then None else Some((a + more.value.0, more.value.1))
  }

  /** The loop of display_reply from RPLY_ARR on. */
  method DisplayArr(data: Bytes, from: nat) returns (shown: seq<Shown>, pos: nat, ok: bool)
    requires from <= |data|
    ensures ok ==> from < pos <= |data| && Decode(data[from..]) == Some((shown, data[pos..]))
    ensures !ok ==> Decode(data[from..]) == None
  {
    shown, pos, ok := [], from, true;
    JoinNothing(Decode(data[from..]));
    while true
      invariant from <= pos <= |data|
      invariant Decode(data[from..]) == Joined(shown, Decode(data[pos..]))
      decreases |data| - pos
    {
      if pos == |data| { ok := false; return; }
      var s, next, more, fine := DisplayElem(data, pos);
      if !fine { ok := false; return; }
      if !more {
        pos := next;
        assert shown + [] == shown;
        return;
      }
      JoinOneMore(shown, s, Decode(data[next..]));
      shown := shown + [s];
      pos := next;
    }
  }

  lemma JoinNothing(more: Option<(seq<Shown>, Bytes)>)
    ensures Joined([], more) == more
  {
    if more.Some? { assert [] + more.value.0 == more.value.0; }
  }

  lemma JoinOneMore(a: seq<Shown>, s: Shown, more: Option<(seq<Shown>, Bytes)>)
    ensures Joined(a, Showing(s, more)) == Joined(a + [s], more)
  {
    if more.Some? { assert a + ([s] + more.value.0) == (a + [s]) + more.value.0; }
  }

  /** The four flags of a type, as the client tests them. */
  lemma FlagTests(ty: Byte)
    ensures And(ty, 1) != 0 <==> IsNil(ty)
    ensures And(ty, 2) != 0 <==> IsEnd(ty)
    ensures And(ty, 4) != 0 <==> IsNotQuoted(ty)
    ensures And(ty, 8) != 0 <==> IsNI(ty)
  {
    FlagTest(ty, 0);
    FlagTest(ty, 1);
    FlagTest(ty, 2);
    FlagTest(ty, 3);
  }

  /** The length and the text of an element, behind its type. */
  method DisplayText(data: Bytes, start: nat) returns (text: Bytes, pos: nat, ok: bool)
    requires start <= |data|
    ensures var rest := data[start..];
      && (ok <==> |rest| >= 4 && |rest| - 4 >= Un32(rest))
      && (ok ==> start < pos <= |data| && text == rest[4..4 + Un32(rest)] && data[pos..] == rest[4 + Un32(rest)..])
  {
    text, pos, ok := [], start, false;
    if |data| - pos < 4 || |data| - pos - 4 < Un32(data[pos..]) { return; }
    var len := Un32(data[pos..]);
    SliceOfSlice(data, pos, 4, 4 + len);
    SliceOfSlice(data, pos, 4 + len, |data| - pos);
    text, pos, ok := data[pos + 4..pos + 4 + len], pos + 4 + len, true;
  }

  /** One turn of the loop. */
  method DisplayElem(data: Bytes, start: nat) returns (s: Shown, pos: nat, more: bool, ok: bool)
    requires start < |data|
    ensures !ok ==> Decode(data[start..]) == None
    ensures ok ==> start < pos <= |data|
    ensures ok && !more ==> Decode(data[start..]) == Some(([], data[pos..]))
    ensures ok && more ==> Decode(data[start..]) == Showing(s, Decode(data[pos..]))
  {
    var ty := data[start];
    pos, more, ok, s := start + 1, true, true, Shown(false, NilItem);
    assert data[start..][1..] == data[pos..];
    FlagTests(ty);
    var numbered := And(ty, 8) == 0;
    if And(ty, 2) != 0 {
      more := false;
    } else if And(ty, 1) != 0 {
      s := Shown(numbered, NilItem);
    } else {
      var text;
      text, pos, ok := DisplayText(data, pos);
      s := Shown(numbered, Text(And(ty, 4) == 0, text));
    }
  }

  // ---- round trip -----------------------------------------------------------------

  lemma {:induction false} DecodeText(ty: Byte, text: Bytes, rest: Bytes)
    requires |text| < 0x8000_0000 && !IsEnd(ty) && !IsNil(ty)
    ensures Decode([ty] + (Le32(|text|) + (text + rest)))
         == Showing(Shown(!IsNI(ty), Text(!IsNotQuoted(ty), text)), Decode(rest))
  {
    var n, data := |text|, [ty] + (Le32(|text|) + (text + rest));
    assert data[1..] == Le32(n) + (text + rest);
    Un32OfLe32(n, text + rest);
    BehindLength(Le32(n), text, rest);
  }

  lemma BehindLength(length: Bytes, text: Bytes, rest: Bytes)
    requires |length| == 4
    ensures (length + (text + rest))[4..4 + |text|] == text && (length + (text + rest))[4 + |text|..] == rest
  {
  }

  lemma {:induction false} DecodeOne(e: Elem, rest: Bytes)
    requires |e.text| < 0x8000_0000 && !IsEnd(e.ty)
    ensures Decode(Encode(e) + rest) == Showing(ShownFor(e), Decode(rest))
  {
    MaskKeepsFlags(e.ty);
    if IsNil(e.ty) {
      assert (Encode(e) + rest)[1..] == rest;
    } else {
      DecodeText(Masked(e.ty), e.text, rest);
      assert Encode(e) + rest == [Masked(e.ty)] + (Le32(|e.text|) + (e.text + rest));
    }
  }

  lemma {:induction false} DecodeAll(es: seq<Elem>, rest: Bytes)
    requires Fits(es) && forall i :: 0 <= i < |es| ==> !IsEnd(es[i].ty)
    ensures Decode(EncodeAll(es) + rest) == Joined(ShownForAll(es), Decode(rest))
  {
    if es == [] {
      assert EncodeAll(es) + rest == rest;
      JoinNothing(Decode(rest));
    } else {
      assert EncodeAll(es) + rest == Encode(es[0]) + (EncodeAll(es[1..]) + rest);
      DecodeOne(es[0], EncodeAll(es[1..]) + rest);
      DecodeAll(es[1..], rest);
      if Decode(rest).Some? {
        assert [ShownFor(es[0])] + (ShownForAll(es[1..]) + Decode(rest).value.0)
            == ([ShownFor(es[0])] + ShownForAll(es[1..])) + Decode(rest).value.0;
      }
    }
  }

  lemma DecodeEnd(rest: Bytes)
    ensures Decode([STR_END] + rest) == Some(([], rest))
  {
    assert Bit(STR_END, 1) == 1;
    assert ([STR_END] + rest)[1..] == rest;
  }

  /** The client shows exactly the elements the server put in, in order, and uses up all
      the data, if and only if no element has the end flag set. */
  lemma {:induction false} RoundTrip(es: seq<Elem>)
    requires Fits(es)
    ensures Decode(EncodeAll(es) + [STR_END]) == Some((ShownForAll(es), []))
      <==> forall i :: 0 <= i < |es| ==> !IsEnd(es[i].ty)
  {
    if forall i :: 0 <= i < |es| ==> !IsEnd(es[i].ty) {
      DecodeAll(es, [STR_END]);
      assert [STR_END] + [] == [STR_END];
      DecodeEnd([]);
      assert ShownForAll(es) + [] == ShownForAll(es);
    } else {
      StopsEarly(es, [STR_END]);
    }
  }

  lemma {:induction false} StopsEarly(es: seq<Elem>, rest: Bytes)
    requires Fits(es) && exists i :: 0 <= i < |es| && IsEnd(es[i].ty)
    ensures var d := Decode(EncodeAll(es) + rest); d.Some? && |d.value.0| < |es|
  {
    var e := es[0];
    var data := EncodeAll(es) + rest;
    if IsEnd(e.ty) {
      MaskKeepsFlags(e.ty);
    } else {
      assert data == Encode(e) + (EncodeAll(es[1..]) + rest);
      DecodeOne(e, EncodeAll(es[1..]) + rest);
      StopsEarly(es[1..], rest);
    }
  }

  // ---- double arrays --------------------------------------------------------------

  /** What the client makes of a double array: the text of the first element, whatever its
      type, then an array. */
  function DecodeDouble(data: Bytes): Option<(Bytes, seq<Shown>, Bytes)> {
    if |data| < 5 || |data| - 5 < Un32(data[1..]) then None
    else
      var n := Un32(data[1..]);
      var rest := Decode(data[5 + n..]);
      if rest == None then None else Some((data[5..5 + n], rest.value.0, rest.value.1))
  }

  /** display_reply from RPLY_DB_ARR on. */
  method DisplayDouble(data: Bytes) returns (first: Bytes, shown: seq<Shown>, pos: nat, ok: bool)
    ensures ok ==> pos <= |data| && DecodeDouble(data) == Some((first, shown, data[pos..]))
    ensures !ok ==> DecodeDouble(data) == None
  {
    first, shown, pos, ok := [], [], 0, false;
    if |data| < 5 { return; }
    pos := 1;
    var len := Un32(data[pos..]);
    pos := pos + 4;
    if |data| - pos < len { return; }
    first := data[pos..pos + len];
    pos := pos + len;
    shown, pos, ok := DisplayArr(data, pos);
  }

  /** The client shows a double array as the server put it in, and uses up all the data, if
      and only if its first element is not nil and none of the others has the end flag set. */
  lemma DoubleRoundTrip(first: Elem, es: seq<Elem>)
    requires Fits([first] + es) && Fits(es)
    ensures DecodeDouble(EncodeAll([first] + es) + [STR_END]) == Some((first.text, ShownForAll(es), []))
      <==> !IsNil(first.ty) && forall i :: 0 <= i < |es| ==> !IsEnd(es[i].ty)
  {
    var more := EncodeAll(es) + [STR_END];
    FirstAndRest(first, es);
    if IsNil(first.ty) {
      NilFirstFails(first, es);
    } else {
      TextAndRest(first, more);
      RoundTrip(es);
    }
  }

  lemma FirstAndRest(first: Elem, es: seq<Elem>)
    requires Fits([first] + es) && Fits(es)
    ensures |first.text| < 0x8000_0000
    ensures EncodeAll([first] + es) + [STR_END] == Encode(first) + (EncodeAll(es) + [STR_END])
  {
    assert ([first] + es)[1..] == es && ([first] + es)[0] == first;
  }

  /** The bytes that the elements shown took up. */
  function Size(shown: seq<Shown>): nat {
    if shown == [] then 0 else (if shown[0].item.NilItem? then 1 else 5 + |shown[0].item.text|) + Size(shown[1..])
  }

  lemma {:induction false} DecodedSize(data: Bytes)
    ensures Decode(data).Some? ==> |data| == Size(Decode(data).value.0) + 1 + |Decode(data).value.1|
    decreases |data|
  {
    if data != [] && !IsEnd(data[0]) {
      var rest := data[1..];
      if IsNil(data[0]) {
        DecodedSize(rest);
      } else if |rest| >= 4 && |rest| - 4 >= Un32(rest) {
        DecodedSize(rest[4 + Un32(rest)..]);
      }
      if Decode(data).Some? { assert Decode(data).value.0[1..] + [] == Decode(data).value.0[1..]; }
    }
  }

  lemma {:induction false} EncodedSize(es: seq<Elem>)
    requires Fits(es)
    ensures |EncodeAll(es)| == Size(ShownForAll(es))
  {
    if es != [] { EncodedSize(es[1..]); }
  }

  /** Without the text of the first element too few bytes are left for the others. */
  lemma NilFirstFails(first: Elem, es: seq<Elem>)
    requires |first.text| < 0x8000_0000 && Fits(es) && IsNil(first.ty)
    ensures var d := DecodeDouble(Encode(first) + (EncodeAll(es) + [STR_END]));
      d.Some? ==> !(d.value.1 == ShownForAll(es) && d.value.2 == [])
  {
    var data := Encode(first) + (EncodeAll(es) + [STR_END]);
    EncodedSize(es);
    assert |data| == Size(ShownForAll(es)) + 2;
    if DecodeDouble(data).Some? { DecodedSize(data[5 + Un32(data[1..])..]); }
  }

  lemma TextAndRest(e: Elem, more: Bytes)
    requires |e.text| < 0x8000_0000 && !IsNil(e.ty)
    ensures var data := Encode(e) + more; var n := |e.text|;
      5 + n <= |data| && Un32(data[1..]) == n && data[5..5 + n] == e.text && data[5 + n..] == more
  {
    var data := Encode(e) + more;
    assert data[1..] == Le32(|e.text|) + (e.text + more);
    Un32OfLe32(|e.text|, e.text + more);
  }
}
