/** The growable strings of server/bss.c: a length, the free space behind it, and a
    buffer that always holds one byte more, the terminator. */
module ByteStrings {
  import opened Bytes
  import opened Masks
  import opened BitStrings
  import opened Decimals
  import ListSpec

  const BSS_MIN_LEN := 22
  const SIZE_MOD := 0x1_0000_0000_0000_0000
  const HEADER := 16   // sizeof(bss_t): two size_t

  /** The argument of malloc for a buffer of n bytes does not wrap. */
  predicate Allocates(n: nat) {
    HEADER + n < SIZE_MOD
  }

  method CopyInto(dst: array<Byte>, at: nat, data: Bytes)
    requires at + |data| <= dst.Length
    modifies dst
    ensures dst[..] == old(dst[..at]) + data + old(dst[at + |data|..])
  {
    forall i | 0 <= i < |data| {
      dst[at + i] := data[i];
    }
  }

  lemma ZeroTail(buf: Bytes, front: Bytes, n: nat)
    requires |front| <= n <= |buf| && buf[..|front|] == front
    requires forall i :: |front| <= i < |buf| ==> buf[i] == 0
    ensures buf[..n] == front + Zeros(n - |front|)
  {
  }

  class Bss {
    var len: nat
    var free: nat
    var str: array<Byte>

    ghost predicate Valid()
      reads this, str
    {
      str.Length >= len + free + 1 && len + free >= BSS_MIN_LEN && str[len] == 0 && Allocates(str.Length)
    }

    ghost function Contents(): Bytes
      reads this, str
      requires Valid()
    {
      str[..len]
    }

    /** bsssize */
    function Size(): nat
      reads this
    {
      len + free
    }

    /** bss_create */
    constructor (data: Bytes)
      requires Allocates(Max(|data|, BSS_MIN_LEN) + 1)
      ensures Valid() && fresh(str) && Contents() == data && Size() == Max(|data|, BSS_MIN_LEN)
    {
      var realLen := if |data| > BSS_MIN_LEN then |data| else BSS_MIN_LEN;
      var buf := new Byte[realLen + 1];
      forall i | 0 <= i < |data| {
        buf[i] := data[i];
      }
      buf[|data|] := 0;
      str := buf;
      len := |data|;
      free := realLen - |data|;
    }

    /** bss_create_empty */
    constructor Empty(capacity: nat)
      requires Allocates(Max(capacity, BSS_MIN_LEN) + 1)
      ensures Valid() && fresh(str) && Contents() == [] && Size() == Max(capacity, BSS_MIN_LEN)
      ensures str.Length == Size() + 1 && forall i :: 0 <= i < str.Length ==> str[i] == 0
    {
      var realLen := if capacity > BSS_MIN_LEN then capacity else BSS_MIN_LEN;
      str := new Byte[realLen + 1](_ => 0);
      len := 0;
      free := realLen;
    }

    /** bss_set: in place if the data fits, in a string of twice the size or more if not.
        What lies behind the terminator stays. */
    method Set(data: Bytes) returns (r: Bss)
      requires Valid() && (|data| > Size() ==> Allocates(Max(2 * Size(), |data|) + 2))
      modifies this, str
      ensures r.Valid() && r.Contents() == data
      ensures |data| <= old(Size()) ==> r == this && str == old(str) && Size() == old(Size())
      ensures |data| <= old(Size()) ==> str[|data| + 1..] == old(str[|data| + 1..])
      ensures |data| > old(Size()) ==> fresh(r) && fresh(r.str) && r.Size() == Max(2 * old(Size()), |data|)
    {
      if |data| > Size() {
        var newLen := if Size() * 2 > |data| then Size() * 2 else |data|;
        r := new Bss.Raw(newLen + 2, data, newLen - |data|);
      } else {
        CopyInto(str, 0, data);
        str[|data|] := 0;
        free := Size() - |data|;
        len := |data|;
        r := this;
      }
    }

    /** A new string in a buffer of the given length. */
    constructor Raw(length: nat, data: Bytes, free: nat)
      requires length >= |data| + free + 1 && |data| + free >= BSS_MIN_LEN && Allocates(length)
      ensures Valid() && fresh(str) && Contents() == data && this.free == free
    {
      var buf := new Byte[length];
      forall i | 0 <= i < |data| {
        buf[i] := data[i];
      }
      buf[|data|] := 0;
      this.str := buf;
      this.len := |data|;
      this.free := free;
    }

    /** The length of the C string in the buffer. */
    method StrLen() returns (n: nat)
      requires Valid()
      ensures n == ToZero(Contents())
    {
      n := 0;
      while str[n] != 0
        invariant n <= len && 0 !in str[..n]
        decreases len - n
      {
        n := n + 1;
      }
      assert Contents()[..n] == str[..n];
      ToZeroIs(Contents(), n);
    }

    /** bss2int: strtoll reads the C string and has to come to the end of the text; value
        is what it stores either way. */
    method ToInt() returns (n: Option<int>, value: int)
      requires Valid()
      ensures n == Parse(Contents()) && value == Read(Contents())
      ensures n.Some? ==> value == n.value
    {
      if len == 0 { return Some(0), 0; }
      var k := StrLen();
      var read := ReadNumber(str[..k]);
      ReadsUpToZero(Contents());
      assert Contents()[..k] == str[..k];
      n := if read.erange || read.end != len then None else Some(read.value);
      value := read.value;
    }

    /** bss_add_sub: the sum is stored in place, or the string is left alone. Negating
        the smallest number is not defined. */
    method AddSub(num0: int, factor: int) returns (ok: bool)
      requires Valid() && InRange(num0) && (factor == -1 ==> num0 != INT_MIN)
      modifies this, str
      ensures Valid() && str == old(str) && Size() == old(Size())
      ensures var sum := Decimals.AddSub(old(Contents()), if factor == -1 then -num0 else num0);
        ok == sum.Some? && Contents() == if ok then sum.value else old(Contents())
      ensures str[len + 1..] == old(str[..])[len + 1..]
    {
      var origin, o := ToInt();
      if origin == None { return false; }
      var num := if factor == -1 then -num0 else num0;
      if num <= 0 {
        assert InRange(INT_MIN - num);
        if INT_MIN - num > origin.value { return false; }
      } else {
        assert InRange(INT_MAX - num);
        if INT_MAX - num < origin.value { return false; }
      }
      assert InRange(num + origin.value);
      PrintThenParse(num + origin.value);
      var result := Print(num + origin.value);
      var same := Set(result);
      assert same == this;
      ok := true;
    }

    /** bss_count_bit, which indexes the table with a char, signed or not as the platform has
        it; None if it reads in front of the table. */
    method CountBit(signed: bool) returns (count: Option<nat>)
      requires Valid()
      ensures count == if signed && exists i :: 0 <= i < len && Contents()[i] >= 128 then None
                       else Some(CountBits(Contents()))
    {
      hide TableBits, Pop;
      ghost var c := Contents();
      var n := 0;
      for i := 0 to len
        invariant signed ==> forall j :: 0 <= j < i ==> c[j] < 128
        invariant n == CountBits(c[..i])
      {
        var b := str[i];
        assert b == c[i] && c[..i + 1] == c[..i] + [b];
        var index := if signed && b >= 128 then b as int - 256 else b;
        if index < 0 { return None; }
        TableIsPop(b);
        CountOneMore(c[..i], b);
        n := n + TableBits(index);
      }
      assert c[..len] == c;
      count := Some(n);
    }

    /** The byte and the shift of an offset, as bss_getbit and bss_setbit compute them:
        right exactly if the increment of the offset does not wrap. */
    static method Locate(offset0: nat) returns (byte: nat, shift: nat)
      requires offset0 < SIZE_MOD
      ensures byte == offset0 / 8 && shift == 7 - offset0 % 8 <==> offset0 != SIZE_MOD - 1
      ensures offset0 == SIZE_MOD - 1 ==> byte == SIZE_MOD - 1
    {
      var offset := (offset0 + 1) % SIZE_MOD;
      var bit := offset % 8;
      byte := offset / 8 + if bit != 0 then 1 else 0;
      byte := (byte - 1) % SIZE_MOD;
      if 0 == bit { bit := 8; }
      bit := 9 - bit;
      shift := bit - 1;
    }

    /** bss_append: in place if the data fits in the free space. Otherwise a stray
        semicolon makes it return NULL whatever malloc said. */
    method Append(data: Bytes) returns (r: Bss?)
      requires Valid()
      modifies this, str
      ensures Valid() && str == old(str) && Size() == old(Size())
      ensures r == if |data| <= old(free) then this else null
      ensures Contents() == if r != null then old(Contents()) + data else old(Contents())
    {
      if free < |data| { return null; }
      CopyInto(str, len, data);
      free := free - |data|;
      len := len + |data|;
      str[len] := 0;
      r := this;
    }

    /** bss_getbit; None if it reads outside of the buffer, before its first byte. */
    method GetBit(offset: nat) returns (b: Option<nat>)
      requires Valid() && offset < SIZE_MOD
      ensures b == if offset == SIZE_MOD - 1 then None else Some(BitAt(Contents(), offset))
    {
      var byte, shift := Locate(offset);
      if (byte + 1) % SIZE_MOD > len { return Some(0); }
      if byte >= str.Length { return None; }
      TestBit(str[byte], shift);
      b := Some(if And(str[byte], Pow2(shift)) != 0 then 1 else 0);
    }

    /** The first half of bss_setbit: make the string at least as long as needed. Past the
        capacity a new string of zeros takes the place of the old. */
    method Widen(need: nat) returns (r: Bss)
      requires Valid() && need <= SIZE_MOD / 8
      modifies this, str
      ensures r.Valid() && r.Size() == Max(old(Size()), need)
      ensures r.Contents() == if need == 0 then old(Contents()) else SetBitBase(old(Contents()), need - 1, old(Size()))
      ensures if need <= old(Size()) then r == this && str == old(str) else fresh(r) && fresh(r.str)
    {
      r := this;
      if need > Size() {
        r := new Bss.Empty(need);
        r.free := 0;
        r.len := need;
      } else if need > len {
        forall i | len <= i < len + free {
          str[i] := 0;
        }
        free := Size() - need;
        len := need;
        str[len] := 0;
      }
    }

    /** bss_setbit; not ok if it writes outside of the buffer. */
    method SetBit(offset: nat, val: nat) returns (ok: bool, r: Bss)
      requires Valid() && offset < SIZE_MOD && val < 2
      modifies this, str
      ensures r.Valid() && (ok <==> offset != SIZE_MOD - 1)
      ensures ok ==> r.Contents() == SetBitSpec(old(Contents()), offset, val, old(Size()))
      ensures ok ==> r.Size() == Max(old(Size()), offset / 8 + 1)
      ensures if offset / 8 < old(Size()) || !ok then r == this && str == old(str) else fresh(r) && fresh(r.str)
      ensures !ok ==> Contents() == old(Contents()) && Size() == old(Size())
    {
      var byte, shift := Locate(offset);
      r := Widen((byte + 1) % SIZE_MOD);
      ok := byte < r.str.Length;
      if ok {
        WithBitIs(r.str[byte], shift, val, 0);
        r.str[byte] := WithBit(r.str[byte], shift, val);
      }
    }

    /** bss_setrange; not ok if it writes outside of its buffer. */
    method SetRange(offset: nat, data: Bytes) returns (ok: bool, r: Bss)
      requires Valid() && offset < SIZE_MOD && Allocates(|data| + 1)
      modifies this, str
      ensures r.Valid() && (ok <==> data == [] || Allocates(offset + |data| + 1))
      ensures ok ==> r.Contents() == SetRangeSpec(old(Contents()), old(str[len..]), old(Size()), offset, data)
      ensures ok ==> r.Size() == if data == [] then old(Size()) else Max(old(Size()), offset + |data|)
      ensures if !ok || data == [] || offset + |data| <= old(Size()) then r == this && str == old(str)
              else fresh(r) && fresh(r.str)
      ensures !ok ==> Contents() == old(Contents()) && Size() == old(Size())
    {
      ok, r := true, this;
      if |data| == 0 { return; }
      var newLen := (|data| + offset) % SIZE_MOD;
      if newLen > Size() {
        var room := (HEADER + newLen + 1) % SIZE_MOD - HEADER;
        if offset + |data| > room { return false, this; }
        r := Grown(offset, data);
      } else {
        if offset + |data| > str.Length { return false, this; }
        SetRangeInPlace(offset, data);
      }
    }

    /** The first branch: a new string of just the length needed. */
    method Grown(offset: nat, data: Bytes) returns (r: Bss)
      requires Valid() && data != [] && offset + |data| > Size() && Allocates(offset + |data| + 1)
      ensures fresh(r) && fresh(r.str) && r.Valid() && r.Size() == offset + |data|
      ensures r.Contents() == Contents()[..Min(offset, len)] + Zeros(Max(offset - len, 0)) + data
    {
      var newLen := |data| + offset;
      r := new Bss.Empty(newLen);
      assert r.str.Length == newLen + 1;
      var kept := if len > offset then offset else len;
      CopyInto(r.str, 0, str[..kept]);
      ZeroTail(r.str[..], str[..kept], offset);
      CopyInto(r.str, offset, data);
      r.free := 0;
      r.len := newLen;
      assert r.str[..newLen] == (str[..kept] + Zeros(offset - kept)) + data;
      assert str[..kept] == Contents()[..kept];
    }

    /** The other two branches. */
    method SetRangeInPlace(offset: nat, data: Bytes)
      requires Valid() && data != [] && offset + |data| <= Size()
      modifies this, str
      ensures Valid() && str == old(str) && Size() == old(Size())
      ensures Contents() == SetRangeSpec(old(Contents()), old(str[len..]), old(Size()), offset, data)
    {
      var newLen := |data| + offset;
      ghost var was := str[..];
      assert was == Contents() + str[len..];
      CopyInto(str, offset, data);
      if newLen > len {
        free := Size() - newLen;
        len := newLen;
        str[newLen] := 0;
        assert str[..newLen] == was[..offset] + data;
      } else {
        assert str[..len] == was[..offset] + data + was[newLen..len];
      }
    }
  }

  /** The string after bss_setrange; spare is what the buffer holds from the terminator on. */
  function SetRangeSpec(c: Bytes, spare: Bytes, size: nat, offset: nat, data: Bytes): Bytes
    requires |c| <= size && size - |c| < |spare|
  {
    if data == [] then c
    else if offset + |data| > size then
      c[..Min(offset, |c|)] + Zeros(Max(offset - |c|, 0)) + data
    else if offset + |data| > |c| then
      (c + spare)[..offset] + data
    else c[..offset] + data + c[offset + |data|..]
  }

  // ---- INCRBY and DECRBY ------------------------------------------------------------

  ghost function Text(b: Bss?): Option<Bytes>
    requires b != null ==> b.Valid()
    reads b, if b == null then {} else {b.str}
  {
    if b == null then None else Some(b.Contents())
  }

  /** _decrbyincrby_command: stored is the string of the key, null if there is none, and
      arg may take its place. */
  method IncrDecr(stored: Bss?, arg: Bss, negative: bool) returns (after: Bss?, reply: Option<int>)
    requires arg.Valid() && (stored != null ==> stored.Valid() && stored != arg && stored.str != arg.str)
    requires negative ==> Parse(arg.Contents()) != Some(INT_MIN)
    modifies arg, arg.str, stored, if stored == null then {} else {stored.str}
    ensures after != null ==> after.Valid()
    ensures (Text(after), reply) == IncrBy(old(Text(stored)), old(arg.Contents()), negative)
  {
    after, reply := stored, None;
    var number, n := arg.ToInt();
    if number == None { return; }
    var delta := if negative then -number.value else number.value;
    if stored == null {
      if negative {
        AsInt32Fits(delta);
        PrintThenParse(AsInt32(delta));
        var same := arg.Set(Print(AsInt32(delta)));
        assert same == arg;
      }
      return arg, Some(delta);
    }
    var count, c := stored.ToInt();
    if count == None { return; }
    var ok := stored.AddSub(number.value, if negative then -1 else 1);
    if ok { reply := Some(count.value + delta); }
  }

  // ---- what SETRANGE and GETRANGE promise each other ----------------------------

  /** getrange_command, on an existing string. */
  method GetRange(b: Bss, first: int, last: int) returns (text: Bytes)
    requires b.Valid()
    ensures text == ListSpec.Range(b.Contents(), first, last)
  {
    if 0 == b.len { return []; }
    var offset1, offset2 := first, last;
    if offset1 < 0 { offset1 := offset1 + b.len; }
    if offset1 < 0 { offset1 := 0; }
    if offset2 < 0 { offset2 := offset2 + b.len; }
    if offset2 < offset1 || offset1 >= b.len { return []; }
    var n := if offset2 > b.len - 1 then b.len - offset1 else offset2 - offset1 + 1;
    text := b.str[offset1..offset1 + n];
    assert offset1 + n == Min(offset2 + 1, b.len);
    SliceOfPrefix(b.str[..], b.len, offset1, offset1 + n);
  }

  lemma SliceOfPrefix(s: Bytes, n: nat, i: nat, j: nat)
    requires i <= j <= n <= |s|
    ensures s[..n][i..j] == s[i..j]
  {
  }

  /** Reading the window just written gives the data; the old bytes before and after it
      are kept; the length is the larger of the old one and the end of the window. */
  lemma SetRangeWindow(c: Bytes, spare: Bytes, size: nat, offset: nat, data: Bytes)
    requires |c| <= size && size - |c| < |spare| && data != []
    ensures var r := SetRangeSpec(c, spare, size, offset, data);
      && |r| == Max(|c|, offset + |data|)
      && ListSpec.Range(r, offset, offset + |data| - 1) == data
      && (forall i :: 0 <= i < |c| && !(offset <= i < offset + |data|) ==> r[i] == c[i])
  {
    var r := SetRangeSpec(c, spare, size, offset, data);
    assert r[offset..offset + |data|] == data;
  }

  /** Without data nothing changes, wherever the window is. */
  lemma SetRangeNothing(c: Bytes, spare: Bytes, size: nat, offset: nat)
    requires |c| <= size && size - |c| < |spare|
    ensures SetRangeSpec(c, spare, size, offset, []) == c
  {
  }

  /** The gap between the old end and the window reads as zeros exactly when the string
      was grown or the spare bytes there happened to be zeros. */
  lemma SetRangeGap(c: Bytes, spare: Bytes, size: nat, offset: nat, data: Bytes)
    requires |c| <= size && size - |c| < |spare| && data != []
    ensures var r := SetRangeSpec(c, spare, size, offset, data);
      (forall i :: |c| <= i < offset ==> r[i] == 0)
      <==> offset + |data| > size || (forall i :: 0 <= i < offset - |c| ==> spare[i] == 0)
  {
    var r := SetRangeSpec(c, spare, size, offset, data);
    if offset + |data| <= size && offset > |c| {
      forall i | |c| <= i < offset ensures r[i] == spare[i - |c|] {
      }
      if forall i :: |c| <= i < offset ==> r[i] == 0 {
        forall i | 0 <= i < offset - |c| ensures spare[i] == 0 {
          assert r[|c| + i] == spare[i];
        }
      }
    }
  }

  /** DECRBY makes a text shorter, and SETRANGE writes within the capacity right behind where it
      ended: in between stand the terminator and the last of the old digits. */
  method StaleGap(b: Bss, num: int, data: Bytes)
    requires b.Valid() && InRange(num) && num != INT_MIN && AddSub(b.Contents(), -num).Some?
    requires |AddSub(b.Contents(), -num).value| < b.len && data != [] && b.len + |data| <= b.Size()
    modifies b, b.str
    ensures b.Valid()
    ensures var c := old(b.Contents());
      var t := AddSub(c, -num).value;
      b.Contents() == t + [0] + c[|t| + 1..] + data
  {
    ghost var c, more, all := b.Contents(), b.str[b.len..], b.str[..];
    ghost var t := AddSub(c, -num).value;
    var end := b.len;
    var ok := b.AddSub(num, -1);
    TailFrom(all, end, |t| + 1);
    TailFrom(b.str[..], |t| + 1, |t|);
    assert b.str[..][..|t| + 1][|t|..] == [0] && b.str[..][|t| + 1..] == b.str[|t| + 1..] == all[|t| + 1..];
    assert b.str[b.len..] == b.str[..][|t|..];
    assert all[..end] == c && all[end..] == more;
    assert [0] + (c[|t| + 1..] + more) == [0] + c[|t| + 1..] + more;
    StaleDigits(t, c, more, b.Size(), data);
    var ok1, r := b.SetRange(end, data);
    assert r == b;
  }

  lemma TailFrom(s: Bytes, n: nat, k: nat)
    requires k <= n <= |s|
    ensures s[k..] == s[..n][k..] + s[n..]
  {
  }

  lemma StaleDigits(t: Bytes, c: Bytes, more: Bytes, size: nat, data: Bytes)
    requires |t| < |c| && size - |t| < |[0] + c[|t| + 1..] + more| && data != [] && |c| + |data| <= size
    ensures SetRangeSpec(t, [0] + c[|t| + 1..] + more, size, |c|, data) == t + [0] + c[|t| + 1..] + data
  {
    var spare := [0] + c[|t| + 1..] + more;
    assert (t + spare)[..|c|] == t + [0] + c[|t| + 1..];
  }

  /** After SET k 1000 and DECRBY k 901 the second 0 of 1000 still lies behind the terminator of
      99, and SETRANGE k 4 b brings it to light. */
  lemma StaleGapAt1000(more: Bytes)
    requires |more| > 18
    ensures AddSub([49, 48, 48, 48], -901) == Some([57, 57])
    ensures SetRangeSpec([57, 57], [0, 48] + more, BSS_MIN_LEN, 4, [98]) == [57, 57, 0, 48, 98]
  {
    PrintsAs();
    StaleDigits([57, 57], [49, 48, 48, 48], more, BSS_MIN_LEN, [98]);
    assert [49, 48, 48, 48][3..] == [48] && [0] + [48] + more == [0, 48] + more;
    assert [57, 57] + [0] + [48] + [98] == [57, 57, 0, 48, 98];
  }

  lemma PrintsAs()
    ensures Parse([49, 48, 48, 48]) == Some(1000) && Print(99) == [57, 57]
  {
    PrintThenParse(1000);
    assert Digits(10) == [49, 48] && Digits(100) == [49, 48, 48];
    assert Print(1000) == [49, 48, 48, 48];
  }
}
