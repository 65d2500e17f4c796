/** The bits of a byte string, numbered from the most significant bit of the first
    byte on, and the bitwise operations on bytes. */
module BitStrings {
  import opened Bytes
  import opened Masks

  /** x | y */
  function Or(x: nat, y: nat): nat
    decreases x + y
  {
    if x == 0 then y else if y == 0 then x else (if x % 2 == 1 || y % 2 == 1 then 1 else 0) + 2 * Or(x / 2, y / 2)
  }

  function Bit(x: nat, k: nat): (b: nat)
    ensures b < 2
  {
    if k == 0 then x % 2 else Bit(x / 2, k - 1)
  }

  lemma {:induction false} BitOfZero(k: nat)
    ensures Bit(0, k) == 0
  {
    if k > 0 { BitOfZero(k - 1); }
  }

  lemma {:induction false} BitOfAnd(x: nat, y: nat, k: nat)
    ensures Bit(And(x, y), k) == if Bit(x, k) == 1 && Bit(y, k) == 1 then 1 else 0
  {
    BitOfZero(k);
    if x != 0 && y != 0 {
      if k > 0 { BitOfAnd(x / 2, y / 2, k - 1); }
    }
  }

  lemma {:induction false} BitOfOr(x: nat, y: nat, k: nat)
    ensures Bit(Or(x, y), k) == if Bit(x, k) == 1 || Bit(y, k) == 1 then 1 else 0
  {
    BitOfZero(k);
    if x != 0 && y != 0 {
      if k > 0 { BitOfOr(x / 2, y / 2, k - 1); }
    }
  }

  lemma {:induction false} BitOfPow2(j: nat, k: nat)
    ensures Bit(Pow2(j), k) == if j == k then 1 else 0
  {
    if j == 0 {
      if k > 0 { BitOfZero(k - 1); }
    } else if k > 0 {
      BitOfPow2(j - 1, k - 1);
    }
  }

  /** Complement on w bits. */
  lemma {:induction false} BitOfNot(x: nat, w: nat, k: nat)
    requires x < Pow2(w) && k < w
    ensures Bit(Pow2(w) - 1 - x, k) == 1 - Bit(x, k)
  {
    var y := Pow2(w) - 1 - x;
    assert y % 2 == 1 - x % 2 && y / 2 == Pow2(w - 1) - 1 - x / 2;
    if k > 0 { BitOfNot(x / 2, w - 1, k - 1); }
  }

  lemma {:induction false} AndBound(x: nat, y: nat)
    ensures And(x, y) <= x
  {
    if x != 0 && y != 0 { AndBound(x / 2, y / 2); }
  }

  lemma {:induction false} OrBound(x: nat, y: nat, w: nat)
    requires x < Pow2(w) && y < Pow2(w)
    ensures Or(x, y) < Pow2(w)
  {
    if x != 0 && y != 0 { OrBound(x / 2, y / 2, w - 1); }
  }

  // ---- what bss_setbit does to one byte -----------------------------------------

  function WithBit(b: Byte, k: nat, val: nat): nat {
    if val != 0 then Or(b, Pow2(k)) else And(b, 255 - Pow2(k) % 256)
  }

  lemma Pow2Small(k: nat)
    requires k < 8
    ensures Pow2(k) <= 128 && Pow2(8) == 256
  {
    assert Pow2(4) == 16;
    Pow2Split(4, 4);
    Pow2Split(k, 7 - k);
    assert Pow2(7) == 128;
    TimesAtLeast(Pow2(7 - k), Pow2(k));
  }

  lemma WithBitIs(b: Byte, k: nat, val: nat, j: nat)
    requires k < 8 && val < 2 && j < 8
    ensures WithBit(b, k, val) < 256
    ensures Bit(WithBit(b, k, val), j) == if j == k then val else Bit(b, j)
  {
    hide And, Or, Bit, Pow2;
    Pow2Small(k);
    BitOfPow2(k, j);
    if val != 0 { BitIsSet(b, k, j); } else { BitIsCleared(b, k, j); }
  }

  lemma {:induction false} BitIsSet(b: Byte, k: nat, j: nat)
    requires k < 8 && j < 8 && Bit(Pow2(k), j) == (if j == k then 1 else 0) && Pow2(k) <= 128 && Pow2(8) == 256
    ensures Or(b, Pow2(k)) < 256 && Bit(Or(b, Pow2(k)), j) == if j == k then 1 else Bit(b, j)
  {
    OrBound(b, Pow2(k), 8);
    BitOfOr(b, Pow2(k), j);
  }

  lemma BitIsCleared(b: Byte, k: nat, j: nat)
    requires k < 8 && j < 8 && Bit(Pow2(k), j) == (if j == k then 1 else 0) && Pow2(k) <= 128 && Pow2(8) == 256
    ensures And(b, 255 - Pow2(k)) < 256 && Bit(And(b, 255 - Pow2(k)), j) == if j == k then 0 else Bit(b, j)
  {
    AndBound(b, 255 - Pow2(k));
    BitOfAnd(b, 255 - Pow2(k), j);
    BitOfNot(Pow2(k), 8, j);
  }

  /** The test of bss_getbit. */
  lemma {:induction false} TestBit(b: nat, k: nat)
    ensures And(b, Pow2(k)) != 0 <==> Bit(b, k) == 1
  {
    if b == 0 {
      BitOfZero(k);
    } else if k > 0 {
      TestBit(b / 2, k - 1);
    }
  }

  // ---- bit counting -------------------------------------------------------------

  function Pop(x: nat): nat {
    if x == 0 then 0 else x % 2 + Pop(x / 2)
  }

  /** bit_table, sixteen entries to a row. */
  function TableRow(r: nat): (row: seq<nat>)
    ensures |row| == 16
  {
    if r == 0 then [0, 1, 1, 2, 1, 2, 2, 3, 1, 2, 2, 3, 2, 3, 3, 4]
    else if r == 1 then [1, 2, 2, 3, 2, 3, 3, 4, 2, 3, 3, 4, 3, 4, 4, 5]
    else if r == 2 then [1, 2, 2, 3, 2, 3, 3, 4, 2, 3, 3, 4, 3, 4, 4, 5]
    else if r == 3 then [2, 3, 3, 4, 3, 4, 4, 5, 3, 4, 4, 5, 4, 5, 5, 6]
    else if r == 4 then [1, 2, 2, 3, 2, 3, 3, 4, 2, 3, 3, 4, 3, 4, 4, 5]
    else if r == 5 then [2, 3, 3, 4, 3, 4, 4, 5, 3, 4, 4, 5, 4, 5, 5, 6]
    else if r == 6 then [2, 3, 3, 4, 3, 4, 4, 5, 3, 4, 4, 5, 4, 5, 5, 6]
    else if r == 7 then [3, 4, 4, 5, 4, 5, 5, 6, 4, 5, 5, 6, 5, 6, 6, 7]
    else if r == 8 then [1, 2, 2, 3, 2, 3, 3, 4, 2, 3, 3, 4, 3, 4, 4, 5]
    else if r == 9 then [2, 3, 3, 4, 3, 4, 4, 5, 3, 4, 4, 5, 4, 5, 5, 6]
    else if r == 10 then [2, 3, 3, 4, 3, 4, 4, 5, 3, 4, 4, 5, 4, 5, 5, 6]
    else if r == 11 then [3, 4, 4, 5, 4, 5, 5, 6, 4, 5, 5, 6, 5, 6, 6, 7]
    else if r == 12 then [2, 3, 3, 4, 3, 4, 4, 5, 3, 4, 4, 5, 4, 5, 5, 6]
    else if r == 13 then [3, 4, 4, 5, 4, 5, 5, 6, 4, 5, 5, 6, 5, 6, 6, 7]
    else if r == 14 then [3, 4, 4, 5, 4, 5, 5, 6, 4, 5, 5, 6, 5, 6, 6, 7]
    else [4, 5, 5, 6, 5, 6, 6, 7, 5, 6, 6, 7, 6, 7, 7, 8]
  }

  /** bit_table[b] */
  function TableBits(b: Byte): nat {
    TableRow(b / 16)[b % 16]
  }

  lemma TableIsPop(b: Byte)
    ensures TableBits(b) == Pop(b)
  {
    hide Pop;
    var hi, lo := b / 16, b % 16;
    NibblePop(hi);
    NibblePop(lo);
    RowShifts(hi);
    HighAndLow(hi, lo);
  }

  lemma NibblePop(n: nat)
    requires n < 16
    ensures TableRow(0)[n] == Pop(n)
  {
    assert Pop(1) == 1 && Pop(2) == 1 && Pop(3) == 2 && Pop(4) == 1 && Pop(5) == 2 && Pop(6) == 2 && Pop(7) == 3;
  }

  /** Each row is the first one raised by the count of its number. */
  lemma RowShifts(hi: nat)
    requires hi < 16
    ensures forall i :: 0 <= i < 16 ==> TableRow(hi)[i] == TableRow(0)[hi] + TableRow(0)[i]
  {
    var d := TableRow(0)[hi];
    assert TableRow(hi) == Raised(d);
    RaisedAt(d);
  }

  /** The five rows there are. */
  function Raised(d: nat): seq<nat> {
    if d == 0 then [0, 1, 1, 2, 1, 2, 2, 3, 1, 2, 2, 3, 2, 3, 3, 4]
    else if d == 1 then [1, 2, 2, 3, 2, 3, 3, 4, 2, 3, 3, 4, 3, 4, 4, 5]
    else if d == 2 then [2, 3, 3, 4, 3, 4, 4, 5, 3, 4, 4, 5, 4, 5, 5, 6]
    else if d == 3 then [3, 4, 4, 5, 4, 5, 5, 6, 4, 5, 5, 6, 5, 6, 6, 7]
    else [4, 5, 5, 6, 5, 6, 6, 7, 5, 6, 6, 7, 6, 7, 7, 8]
  }

  lemma RaisedAt(d: nat)
    requires d < 5
    ensures |Raised(d)| == 16
    ensures forall i :: 0 <= i < 16 ==> Raised(d)[i] == d + TableRow(0)[i]
  {
  }

  lemma HighAndLow(hi: nat, lo: nat)
    requires lo < 16
    ensures Pop(16 * hi + lo) == Pop(hi) + Pop(lo)
  {
    var r3, r2, r1, r0 := lo / 8, lo / 4 % 2, lo / 2 % 2, lo % 2;
    assert lo == 8 * r3 + 4 * r2 + 2 * r1 + r0;
    PopNibbles(hi, r3, r2, r1, r0);
    PopNibbles(0, r3, r2, r1, r0);
  }

  lemma PopNibbles(hi: nat, r3: nat, r2: nat, r1: nat, r0: nat)
    requires r3 < 2 && r2 < 2 && r1 < 2 && r0 < 2
    ensures Pop(16 * hi + 8 * r3 + 4 * r2 + 2 * r1 + r0) == Pop(hi) + r3 + r2 + r1 + r0
  {
    hide Pop;
    PopTwice(8 * hi + 4 * r3 + 2 * r2 + r1, r0);
    PopTwice(4 * hi + 2 * r3 + r2, r1);
    PopTwice(2 * hi + r3, r2);
    PopTwice(hi, r3);
  }

  lemma PopTwice(x: nat, r: nat)
    requires r < 2
    ensures Pop(2 * x + r) == r + Pop(x)
  {
  }

  // ---- the bits of a string -----------------------------------------------------

  /** The bit at an offset; 0 past the end. */
  function BitAt(c: Bytes, offset: nat): (b: nat)
    ensures b < 2
  {
    if offset / 8 >= |c| then 0 else Bit(c[offset / 8], 7 - offset % 8)
  }

  /** Bit 0 of each byte is its most significant one, worth 128, and bit 7 its least. */
  lemma BitPlaces(c: Bytes, i: nat, j: nat)
    requires j < 8
    ensures i < |c| ==> BitAt(c, 8 * i + j) == c[i] / [128, 64, 32, 16, 8, 4, 2, 1][j] % 2
    ensures i >= |c| ==> BitAt(c, 8 * i + j) == 0
  {
    var o := 8 * i + j;
    assert o / 8 == i && o % 8 == j;
    if i < |c| { BitIs(c[i], 7 - j); }
  }

  lemma {:induction false} BitIs(x: nat, k: nat)
    requires k < 8
    ensures Bit(x, k) == x / [1, 2, 4, 8, 16, 32, 64, 128][k] % 2
  {
    if k > 0 { BitIs(x / 2, k - 1); }
  }

  function CountBits(c: Bytes): nat {
    if c == [] then 0 else CountBits(c[..|c| - 1]) + Pop(c[|c| - 1])
  }

  lemma CountOneMore(c: Bytes, b: Byte)
    ensures CountBits(c + [b]) == CountBits(c) + Pop(b)
  {
    assert (c + [b])[..|c|] == c;
  }

  /** How many of the first n bits are 1. */
  function Ones(c: Bytes, n: nat): nat {
    if n == 0 then 0 else Ones(c, n - 1) + BitAt(c, n - 1)
  }

  /** The low n bits of x, counted. */
  function LowBits(x: nat, n: nat): nat {
    if n == 0 then 0 else Bit(x, 0) + LowBits(x / 2, n - 1)
  }

  lemma {:induction false} LowBitsSum(x: nat, n: nat)
    ensures LowBits(x, n + 1) == LowBits(x, n) + Bit(x, n)
  {
    if n > 0 { LowBitsSum(x / 2, n - 1); }
  }

  lemma {:induction false} PopLow(x: nat, n: nat)
    requires x < Pow2(n)
    ensures Pop(x) == LowBits(x, n)
  {
    if n > 0 { PopLow(x / 2, n - 1); }
  }

  /** The high n bits of a byte, counted. */
  function HighBits(x: nat, n: nat): nat
    requires n <= 8
  {
    if n == 0 then 0 else HighBits(x, n - 1) + Bit(x, 8 - n)
  }

  lemma HighBitsArePop(x: nat)
    requires x < 256
    ensures HighBits(x, 8) == Pop(x)
  {
    Pow2Small(0);
    PopLow(x, 8);
    HighAndLowBits(x, 8);
  }

  lemma {:induction false} HighAndLowBits(x: nat, n: nat)
    requires n <= 8
    ensures HighBits(x, n) + LowBits(x, 8 - n) == LowBits(x, 8)
  {
    if n > 0 {
      HighAndLowBits(x, n - 1);
      LowBitsSum(x, 8 - n);
    }
  }

  lemma {:induction false} OnesInByte(c: Bytes, i: nat, j: nat)
    requires i < |c| && j <= 8
    ensures Ones(c, 8 * i + j) == Ones(c, 8 * i) + HighBits(c[i], j)
  {
    if j > 0 {
      OnesInByte(c, i, j - 1);
      var o := 8 * i + j - 1;
      assert o / 8 == i && 7 - o % 8 == 8 - j;
    }
  }

  lemma {:induction false} OnesOfByte(c: Bytes, i: nat)
    requires i < |c|
    ensures Ones(c, 8 * i + 8) == Ones(c, 8 * i) + Pop(c[i])
  {
    OnesInByte(c, i, 8);
    HighBitsArePop(c[i]);
  }

  lemma {:induction false} CountPrefix(c: Bytes, i: nat)
    requires i <= |c|
    ensures CountBits(c[..i]) == Ones(c, 8 * i)
  {
    if i > 0 {
      CountPrefix(c, i - 1);
      OnesOfByte(c, i - 1);
      assert c[..i][..i - 1] == c[..i - 1];
    }
  }

  /** The bit count is the number of offsets at which a bit is 1, however far one looks. */
  lemma {:induction false} CountIsOnes(c: Bytes, n: nat)
    requires n >= 8 * |c|
    ensures CountBits(c) == Ones(c, n)
  {
    if n == 8 * |c| {
      CountPrefix(c, |c|);
      assert c[..|c|] == c;
    } else {
      CountIsOnes(c, n - 1);
    }
  }

  lemma {:induction false} OnesZero(c: Bytes, n: nat)
    ensures Ones(c, n) == 0 <==> forall p :: 0 <= p < n ==> BitAt(c, p) == 0
  {
    if n > 0 { OnesZero(c, n - 1); }
  }

  lemma CountZero(c: Bytes)
    ensures CountBits(c) == 0 <==> forall p: nat :: BitAt(c, p) == 0
  {
    CountIsOnes(c, 8 * |c|);
    OnesZero(c, 8 * |c|);
  }

  // ---- setting a bit ------------------------------------------------------------

  function Zeros(n: nat): (z: Bytes)
    ensures |z| == n && forall i :: 0 <= i < n ==> z[i] == 0
  {
    seq(n, _ => 0)
  }

  /** The string that bss_setbit starts from: the old one with zeros up to the byte it
      needs if that is within the capacity, and all zeros otherwise. */
  function SetBitBase(c: Bytes, byte: nat, size: nat): (r: Bytes)
    ensures byte < |r|
  {
    if byte + 1 > size then Zeros(byte + 1)
    else if byte + 1 > |c| then c + Zeros(byte + 1 - |c|)
    else c
  }

  function SetBitSpec(c: Bytes, offset: nat, val: nat, size: nat): Bytes
    requires val < 2
  {
    var base := SetBitBase(c, offset / 8, size);
    WithBitIs(base[offset / 8], 7 - offset % 8, val, 0);
    base[offset / 8 := WithBit(base[offset / 8], 7 - offset % 8, val)]
  }

  /** After a setbit the bit has its value, and every other one is what it was, as long
      as the string did not outgrow its capacity; then the others are all 0. */
  lemma SetBitBits(c: Bytes, offset: nat, val: nat, size: nat, p: nat)
    requires val < 2 && |c| <= size
    ensures BitAt(SetBitSpec(c, offset, val, size), p)
         == if p == offset then val else if offset / 8 < size then BitAt(c, p) else 0
  {
    var base := SetBitBase(c, offset / 8, size);
    if p / 8 == offset / 8 {
      WithBitIs(base[offset / 8], 7 - offset % 8, val, 7 - p % 8);
    }
    BitOfZero(7 - p % 8);
  }

  /** The string is as long as it was, or long enough for its new bit. */
  lemma SetBitLength(c: Bytes, offset: nat, val: nat, size: nat)
    requires val < 2 && |c| <= size
    ensures |SetBitSpec(c, offset, val, size)| == if offset < 8 * |c| then |c| else offset / 8 + 1
  {
  }

  /** The other bits survive exactly when the byte is within the capacity or there was
      no 1 among them. */
  lemma SetBitKeepsOthers(c: Bytes, offset: nat, val: nat, size: nat)
    requires val < 2 && |c| <= size
    ensures (forall p: nat :: p != offset ==> BitAt(SetBitSpec(c, offset, val, size), p) == BitAt(c, p))
      <==> offset / 8 < size || CountBits(c) == 0
  {
    CountZero(c);
    forall p: nat
      ensures BitAt(SetBitSpec(c, offset, val, size), p)
           == if p == offset then val else if offset / 8 < size then BitAt(c, p) else 0
    {
      SetBitBits(c, offset, val, size, p);
    }
    if offset / 8 >= size { assert BitAt(c, offset) == 0; }
  }

  lemma {:induction false} OnesChange(c: Bytes, d: Bytes, offset: nat, val: nat, n: nat)
    requires val < 2
    requires forall p: nat :: BitAt(d, p) == if p == offset then val else BitAt(c, p)
    ensures Ones(d, n) == Ones(c, n) + if offset < n then val - BitAt(c, offset) else 0
  {
    if n > 0 { OnesChange(c, d, offset, val, n - 1); }
  }

  /** Within the capacity, setbit changes the count by the new bit minus the old. */
  lemma {:induction false} SetBitCount(c: Bytes, offset: nat, val: nat, size: nat)
    requires val < 2 && |c| <= size && offset / 8 < size
    ensures CountBits(SetBitSpec(c, offset, val, size)) == CountBits(c) + val - BitAt(c, offset)
  {
    var d := SetBitSpec(c, offset, val, size);
    var n := 8 * |c| + 8 * |d| + offset + 1;
    forall p: nat ensures BitAt(d, p) == if p == offset then val else BitAt(c, p) {
      SetBitBits(c, offset, val, size, p);
    }
    OnesChange(c, d, offset, val, n);
    CountIsOnes(c, n);
    CountIsOnes(d, n);
  }
}
