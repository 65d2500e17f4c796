/** Powers of two and bitwise AND on natural numbers, as the bucket index uses them. */
module Masks {

  function Pow2(p: nat): (r: nat)
    ensures r >= 1
  {
    if p == 0 then 1 else 2 * Pow2(p - 1)
  }

  /** x & y */
  function And(x: nat, y: nat): nat {
    if x == 0 || y == 0 then 0 else (if x % 2 == 1 && y % 2 == 1 then 1 else 0) + 2 * And(x / 2, y / 2)
  }

  lemma {:induction false} HalfMod(x: nat, m: nat)
    requires m >= 1
    ensures x % (2 * m) == x % 2 + 2 * ((x / 2) % m)
  {
    var q, r := (x / 2) / m, (x / 2) % m;
    assert x == 2 * (x / 2) + x % 2;
    assert x / 2 == q * m + r;
    assert x == q * (2 * m) + (2 * r + x % 2);
    ModIs(x, 2 * m, q, 2 * r + x % 2);
  }

  lemma {:induction false} ModIs(x: nat, m: nat, q: nat, r: nat)
    requires x == q * m + r && r < m
    ensures x % m == r && x / m == q
  {
    var d := q - x / m;
    assert d * m == q * m - (x / m) * m;
    assert d * m == x % m - r;
    if d >= 1 { TimesAtLeast(d, m); }
  }

  lemma SmallMod(x: nat, m: nat)
    requires x < m
    ensures x % m == x
  {
    ModIs(x, m, 0, x);
  }

  /** Counting on by one modulo m. */
  lemma NextMod(x: nat, m: nat)
    requires x < m
    ensures (x + 1) % m == if x + 1 == m then 0 else x + 1
  {
    if x + 1 == m { ModIs(m, m, 1, 0); } else { SmallMod(x + 1, m); }
  }

  lemma TimesAtLeast(d: nat, m: nat)
    requires d >= 1
    ensures d * m >= m
  {
    assert d * m == (d - 1) * m + m;
  }

  /** Masking with 2^p - 1 is the remainder modulo 2^p. */
  lemma {:induction false} AndMask(x: nat, p: nat)
    ensures And(x, Pow2(p) - 1) == x % Pow2(p)
  {
    if p == 0 {
    } else if x == 0 {
    } else {
      var m := Pow2(p - 1);
      assert (2 * m - 1) % 2 == 1 && (2 * m - 1) / 2 == m - 1;
      AndMask(x / 2, p - 1);
      HalfMod(x, m);
    }
  }

  lemma {:induction false} Pow2Split(a: nat, b: nat)
    ensures Pow2(a + b) == Pow2(a) * Pow2(b)
  {
    if a > 0 { Pow2Split(a - 1, b); }
  }

  const UINT32_MAX := 0xffff_ffff
  const UINT32_MOD := 0x1_0000_0000

  /** The mask that dict_create computes from the size, ~size & (size - 1) on 32
      bits, selects a bucket by remainder. */
  lemma CreateMask(p: nat)
    requires p < 32
    ensures Pow2(p) <= UINT32_MAX
    ensures And(UINT32_MAX - Pow2(p), Pow2(p) - 1) == Pow2(p) - 1
  {
    Pow2Of32();
    Pow2Split(p, 32 - p);
    AllOnesBelow(Pow2(p), Pow2(31 - p));
    AndMask(UINT32_MAX - Pow2(p), p);
  }

  lemma {:induction false} AllOnesBelow(m: nat, k: nat)
    requires m >= 1 && k >= 1
    ensures m <= m * (2 * k) - 1 && (m * (2 * k) - 1 - m) % m == m - 1
  {
    assert m * (2 * k) == m * (2 * k - 2) + 2 * m;
    TimesAtLeast(2 * k, m);
    ModIs(m * (2 * k) - 1 - m, m, 2 * k - 2, m - 1);
  }

  lemma Pow2Of32()
    ensures Pow2(32) == UINT32_MAX + 1
  {
    assert Pow2(4) == 16;
    Pow2Split(4, 4);
    Pow2Split(8, 8);
    Pow2Split(16, 16);
  }

  /** The size and the mask that dict_create computes; 32 is a case of its own. */
  function TableSize(p: nat): nat
    requires p <= 32
  {
    if p == 32 then UINT32_MAX else Pow2(p)
  }

  function TableMask(p: nat): nat
    requires p <= 32
  {
    if p == 32 then UINT32_MAX
    else
      CreateMask(p);
      And(UINT32_MAX - Pow2(p), Pow2(p) - 1)
  }

  /** One bucket for power 0, twice as many for each power more, and for 32 one less than that;
      the mask is one less than the size below power 32. */
  lemma TableShapes(p: nat)
    requires p <= 32
    ensures TableSize(0) == 1 && TableSize(32) == 4_294_967_295 && TableMask(32) == 4_294_967_295
    ensures 0 < p < 32 ==> TableSize(p) == 2 * TableSize(p - 1)
    ensures p < 32 ==> TableMask(p) == TableSize(p) - 1
  {
    if p < 32 { CreateMask(p); }
  }

  /** Every hash has a slot exactly below power 32, where the table is one slot short. */
  lemma IndexInTable(p: nat)
    requires p <= 32
    ensures (forall h: nat :: h <= UINT32_MAX ==> And(h, TableMask(p)) < TableSize(p)) <==> p < 32
  {
    if p < 32 {
      CreateMask(p);
      forall h: nat | h <= UINT32_MAX ensures And(h, TableMask(p)) < TableSize(p) {
        AndMask(h, p);
      }
    } else {
      Pow2Of32();
      AndMask(UINT32_MAX, 32);
      SmallMod(UINT32_MAX, Pow2(32));
      assert And(UINT32_MAX, TableMask(p)) == TableSize(p);
    }
  }
}
