/** Decimal text: strtoll with base 10 as section 7.22.1.4 of ISO/IEC 9899:2011 has it,
    sprintf with "%lld", and the integer store that bss2int and bss_add_sub build on
    them. */
module Decimals {
  import opened Bytes

  const INT_MIN := -0x8000_0000_0000_0000
  const INT_MAX := 0x7fff_ffff_ffff_ffff

  predicate InRange(n: int) {
    INT_MIN <= n <= INT_MAX
  }

  predicate IsDigit(b: Byte) {
    48 <= b <= 57
  }

  ghost predicate AllDigits(s: Bytes) {
    forall i :: 0 <= i < |s| ==> IsDigit(s[i])
  }

  // ---- parsing --------------------------------------------------------------------

  function SkipSpace(s: Bytes): (r: Bytes)
    ensures |r| <= |s|
  {
    if s != [] && IsSpace(s[0]) then SkipSpace(s[1..]) else s
  }

  /** The longest prefix of digits. */
  function DigitCount(s: Bytes): (n: nat)
    ensures n <= |s|
  {
    if s != [] && IsDigit(s[0]) then 1 + DigitCount(s[1..]) else 0
  }

  function Value(s: Bytes): nat
    requires AllDigits(s)
  {
    if s == [] then 0 else 10 * Value(s[..|s| - 1]) + (s[|s| - 1] - 48)
  }

  predicate Signed(s: Bytes) {
    s != [] && (s[0] == 43 || s[0] == 45)
  }

  lemma {:induction false} DigitPrefix(s: Bytes)
    ensures AllDigits(s[..DigitCount(s)])
  {
    if s != [] && IsDigit(s[0]) {
      DigitPrefix(s[1..]);
      assert s[..DigitCount(s)] == [s[0]] + s[1..][..DigitCount(s[1..])];
    }
  }

  /** bss2int: the empty string is 0; otherwise strtoll must use up the whole string
      and stay in range. */
  function Parse(c: Bytes): Option<int> {
    if c == [] then Some(0)
    else
      var s := SkipSpace(c);
      var t := if Signed(s) then s[1..] else s;
      if t == [] || DigitCount(t) < |t| then None
      else
        DigitPrefix(t);
        assert t[..|t|] == t;
        var n: int := if s[0] == 45 then 0 - Value(t) else Value(t);
        if InRange(n) then Some(n) else None
  }

  // ---- strtoll ----------------------------------------------------------------------

  /** What strtoll makes of a text: a number, how many bytes it used up, and whether
      errno is ERANGE. */
  datatype Strtoll = Strtoll(value: int, end: nat, erange: bool)

  function ReadNumber(s: Bytes): Strtoll {
    var ws := |s| - |SkipSpace(s)|;
    var t := SkipSpace(s);
    var sign := if Signed(t) then 1 else 0;
    var n := DigitCount(t[sign..]);
    if n == 0 then Strtoll(0, 0, false)
    else
      DigitPrefix(t[sign..]);
      var v := Value(t[sign..][..n]);
      var k: int := if sign == 1 && t[0] == 45 then 0 - v else v;
      Strtoll(if k < INT_MIN then INT_MIN else if k > INT_MAX then INT_MAX else k, ws + sign + n, !InRange(k))
  }

  /** A text is accepted exactly if strtoll uses all of it up and is in range. */
  lemma ReadsAll(c: Bytes)
    requires c != []
    ensures var r := ReadNumber(c);
      Parse(c) == if r.erange || r.end != |c| then None else Some(r.value)
  {
    var t := SkipSpace(c);
    var u := t[if Signed(t) then 1 else 0..];
    DigitPrefix(u);
    assert u[..|u|] == u;
  }

  lemma {:induction false} SkipAll(ws: Bytes, s: Bytes)
    requires AllSpace(ws) && (s != [] ==> !IsSpace(s[0]))
    ensures SkipSpace(ws + s) == s
  {
    if ws == [] {
      assert ws + s == s;
    } else {
      assert (ws + s)[1..] == ws[1..] + s;
      SkipAll(ws[1..], s);
    }
  }

  lemma {:induction false} CountAll(s: Bytes)
    ensures DigitCount(s) == |s| <==> AllDigits(s)
  {
    if s != [] {
      CountAll(s[1..]);
      assert AllDigits(s) <==> IsDigit(s[0]) && AllDigits(s[1..]) by {
        assert s == [s[0]] + s[1..];
      }
    }
  }

  /** White space, a sign or none, and at least one digit: exactly what is accepted,
      if the number is in range. */
  lemma ParseAccepts(ws: Bytes, sign: Bytes, digits: Bytes)
    requires AllSpace(ws) && (sign == [] || sign == [43] || sign == [45]) && digits != [] && AllDigits(digits)
    ensures var n: int := if sign == [45] then 0 - Value(digits) else Value(digits);
      Parse(ws + sign + digits) == if InRange(n) then Some(n) else None
  {
    var s := sign + digits;
    assert ws + sign + digits == ws + s;
    SkipAll(ws, s);
    CountAll(digits);
    if sign != [] { assert s[1..] == digits; } else { assert s == digits; }
  }

  lemma {:induction false} SpacePrefix(s: Bytes)
    ensures var k := |s| - |SkipSpace(s)|; AllSpace(s[..k]) && s[k..] == SkipSpace(s)
  {
    if s != [] && IsSpace(s[0]) {
      SpacePrefix(s[1..]);
      var k := |s| - |SkipSpace(s)|;
      assert s[..k] == [s[0]] + s[1..][..k - 1];
    }
  }

  lemma ParseRejectsTheRest(c: Bytes) returns (ws: Bytes, sign: Bytes, digits: Bytes)
    requires c != [] && Parse(c).Some?
    ensures c == ws + sign + digits
    ensures AllSpace(ws) && (sign == [] || sign == [43] || sign == [45]) && digits != [] && AllDigits(digits)
  {
    var s := SkipSpace(c);
    SpacePrefix(c);
    ws := c[..|c| - |s|];
    digits := if Signed(s) then s[1..] else s;
    sign := if Signed(s) then [s[0]] else [];
    CountAll(digits);
  }

  /** The place of the first zero byte, or the end. */
  function ToZero(s: Bytes): (n: nat)
    ensures n <= |s| && 0 !in s[..n] && (n < |s| ==> s[n] == 0)
  {
    if s == [] || s[0] == 0 then 0
    else
      var n := ToZero(s[1..]);
      assert s[..n + 1] == [s[0]] + s[1..][..n];
      n + 1
  }

  lemma {:induction false} ToZeroIs(s: Bytes, n: nat)
    requires n <= |s| && 0 !in s[..n] && (n < |s| ==> s[n] == 0)
    ensures ToZero(s) == n
  {
    if n > 0 {
      assert s[0] == s[..n][0] && s[..n][1..] == s[1..][..n - 1];
      ToZeroIs(s[1..], n - 1);
    }
  }

  /** What bss2int stores through its result pointer, whether it succeeds or not. */
  function Read(c: Bytes): int {
    if c == [] then 0 else ReadNumber(c[..ToZero(c)]).value
  }

  lemma NoZeroByte(c: Bytes)
    requires c != [] && Parse(c).Some?
    ensures 0 !in c
  {
    var ws, sign, digits := ParseRejectsTheRest(c);
    assert 0 !in ws && 0 !in sign && 0 !in digits;
  }

  /** A text is accepted exactly if strtoll uses all of it up, reading to its first zero byte,
      and is in range: what follows a zero byte is never used up. */
  lemma ReadsUpToZero(c: Bytes)
    requires c != []
    ensures var r := ReadNumber(c[..ToZero(c)]);
      Parse(c) == if r.erange || r.end != |c| then None else Some(r.value)
  {
    if ToZero(c) == |c| {
      assert c[..|c|] == c;
      ReadsAll(c);
    } else if Parse(c).Some? {
      NoZeroByte(c);
    }
  }

  // ---- printing -------------------------------------------------------------------

  function Digits(n: nat): Bytes {
    if n < 10 then [48 + n] else Digits(n / 10) + [48 + n % 10]
  }

  /** sprintf with "%lld" */
  function Print(n: int): Bytes {
    if n < 0 then [45] + Digits(-n) else Digits(n)
  }

  lemma {:induction false} DigitsValue(n: nat)
    ensures Digits(n) != [] && AllDigits(Digits(n)) && Value(Digits(n)) == n
  {
    if n >= 10 {
      DigitsValue(n / 10);
      assert Digits(n)[..|Digits(n)| - 1] == Digits(n / 10);
    } else {
      assert Digits(n)[..0] == [];
    }
  }

  /** One digit more on the right makes ten times the number and the digit. */
  lemma OneDigitMore(s: Bytes, d: Byte)
    requires AllDigits(s) && 48 <= d <= 57
    ensures AllDigits(s + [d]) && Value(s + [d]) == 10 * Value(s) + (d - 48)
  {
    assert (s + [d])[..|s|] == s;
  }

  /** The empty text reads as 0, and  -1203  as minus one thousand two hundred and three. */
  lemma Numerals()
    ensures Parse([]) == Some(0)
    ensures Parse([45, 49, 50, 48, 51]) == Some(-1203) && Print(-1203) == [45, 49, 50, 48, 51]
  {
    assert Digits(12) == [49, 50] && Digits(120) == [49, 50, 48] && Digits(1203) == [49, 50, 48, 51];
    PrintThenParse(-1203);
  }

  function Pow10(k: nat): nat {
    if k == 0 then 1 else 10 * Pow10(k - 1)
  }

  lemma {:induction false} DigitsLength(n: nat, k: nat)
    requires n < Pow10(k) && k > 0
    ensures |Digits(n)| <= k
  {
    if n >= 10 {
      assert k > 1;
      DigitsLength(n / 10, k - 1);
    }
  }

  lemma {:induction false} Pow10Split(a: nat, b: nat)
    ensures Pow10(a + b) == Pow10(a) * Pow10(b)
  {
    if a > 0 { Pow10Split(a - 1, b); }
  }

  lemma Pow10Of19()
    ensures Pow10(19) == 10_000_000_000_000_000_000
  {
    Pow10Split(4, 4);
    Pow10Split(8, 8);
    Pow10Split(16, 3);
    assert Pow10(4) == 10_000 && Pow10(3) == 1000;
  }

  /** What is printed reads back as the same number, and never needs more than the
      BSS_MIN_LEN bytes that every string has room for. */
  lemma PrintThenParse(n: int)
    requires InRange(n)
    ensures Parse(Print(n)) == Some(n) && 0 < |Print(n)| <= 20
  {
    DigitsValue(if n < 0 then -n else n);
    PrintIsShort(n);
    if n < 0 {
      ParseAccepts([], [45], Digits(-n));
      assert [] + [45] + Digits(-n) == Print(n);
    } else {
      ParseAccepts([], [], Digits(n));
      assert [] + [] + Digits(n) == Print(n);
    }
  }

  lemma PrintIsShort(n: int)
    requires InRange(n)
    ensures |Print(n)| <= 20
  {
    Pow10Of19();
    DigitsLength(if n < 0 then -n else n, 19);
  }

  // ---- the integer store ----------------------------------------------------------

  /** bss_add_sub on the stored text: the text afterwards, or E_INV_INT. */
  function AddSub(c: Bytes, num: int): Option<Bytes> {
    if Parse(c).None? || !InRange(Parse(c).value + num) then None else Some(Print(Parse(c).value + num))
  }

  // ---- INCRBY and DECRBY ------------------------------------------------------------

  /** What "%d" makes of a 64-bit argument: its low 32 bits as a signed number. */
  function AsInt32(n: int): int {
    var low := n % 0x1_0000_0000;
    if low >= 0x8000_0000 then low - 0x1_0000_0000 else low
  }

  lemma AsInt32Fits(n: int)
    ensures -0x8000_0000 <= AsInt32(n) < 0x8000_0000
    ensures AsInt32(n) == n <==> -0x8000_0000 <= n < 0x8000_0000
  {
  }

  lemma AsInt32Wraps(n: int)
    ensures (n - AsInt32(n)) % 0x1_0000_0000 == 0
  {
  }

  /** _decrbyincrby_command on one key: the text stored afterwards and the reply, None
      for the invalid-integer error. The text of a missing key is absent. */
  function IncrBy(stored: Option<Bytes>, arg: Bytes, negative: bool): (Option<Bytes>, Option<int>)
    requires negative ==> Parse(arg) != Some(INT_MIN)
  {
    match Parse(arg)
    case None => (stored, None)
    case Some(number) =>
      var delta := if negative then -number else number;
      match stored
      case None => (Some(if negative then Print(AsInt32(delta)) else arg), Some(delta))
      case Some(text) =>
        match AddSub(text, delta)
        case None => (stored, None)
        case Some(sum) => (Some(sum), Some(Parse(text).value + delta))
  }

  /** On a text that reads as v and an argument that reads as n: INCRBY makes it v + n and DECRBY
      v - n and replies so, exactly if that is a 64-bit number; otherwise nothing changes. */
  lemma IncrByAdds(text: Bytes, arg: Bytes, v: int, n: int)
    requires Parse(text) == Some(v) && Parse(arg) == Some(n)
    ensures var (after, reply) := IncrBy(Some(text), arg, false);
      if -0x8000_0000_0000_0000 <= v + n <= 0x7fff_ffff_ffff_ffff then
        reply == Some(v + n) && after.Some? && Parse(after.value) == Some(v + n)
      else reply == None && after == Some(text)
    ensures n != INT_MIN ==>
      var (after, reply) := IncrBy(Some(text), arg, true);
      if -0x8000_0000_0000_0000 <= v - n <= 0x7fff_ffff_ffff_ffff then
        reply == Some(v - n) && after.Some? && Parse(after.value) == Some(v - n)
      else reply == None && after == Some(text)
  {
    if InRange(v + n) { PrintThenParse(v + n); }
    if InRange(v - n) { PrintThenParse(v - n); }
  }

  /** On a missing key: INCRBY stores the argument and replies n, DECRBY replies -n and stores what
      is left of it in 32 bits. Texts that are no numbers are refused. */
  lemma IncrByStarts(arg: Bytes, negative: bool)
    requires negative ==> Parse(arg) != Some(INT_MIN)
    ensures var (after, reply) := IncrBy(None, arg, negative);
      match Parse(arg)
      case None => after == None && reply == None
      case Some(n) =>
        if !negative then reply == Some(n) && after == Some(arg)
        else
          && reply == Some(-n) && after.Some? && Parse(after.value).Some?
          && var w := Parse(after.value).value;
             -0x8000_0000 <= w < 0x8000_0000 && (-n - w) % 0x1_0000_0000 == 0
    ensures forall text :: Parse(text).None? || Parse(arg).None? ==>
      IncrBy(Some(text), arg, negative) == (Some(text), None)
  {
    if Parse(arg).Some? && negative {
      AsInt32Fits(-Parse(arg).value);
      AsInt32Wraps(-Parse(arg).value);
      PrintThenParse(AsInt32(-Parse(arg).value));
    }
  }

  /** INCRBY or DECRBY with the text of its argument. */
  datatype Incr = Incr(arg: Bytes, negative: bool)

  /** DECRBY of the smallest number is not defined. */
  predicate Defined(c: Incr) {
    c.negative ==> Parse(c.arg) != Some(INT_MIN)
  }

  /** The text after a run of commands, and the replies. */
  function Incrs(text: Option<Bytes>, cs: seq<Incr>): (Option<Bytes>, seq<Option<int>>)
    requires forall c <- cs :: Defined(c)
    decreases |cs|
  {
    if cs == [] then (text, [])
    else
      assert Defined(cs[0]);
      var (after, reply) := IncrBy(text, cs[0].arg, cs[0].negative);
      var (end, replies) := Incrs(after, cs[1..]);
      (end, [reply] + replies)
  }

  /** What a command makes of a number; one whose argument is no number, or that would leave the
      64 bits, changes nothing. */
  function Becomes(v: int, c: Incr): int {
    match Parse(c.arg)
    case None => v
    case Some(n) =>
      var w := if c.negative then v - n else v + n;
      if -0x8000_0000_0000_0000 <= w <= 0x7fff_ffff_ffff_ffff then w else v
  }

  /** The number after each of the commands. */
  function Totals(v: int, cs: seq<Incr>): seq<int>
    decreases |cs|
  {
    if cs == [] then [] else [Becomes(v, cs[0])] + Totals(Becomes(v, cs[0]), cs[1..])
  }

  /** Each reply is the total then, or an error that left the total as it was before. */
  predicate Replied(v: int, replies: seq<Option<int>>, totals: seq<int>)
    decreases |replies|
  {
    if replies == [] || totals == [] then replies == [] && totals == []
    else
      && totals[0] == (if replies[0].Some? then replies[0].value else v)
      && Replied(totals[0], replies[1..], totals[1..])
  }

  lemma RepliedOneMore(v: int, w: int, reply: Option<int>, replies: seq<Option<int>>, totals: seq<int>)
    requires Replied(w, replies, totals) && w == (if reply.Some? then reply.value else v)
    ensures Replied(v, [reply] + replies, [w] + totals)
  {
    assert ([reply] + replies)[1..] == replies && ([w] + totals)[1..] == totals;
  }

  /** Over any run of commands on a number, the replies are the running totals or errors that
      change nothing, and the text at the end reads as the last total. */
  lemma {:induction false} RunKeepsTotal(text: Bytes, cs: seq<Incr>)
    requires Parse(text).Some? && forall c <- cs :: Defined(c)
    ensures var (end, replies) := Incrs(Some(text), cs);
      var totals := Totals(Parse(text).value, cs);
      && |totals| == |cs| && end.Some?
      && Parse(end.value) == Some(if cs == [] then Parse(text).value else totals[|cs| - 1])
      && Replied(Parse(text).value, replies, totals)
    decreases |cs|
  {
    if cs != [] {
      hide IncrBy, Parse, Replied, Becomes;
      assert Defined(cs[0]);
      var v := Parse(text).value;
      var (after, reply) := IncrBy(Some(text), cs[0].arg, cs[0].negative);
      IncrMakes(text, cs[0]);
      RunKeepsTotal(after.value, cs[1..]);
      var w := Parse(after.value).value;
      RepliedOneMore(v, w, reply, Incrs(after, cs[1..]).1, Totals(w, cs[1..]));
    } else {
      assert Replied(Parse(text).value, [], []);
    }
  }

  lemma IncrMakes(text: Bytes, c: Incr)
    requires Parse(text).Some? && Defined(c)
    ensures var (after, reply) := IncrBy(Some(text), c.arg, c.negative);
      var total := Becomes(Parse(text).value, c);
      && after.Some? && Parse(after.value) == Some(total)
      && if reply.Some? then reply.value == total else total == Parse(text).value
  {
    if Parse(c.arg).Some? { IncrByAdds(text, c.arg, Parse(text).value, Parse(c.arg).value); }
    if Parse(c.arg).None? { IncrByStarts(c.arg, c.negative); }
  }

  /** The key afterwards reads as the number replied, except that DECRBY of a missing
      key stores what fits in 32 bits: exactly when the number fits is it right. */
  lemma IncrByStoresItsReply(stored: Option<Bytes>, arg: Bytes, negative: bool)
    requires negative ==> Parse(arg) != Some(INT_MIN)
    ensures var (after, reply) := IncrBy(stored, arg, negative);
      reply.Some? ==>
        && after.Some?
        && (Parse(after.value) == reply <==> !(stored.None? && negative) || -0x8000_0000 <= reply.value < 0x8000_0000)
  {
    var (after, reply) := IncrBy(stored, arg, negative);
    if reply.Some? {
      if stored.None? {
        if negative {
          AsInt32Fits(reply.value);
          PrintThenParse(AsInt32(reply.value));
        }
      } else {
        PrintThenParse(reply.value);
      }
    }
  }
}
