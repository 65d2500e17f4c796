/** parse_args of server/server.c: how a request's argument text is cut into tokens. */
module Tokens {
  import opened Bytes

  const QUOTE: Byte := 34

  /** The place of the first quote, or the end. */
  function ToQuote(s: Bytes): (n: nat)
    ensures n <= |s| && (forall i :: 0 <= i < n ==> s[i] != QUOTE)
    ensures n < |s| ==> s[n] == QUOTE
  {
    if s == [] || s[0] == QUOTE then 0 else 1 + ToQuote(s[1..])
  }

  /** The place of the first white space, or the end. */
  function ToSpace(s: Bytes): (n: nat)
    ensures n <= |s| && (forall i :: 0 <= i < n ==> !IsSpace(s[i]))
    ensures n < |s| ==> IsSpace(s[n])
  {
    if s == [] || IsSpace(s[0]) then 0 else 1 + ToSpace(s[1..])
  }

  /** The tokens of a text; None if a quote is left open. */
  function Cut(s: Bytes): Option<seq<Bytes>>
    decreases |s|
  {
    if s == [] then Some([])
    else if IsSpace(s[0]) then Cut(s[1..])
    else if s[0] == QUOTE then
      var n := ToQuote(s[1..]);
      if n == |s| - 1 then None else Before(s[1..n + 1], Cut(s[n + 2..]))
    else
      var n := 1 + ToSpace(s[1..]);
      Before(s[..n], Cut(s[n..]))
  }

  function Before(token: Bytes, rest: Option<seq<Bytes>>): Option<seq<Bytes>> {
    if rest == None then None else Some([token] + rest.value)
  }

  /** Tokens found so far, put before those of the rest. */
  function After(found: seq<Bytes>, rest: Option<seq<Bytes>>): Option<seq<Bytes>> {
    if rest == None then None else Some(found + rest.value)
  }

  lemma PrefixOfSlice(data: Bytes, curr: nat, j: nat)
    requires curr <= |data| && j <= |data| - curr
    ensures data[curr..][..j] == data[curr..curr + j] && data[curr..][j..] == data[curr + j..]
  {
  }

  /** How the text from a closed quote on is cut, in terms of places. */
  lemma CutFromQuote(data: Bytes, curr: nat, e: nat)
    requires curr < |data| && data[curr] == QUOTE && e == curr + 1 + ToQuote(data[curr + 1..]) < |data|
    ensures Cut(data[curr..]) == Before(data[curr + 1..e], Cut(data[e + 1..]))
  {
    var s := data[curr..];
    SliceOfSlice(data, curr, 1, e - curr);
    SliceOfSlice(data, curr, e + 1 - curr, e + 1 - curr);
    CutQuote(s, data[curr + 1..e], data[e + 1..]);
  }

  /** The text from an open quote on cannot be cut. */
  lemma CutFromOpenQuote(data: Bytes, curr: nat)
    requires curr < |data| && data[curr] == QUOTE && curr + 1 + ToQuote(data[curr + 1..]) == |data|
    ensures Cut(data[curr..]) == None
  {
    SliceOfSlice(data, curr, 1, 1);
  }

  lemma CutQuote(s: Bytes, token: Bytes, rest: Bytes)
    requires s != [] && s[0] == QUOTE && ToQuote(s[1..]) < |s| - 1
    requires token == s[1..ToQuote(s[1..]) + 1] && rest == s[ToQuote(s[1..]) + 2..]
    ensures Cut(s) == Before(token, Cut(rest))
  {
  }

  /** White space is skipped. */
  lemma CutFromSpace(data: Bytes, curr: nat)
    requires curr < |data| && IsSpace(data[curr])
    ensures Cut(data[curr..]) == Cut(data[curr + 1..])
  {
    SliceOfSlice(data, curr, 1, 1);
  }

  /** How the text from any other character on is cut, in terms of places. */
  lemma CutFromOther(data: Bytes, curr: nat, e: nat)
    requires curr < |data| && data[curr] != QUOTE && !IsSpace(data[curr]) && e == curr + 1 + ToSpace(data[curr + 1..])
    ensures Cut(data[curr..]) == Before(data[curr..e], Cut(data[e..]))
  {
    var s := data[curr..];
    SliceOfSlice(data, curr, 1, 1);
    PrefixOfSlice(data, curr, e - curr);
    CutOther(s, data[curr..e], data[e..]);
  }

  lemma CutOther(s: Bytes, token: Bytes, rest: Bytes)
    requires s != [] && s[0] != QUOTE && !IsSpace(s[0])
    requires token == s[..1 + ToSpace(s[1..])] && rest == s[1 + ToSpace(s[1..])..]
    ensures Cut(s) == Before(token, Cut(rest))
  {
  }

  /** A token in quotes; not ok if its quote is left open. */
  method QuotedToken(data: Bytes, start: nat) returns (ok: bool, token: Bytes, curr: nat)
    requires start < |data| && data[start] == QUOTE
    ensures !ok ==> Cut(data[start..]) == None
    ensures ok ==> start < curr <= |data| && Cut(data[start..]) == Before(token, Cut(data[curr..]))
  {
    ok, token, curr := true, [], start + 1;
    var rptr := SkipTo(data, curr, true);
    if rptr == |data| {
      CutFromOpenQuote(data, start);
      ok := false;
    } else {
      token, curr := data[curr..rptr], rptr + 1;
      CutFromQuote(data, start, rptr);
    }
  }

  /** A token without quotes. */
  method BareToken(data: Bytes, start: nat) returns (token: Bytes, curr: nat)
    requires start < |data| && data[start] != QUOTE && !IsSpace(data[start])
    ensures start < curr <= |data| && Cut(data[start..]) == Before(token, Cut(data[curr..]))
  {
    var rptr := SkipTo(data, start + 1, false);
    CutFromOther(data, start, rptr);
    token, curr := data[start..rptr], rptr;
  }

  /** The body of the loop of parse_args: the token at a place, if one starts there,
      and where to go on; not ok if its quote is left open. */
  method NextToken(data: Bytes, start: nat) returns (ok: bool, token: Option<Bytes>, curr: nat)
    requires start < |data|
    ensures !ok ==> Cut(data[start..]) == None
    ensures ok ==> start < curr <= |data|
    ensures ok && token.None? ==> Cut(data[start..]) == Cut(data[curr..])
    ensures ok && token.Some? ==> Cut(data[start..]) == Before(token.value, Cut(data[curr..]))
  {
    ok, token, curr := true, None, start;
    var t: Bytes;
    if IsSpace(data[curr]) {
      CutFromSpace(data, start);
      curr := curr + 1;
    } else if data[curr] == QUOTE {
      ok, t, curr := QuotedToken(data, start);
      token := Some(t);
    } else {
      t, curr := BareToken(data, start);
      token := Some(t);
    }
  }

  /** parse_args */
  method ParseArgs(data: Bytes) returns (args: Option<seq<Bytes>>)
    ensures args == Cut(data)
  {
    var found: seq<Bytes> := [];
    var curr, end := 0, |data|;
    AfterNothing(Cut(data));
    assert data[0..] == data;
    while curr < end
      invariant curr <= end
      invariant Cut(data) == After(found, Cut(data[curr..]))
    {
      var ok, token, next := NextToken(data, curr);
      if !ok { return None; }
      if token.Some? {
        AfterBefore(found, token.value, Cut(data[next..]));
        found := found + [token.value];
      }
      curr := next;
    }
    assert data[curr..] == [] && found + [] == found;
    args := Some(found);
  }

  lemma AfterNothing(rest: Option<seq<Bytes>>)
    ensures After([], rest) == rest
  {
    if rest.Some? { assert [] + rest.value == rest.value; }
  }

  lemma AfterBefore(found: seq<Bytes>, token: Bytes, rest: Option<seq<Bytes>>)
    ensures After(found, Before(token, rest)) == After(found + [token], rest)
  {
    if rest.Some? { assert found + ([token] + rest.value) == (found + [token]) + rest.value; }
  }

  /** The inner loops: on to the next quote, or to the next white space. */
  method SkipTo(data: Bytes, from: nat, quote: bool) returns (rptr: nat)
    requires from <= |data|
    ensures rptr == from + if quote then ToQuote(data[from..]) else ToSpace(data[from..])
  {
    rptr := from;
    while rptr != |data| && !(if quote then data[rptr] == QUOTE else IsSpace(data[rptr]))
      invariant from <= rptr <= |data|
      invariant (from + if quote then ToQuote(data[from..]) else ToSpace(data[from..]))
             == (rptr + if quote then ToQuote(data[rptr..]) else ToSpace(data[rptr..]))
      decreases |data| - rptr
    {
      assert data[rptr..][1..] == data[rptr + 1..];
      rptr := rptr + 1;
    }
  }

  // ---- what texts are cut into what tokens -----------------------------------------

  /** A token as it may stand in a text: after a gap, in quotes or bare. */
  datatype Piece = Piece(gap: Bytes, quoted: bool, token: Bytes)

  function Written(p: Piece): Bytes {
    p.gap + if p.quoted then [QUOTE] + p.token + [QUOTE] else p.token
  }

  function Text(pieces: seq<Piece>, tail: Bytes): Bytes {
    if pieces == [] then tail else Written(pieces[0]) + Text(pieces[1..], tail)
  }

  function TokensOf(pieces: seq<Piece>): seq<Bytes> {
    if pieces == [] then [] else [pieces[0].token] + TokensOf(pieces[1..])
  }

  ghost predicate PieceOk(p: Piece) {
    && AllSpace(p.gap)
    && if p.quoted then QUOTE !in p.token
       else p.token != [] && p.token[0] != QUOTE && forall i :: 0 <= i < |p.token| ==> !IsSpace(p.token[i])
  }

  /** A bare token ends where white space or the text's end follows. */
  ghost predicate Ok(pieces: seq<Piece>, tail: Bytes) {
    pieces != [] ==>
      && PieceOk(pieces[0]) && Ok(pieces[1..], tail)
      && (!pieces[0].quoted ==> var rest := Text(pieces[1..], tail); rest == [] || IsSpace(rest[0]))
  }

  lemma {:induction false} CutGap(gap: Bytes, s: Bytes)
    requires AllSpace(gap)
    ensures Cut(gap + s) == Cut(s)
  {
    if gap == [] {
      assert gap + s == s;
    } else {
      assert (gap + s)[1..] == gap[1..] + s;
      CutGap(gap[1..], s);
    }
  }

  lemma {:induction false} QuoteAt(a: Bytes, s: Bytes)
    requires QUOTE !in a
    ensures ToQuote(a + [QUOTE] + s) == |a|
  {
    var t := a + [QUOTE] + s;
    if a != [] {
      assert t[1..] == a[1..] + [QUOTE] + s;
      QuoteAt(a[1..], s);
    }
  }

  lemma {:induction false} SpaceAt(a: Bytes, s: Bytes)
    requires (forall i :: 0 <= i < |a| ==> !IsSpace(a[i])) && (s == [] || IsSpace(s[0]))
    ensures ToSpace(a + s) == |a|
  {
    if a == [] {
      assert a + s == s;
    } else {
      assert (a + s)[1..] == a[1..] + s;
      SpaceAt(a[1..], s);
    }
  }

  lemma {:induction false} CutPiece(p: Piece, rest: Bytes)
    requires PieceOk(p) && (!p.quoted ==> rest == [] || IsSpace(rest[0]))
    ensures Cut(Written(p) + rest) == Before(p.token, Cut(rest))
  {
    var body := if p.quoted then [QUOTE] + p.token + [QUOTE] else p.token;
    assert Written(p) + rest == p.gap + (body + rest);
    CutGap(p.gap, body + rest);
    if p.quoted { CutQuoted(p.token, rest); } else { CutBare(p.token, rest); }
  }

  lemma CutQuoted(token: Bytes, rest: Bytes)
    requires QUOTE !in token
    ensures Cut([QUOTE] + token + [QUOTE] + rest) == Before(token, Cut(rest))
  {
    var s := [QUOTE] + token + [QUOTE] + rest;
    QuoteAt(token, rest);
    assert s[1..] == token + [QUOTE] + rest;
    assert s[1..|token| + 1] == token && s[|token| + 2..] == rest;
  }

  lemma {:induction false} CutBare(token: Bytes, rest: Bytes)
    requires token != [] && token[0] != QUOTE && (forall i :: 0 <= i < |token| ==> !IsSpace(token[i]))
    requires rest == [] || IsSpace(rest[0])
    ensures Cut(token + rest) == Before(token, Cut(rest))
  {
    var s := token + rest;
    assert s[1..] == token[1..] + rest;
    SpaceAt(token[1..], rest);
    assert s[..|token|] == token && s[|token|..] == rest;
  }

  /** Any list of tokens, each written in quotes if it has no quote in it or bare if it
      has no white space and does not start with a quote, with white space between
      where needed, is cut back into the same list. */
  lemma {:induction false} CutText(pieces: seq<Piece>, tail: Bytes)
    requires Ok(pieces, tail)
    ensures Cut(Text(pieces, tail)) == After(TokensOf(pieces), Cut(tail))
  {
    if pieces == [] {
      AfterNothing(Cut(tail));
    } else {
      CutText(pieces[1..], tail);
      CutPiece(pieces[0], Text(pieces[1..], tail));
      BeforeAfter(pieces[0].token, TokensOf(pieces[1..]), Cut(tail));
    }
  }

  lemma BeforeAfter(token: Bytes, found: seq<Bytes>, rest: Option<seq<Bytes>>)
    ensures Before(token, After(found, rest)) == After([token] + found, rest)
  {
    if rest.Some? { assert [token] + (found + rest.value) == ([token] + found) + rest.value; }
  }

  /** A quote that is not closed. */
  ghost predicate Open(tail: Bytes) {
    exists n :: 0 <= n < |tail| && AllSpace(tail[..n]) && tail[n] == QUOTE && QUOTE !in tail[n + 1..]
  }

  lemma CutTail(tail: Bytes)
    ensures AllSpace(tail) ==> Cut(tail) == Some([])
    ensures Open(tail) ==> Cut(tail) == None
  {
    if AllSpace(tail) {
      CutGap(tail, []);
      assert tail + [] == tail;
    } else if n :| 0 <= n < |tail| && AllSpace(tail[..n]) && tail[n] == QUOTE && QUOTE !in tail[n + 1..] {
      CutGap(tail[..n], tail[n..]);
      assert tail[..n] + tail[n..] == tail;
      assert tail[n..][1..] == tail[n + 1..];
      assert ToQuote(tail[n + 1..]) == |tail[n + 1..]|;
    }
  }

  /** White space in front of a tail changes neither kind of it. */
  lemma LongerTail(b: Byte, tail: Bytes)
    requires IsSpace(b)
    ensures AllSpace(tail) ==> AllSpace([b] + tail)
    ensures Open(tail) ==> Open([b] + tail)
  {
    if n :| 0 <= n < |tail| && AllSpace(tail[..n]) && tail[n] == QUOTE && QUOTE !in tail[n + 1..] {
      assert ([b] + tail)[..n + 1] == [b] + tail[..n] && ([b] + tail)[n + 2..] == tail[n + 1..];
    }
  }

  /** White space in front of a piece belongs to its gap. */
  lemma LongerGap(b: Byte, pieces: seq<Piece>, tail: Bytes)
    requires IsSpace(b) && pieces != [] && Ok(pieces, tail)
    ensures var pieces1 := [pieces[0].(gap := [b] + pieces[0].gap)] + pieces[1..];
      Ok(pieces1, tail) && Text(pieces1, tail) == [b] + Text(pieces, tail) && TokensOf(pieces1) == TokensOf(pieces)
  {
    var p, rest := pieces[0], Text(pieces[1..], tail);
    var q := p.(gap := [b] + p.gap);
    assert ([q] + pieces[1..])[1..] == pieces[1..];
    assert Written(q) == [b] + Written(p);
    assert ([b] + Written(p)) + rest == [b] + (Written(p) + rest);
  }

  /** White space in front of a text. */
  lemma MoreGap(b: Byte, pieces: seq<Piece>, tail: Bytes) returns (pieces1: seq<Piece>, tail1: Bytes)
    requires IsSpace(b) && Ok(pieces, tail)
    ensures Ok(pieces1, tail1) && Text(pieces1, tail1) == [b] + Text(pieces, tail)
    ensures TokensOf(pieces1) == TokensOf(pieces)
    ensures AllSpace(tail) ==> AllSpace(tail1)
    ensures Open(tail) ==> Open(tail1)
  {
    if pieces == [] {
      pieces1, tail1 := [], [b] + tail;
      LongerTail(b, tail);
    } else {
      pieces1, tail1 := [pieces[0].(gap := [b] + pieces[0].gap)] + pieces[1..], tail;
      LongerGap(b, pieces, tail);
    }
  }

  lemma OnePieceMore(p: Piece, pieces: seq<Piece>, tail: Bytes)
    requires PieceOk(p) && Ok(pieces, tail)
    requires !p.quoted ==> var rest := Text(pieces, tail); rest == [] || IsSpace(rest[0])
    ensures Ok([p] + pieces, tail) && Text([p] + pieces, tail) == Written(p) + Text(pieces, tail)
    ensures TokensOf([p] + pieces) == [p.token] + TokensOf(pieces)
  {
    assert ([p] + pieces)[1..] == pieces;
  }

  lemma FirstQuoted(s: Bytes) returns (p: Piece, n: nat)
    requires s != [] && s[0] == QUOTE && ToQuote(s[1..]) < |s| - 1
    ensures p.quoted && PieceOk(p) && 0 < n <= |s| && s == Written(p) + s[n..]
    ensures Cut(s) == Before(p.token, Cut(s[n..]))
  {
    n := ToQuote(s[1..]) + 2;
    p := Piece([], true, s[1..n - 1]);
    assert forall i :: 0 <= i < n - 2 ==> p.token[i] == s[1..][i];
    assert Written(p) == [QUOTE] + p.token + [QUOTE] == s[..n];
    assert s == s[..n] + s[n..];
    CutQuote(s, p.token, s[n..]);
  }

  lemma FirstBare(s: Bytes) returns (p: Piece, n: nat)
    requires s != [] && s[0] != QUOTE && !IsSpace(s[0])
    ensures !p.quoted && PieceOk(p) && 0 < n <= |s| && s == Written(p) + s[n..]
    ensures n == |s| || IsSpace(s[n])
    ensures Cut(s) == Before(p.token, Cut(s[n..]))
  {
    n := 1 + ToSpace(s[1..]);
    p := Piece([], false, s[..n]);
    assert Cut(s) == Before(p.token, Cut(s[n..])) by { CutOther(s, p.token, s[n..]); }
    BareIsPiece(s, n);
    assert Written(p) + s[n..] == s[..n] + s[n..] == s;
  }

  lemma BareIsPiece(s: Bytes, n: nat)
    requires s != [] && s[0] != QUOTE && !IsSpace(s[0]) && n == 1 + ToSpace(s[1..])
    ensures PieceOk(Piece([], false, s[..n])) && (n == |s| || IsSpace(s[n]))
  {
    assert forall i :: 0 < i < n ==> s[i] == s[1..][i - 1];
  }

  lemma {:induction false} FirstPiece(s: Bytes) returns (p: Piece, n: nat)
    requires s != [] && !IsSpace(s[0]) && (s[0] == QUOTE ==> ToQuote(s[1..]) < |s| - 1)
    ensures PieceOk(p) && 0 < n <= |s| && s == Written(p) + s[n..]
    ensures !p.quoted ==> n == |s| || IsSpace(s[n])
    ensures Cut(s) == Before(p.token, Cut(s[n..]))
  {
    if s[0] == QUOTE { p, n := FirstQuoted(s); } else { p, n := FirstBare(s); }
  }

  lemma OpenQuote(s: Bytes)
    requires s != [] && s[0] == QUOTE && ToQuote(s[1..]) == |s| - 1
    ensures Open(s) && Cut(s) == None
  {
    assert s[..0] == [] && QUOTE !in s[1..];
  }

  /** The other way round: every text is such a list of tokens followed by white space,
      and is cut into them, or by an open quote, and is refused. */
  lemma {:induction false} CutExplained(s: Bytes) returns (pieces: seq<Piece>, tail: Bytes)
    ensures Ok(pieces, tail) && s == Text(pieces, tail)
    ensures Cut(s).Some? ==> AllSpace(tail) && Cut(s).value == TokensOf(pieces)
    ensures Cut(s).None? ==> Open(tail)
    decreases |s|
  {
    pieces, tail := [], s;
    if s == [] {
    } else if IsSpace(s[0]) {
      pieces, tail := CutExplained(s[1..]);
      assert s == [s[0]] + s[1..];
      pieces, tail := MoreGap(s[0], pieces, tail);
    } else if s[0] == QUOTE && ToQuote(s[1..]) == |s| - 1 {
      OpenQuote(s);
    } else {
      var p, n := FirstPiece(s);
      pieces, tail := CutExplained(s[n..]);
      OnePieceMore(p, pieces, tail);
      pieces := [p] + pieces;
    }
  }

  /** The text  k "a b" c  with a tab before the c has three tokens. */
  lemma CutExample()
    ensures Cut([32, 107, 32, 34, 97, 32, 98, 34, 9, 99]) == Some([[107], [97, 32, 98], [99]])
  {
    var k, ab, c := Piece([32], false, [107]), Piece([32], true, [97, 32, 98]), Piece([9], false, [99]);
    assert Text([c], []) == Written(c) + [] == [9, 99] && [c][1..] == [];
    assert Text([ab, c], []) == Written(ab) + [9, 99] == [32, 34, 97, 32, 98, 34, 9, 99] && [ab, c][1..] == [c];
    assert Text([k, ab, c], []) == Written(k) + Text([ab, c], []) && [k, ab, c][1..] == [ab, c];
    assert Text([k, ab, c], []) == [32, 107, 32, 34, 97, 32, 98, 34, 9, 99];
    assert Ok([], []) && Ok([c], []) && Ok([ab, c], []) && Ok([k, ab, c], []);
    CutText([k, ab, c], []);
    assert TokensOf([c]) == [[99]] && TokensOf([ab, c]) == [[97, 32, 98], [99]];
    assert TokensOf([k, ab, c]) == [[107], [97, 32, 98], [99]];
    AfterNothing(Some(TokensOf([k, ab, c])));
    assert TokensOf([k, ab, c]) + [] == TokensOf([k, ab, c]);
  }
}
