/** What each list command does to the lists, told by the lists themselves: which element an end
    of a list is, where a negative index counts from, which matches go. Module Commands
    proves the pointer programs against Exec; these are the laws of Exec. */
module CommandLaws {
  import opened Bytes
  import opened Decimals
  import opened ListSpec
  import opened Machine
  import opened ReplyArrays

  /** Nothing but the key was touched. */
  predicate OthersKept(m: Keys, m1: Keys, key: Bytes) {
    m1 - {key} == m - {key}
  }

  /** The key holds the list, or is gone if the list is empty. */
  predicate Holds(m: Keys, key: Bytes, s: seq<Bytes>) {
    if s == [] then key !in m else key in m && m[key] == Lst(s)
  }

  /** The text is the reply, or the error for a long one: 1048576 bytes can be sent. */
  predicate Sends(reply: Reply, text: Bytes) {
    reply == if |text| <= 1_048_576 then Text(text) else TextTooLong(text)
  }

  // ---- LPUSH and RPUSH ------------------------------------------------------------

  /** The last value pushed is the last element after RPUSH and the first one after LPUSH; the old
      elements stay together. An absent key counts as an empty list. */
  lemma PushLaw(m: Keys, arr: seq<Item>, end: End, key: Bytes, vals: seq<Bytes>, s: seq<Bytes>)
    requires vals != [] && (if key in m then m[key] == Lst(s) else s == [])
    ensures var out := Exec(m, arr, Push(end, key, vals));
      && out.ret == Replied(Int(|s| + |vals|)) && out.arr == arr && OthersKept(m, out.keys, key)
      && key in out.keys && out.keys[key].Lst?
      && var t := out.keys[key].elems;
         |t| == |vals| + |s| &&
         match end
         case Right => t[..|s|] == s && forall i :: 0 <= i < |vals| ==> t[|s| + i] == vals[i]
         case Left => t[|vals|..] == s && forall i :: 0 <= i < |vals| ==> t[|vals| - 1 - i] == vals[i]
  {
    hide Pushed;
    Lands(end, s, vals);
  }

  lemma Lands(end: End, s: seq<Bytes>, vals: seq<Bytes>)
    ensures var t := Pushed(end == Left, s, vals);
      |t| == |vals| + |s| &&
      match end
      case Right => t[..|s|] == s && forall i :: 0 <= i < |vals| ==> t[|s| + i] == vals[i]
      case Left => t[|vals|..] == s && forall i :: 0 <= i < |vals| ==> t[|vals| - 1 - i] == vals[i]
  {
    forall i | 0 <= i < |vals| ensures Reverse(vals)[|vals| - 1 - i] == vals[i] {
      ReverseAt(vals, |vals| - 1 - i);
    }
  }

  lemma PushRefused(m: Keys, arr: seq<Item>, end: End, key: Bytes, vals: seq<Bytes>)
    ensures vals == [] ==> Exec(m, arr, Push(end, key, vals)) == Outcome(m, arr, Replied(NumArgs))
    ensures vals != [] && key in m && !m[key].Lst? ==>
      Exec(m, arr, Push(end, key, vals)) == Outcome(m, arr, Replied(WrongType))
  {
  }

  // ---- LPOP, RPOP and RPOPLPUSH -----------------------------------------------------

  /** RPOP takes the last element. */
  lemma RPopLaw(m: Keys, arr: seq<Item>, key: Bytes, s: seq<Bytes>, x: Bytes)
    requires key in m && m[key] == Lst(s + [x])
    ensures var out := Exec(m, arr, Pop(Right, key));
      && out.ret.Replied? && Sends(out.ret.reply, x) && out.arr == arr
      && Holds(out.keys, key, s) && OthersKept(m, out.keys, key)
  {
    assert (s + [x])[..|s|] == s;
  }

  /** LPOP takes the first one. */
  lemma LPopLaw(m: Keys, arr: seq<Item>, key: Bytes, x: Bytes, s: seq<Bytes>)
    requires key in m && m[key] == Lst([x] + s)
    ensures var out := Exec(m, arr, Pop(Left, key));
      && out.ret.Replied? && Sends(out.ret.reply, x) && out.arr == arr
      && Holds(out.keys, key, s) && OthersKept(m, out.keys, key)
  {
    assert ([x] + s)[1..] == s;
  }

  /** RPOPLPUSH moves the last element of one list to the front of another one, which is made if
      it is not there; to a key of another type the element is lost. */
  lemma RPopLPushLaw(m: Keys, arr: seq<Item>, src: Bytes, dst: Bytes, s: seq<Bytes>, x: Bytes)
    requires src in m && m[src] == Lst(s + [x]) && src != dst
    ensures var out := Exec(m, arr, Cmd.RPopLPush(src, dst));
      && out.arr == arr && out.ret.Replied? && Holds(out.keys, src, s)
      && out.keys - {src, dst} == m - {src, dst}
      && if dst in m && !m[dst].Lst? then out.ret.reply == WrongType && OthersKept(m, out.keys, src)
         else Sends(out.ret.reply, x) && Holds(out.keys, dst, [x] + if dst in m then m[dst].elems else [])
  {
    assert (s + [x])[..|s|] == s;
  }

  /** From a list to itself it turns the list round by one. */
  lemma RPopLPushRotates(m: Keys, arr: seq<Item>, key: Bytes, s: seq<Bytes>, x: Bytes)
    requires key in m && m[key] == Lst(s + [x])
    ensures var out := Exec(m, arr, Cmd.RPopLPush(key, key));
      && out.arr == arr && out.ret.Replied? && Sends(out.ret.reply, x)
      && Holds(out.keys, key, [x] + s) && OthersKept(m, out.keys, key)
  {
    assert (s + [x])[..|s|] == s;
  }

  /** From an absent key nothing is taken, and from one of another type neither. */
  lemma PopRefused(m: Keys, arr: seq<Item>, end: End, key: Bytes, dst: Bytes)
    ensures key !in m ==>
      && Exec(m, arr, Pop(end, key)) == Outcome(m, arr, Replied(Nil))
      && Exec(m, arr, Cmd.RPopLPush(key, dst)) == Outcome(m, arr, Replied(Nil))
    ensures key in m && !m[key].Lst? ==>
      && Exec(m, arr, Pop(end, key)) == Outcome(m, arr, Replied(WrongType))
      && Exec(m, arr, Cmd.RPopLPush(key, dst)) == Outcome(m, arr, Replied(WrongType))
  {
  }

  // ---- BLPOP and BRPOP --------------------------------------------------------------

  /** The first key that exists holds a list: BRPOP takes its last element and BLPOP its first.
      The key reported is the first one named, and so is the one that goes with the last
      element; any other list stays behind empty. */
  lemma BPopLaw(m: Keys, arr: seq<Item>, end: End, keys: seq<Bytes>, timeout: Bytes, i: nat, s: seq<Bytes>, x: Bytes)
    requires i < |keys| && keys[i] in m && (forall j :: 0 <= j < i ==> keys[j] !in m)
    requires m[keys[i]] == Lst(if end == Left then [x] + s else s + [x])
    ensures var out := Exec(m, arr, BPop(end, keys, timeout));
      && out.ret == Filled && out.arr == [KeyItem(keys[0]), PopItem(x)]
      && OthersKept(m, out.keys, keys[i])
      && (if i == 0 then Holds(out.keys, keys[0], s) else keys[i] in out.keys && out.keys[keys[i]] == Lst(s))
  {
    hide FirstPresent, Taken, Rest;
    FirstPresentIs(m, keys, i);
    EndOf(end, x, s);
  }

  lemma EndOf(end: End, x: Bytes, s: seq<Bytes>)
    ensures var all := if end == Left then [x] + s else s + [x]; Taken(end, all) == x && Rest(end, all) == s
  {
    assert ([x] + s)[1..] == s && (s + [x])[..|s|] == s;
  }

  /** With no key, or none that exists, or one of another type first, nothing is taken. */
  lemma BPopWaits(m: Keys, arr: seq<Item>, end: End, keys: seq<Bytes>, timeout: Bytes)
    ensures var out := Exec(m, arr, BPop(end, keys, timeout));
      && (out == Outcome(m, [], Blocked) <==> keys != [] && forall k <- keys :: k !in m)
      && (out.ret == Blocked <==> keys != [] && forall k <- keys :: k !in m)
      && (keys == [] ==> out == Outcome(m, arr, Replied(NumArgs)))
    ensures forall i ::
      0 <= i < |keys| && keys[i] in m && !m[keys[i]].Lst? && (forall j :: 0 <= j < i ==> keys[j] !in m) ==>
        Exec(m, arr, BPop(end, keys, timeout)) == Outcome(m, arr, Replied(WrongType))
  {
    var i := FirstPresent(m, keys);
    if i < |keys| { assert keys[i] in keys; }
    forall i | 0 <= i < |keys| && keys[i] in m && !m[keys[i]].Lst? && (forall j :: 0 <= j < i ==> keys[j] !in m)
      ensures FirstPresent(m, keys) == i
    {
      FirstPresentIs(m, keys, i);
    }
  }

  // ---- LREM -------------------------------------------------------------------------

  /** A positive count n takes away the first n matches, a negative one the last ones, and 0 all
      of them; the others keep their order. The reply is how many went. */
  lemma LRemLaw(m: Keys, arr: seq<Item>, key: Bytes, count: Bytes, n: int, v: Bytes, s: seq<Bytes>)
      returns (cut: nat)
    requires Parse(count) == Some(n) && key in m && m[key] == Lst(s)
    ensures cut <= |s|
    ensures var out := Exec(m, arr, Cmd.LRem(key, count, v));
      && out.arr == arr && OthersKept(m, out.keys, key)
      && (n > 0 ==>
            && Holds(out.keys, key, Without(s[..cut], v) + s[cut..]) && Count(s[..cut], v) == Min(n, Count(s, v))
            && out.ret == Replied(Int(Min(n, Count(s, v)))))
      && (n < 0 ==>
            && Holds(out.keys, key, s[..cut] + Without(s[cut..], v)) && Count(s[cut..], v) == Min(-n, Count(s, v))
            && out.ret == Replied(Int(Min(-n, Count(s, v)))))
      && (n == 0 ==> Holds(out.keys, key, Without(s, v)) && out.ret == Replied(Int(Count(s, v))))
  {
    hide LRemSpec, Without, Count, Parse;
    cut := LRemCut(s, n, v);
  }

  lemma LRemCut(s: seq<Bytes>, n: int, v: Bytes) returns (cut: nat)
    ensures cut <= |s|
    ensures var r := LRemSpec(s, n, v);
      && (n > 0 ==>
            && r == Without(s[..cut], v) + s[cut..] && Count(s[..cut], v) == Min(n, Count(s, v))
            && |s| - |r| == Min(n, Count(s, v)))
      && (n < 0 ==>
            && r == s[..cut] + Without(s[cut..], v) && Count(s[cut..], v) == Min(-n, Count(s, v))
            && |s| - |r| == Min(-n, Count(s, v)))
      && (n == 0 ==> r == Without(s, v) && |s| - |r| == Count(s, v))
  {
    hide Without, Count, RemoveFirst, RemoveLast;
    cut := LRemMeaning(s, n, v);
    if n > 0 { cut := RemoveFirstCut(s, v, n); }
    if n < 0 { cut := RemoveLastCut(s, v, -n); }
  }

  // ---- LRANGE and LTRIM ---------------------------------------------------------------

  /** LRANGE shows the stretch of elements that lie within its offsets, and LTRIM keeps just them.
      Of 256 elements or more LRANGE shows what is left after the last multiple of 256. */
  lemma RangeLaw(m: Keys, arr: seq<Item>, key: Bytes, first: Bytes, last: Bytes, a: int, b: int, s: seq<Bytes>)
      returns (lo: nat, n: nat)
    requires Parse(first) == Some(a) && Parse(last) == Some(b) && key in m && m[key] == Lst(s)
    ensures lo + n <= |s| && forall i: nat :: i < |s| ==> (lo <= i < lo + n <==> Within(i, |s|, a, b))
    ensures var show := Exec(m, arr, Cmd.LRange(key, first, last));
      && show.keys == m && |show.arr| == n % 256
      && (forall i :: 0 <= i < n % 256 ==> show.arr[i] == ValItem(s[lo + n / 256 * 256 + i]))
      && show.ret == Replied(if FitsReply(show.arr) then Arr(show.arr) else TooLong)
    ensures var trim := Exec(m, arr, Cmd.LTrim(key, first, last));
      && trim.arr == arr && trim.ret == Replied(Ok) && OthersKept(m, trim.keys, key)
      && Holds(trim.keys, key, s[lo..lo + n])
  {
    hide Parse, Range, AddAll, FitsReply, Within;
    lo := RangePlaces(s, a, b);
    n := |Range(s, a, b)|;
    Shown(Range(s, a, b));
  }

  /** What the reply array keeps of a range. */
  lemma Shown(r: seq<Bytes>)
    ensures var items := AddAll([], Vals(r));
      |items| == |r| % 256 && forall i :: 0 <= i < |items| ==> items[i] == ValItem(r[|r| / 256 * 256 + i])
  {
    AddAllKeeps([], Vals(r));
    assert [] + Vals(r) == Vals(r);
  }

  // ---- LINSERT and LSET -----------------------------------------------------------------

  /** The text is the word, in any mixture of capital and small letters. */
  predicate Spells(text: Bytes, small: Bytes, capital: Bytes)
    requires |small| == |capital|
  {
    |text| == |small| && forall i :: 0 <= i < |text| ==> text[i] == small[i] || text[i] == capital[i]
  }

  const SMALL_BEFORE: Bytes := [98, 101, 102, 111, 114, 101]
  const CAPITAL_BEFORE: Bytes := [66, 69, 70, 79, 82, 69]
  const SMALL_AFTER: Bytes := [97, 102, 116, 101, 114]
  const CAPITAL_AFTER: Bytes := [65, 70, 84, 69, 82]

  /** Exactly the texts that spell one of the words up to a zero byte are accepted. */
  lemma Words(place: Bytes)
    ensures var word := place[..ToZero(place)];
      Direction(place) == if Spells(word, SMALL_BEFORE, CAPITAL_BEFORE) then Some(false)
                          else if Spells(word, SMALL_AFTER, CAPITAL_AFTER) then Some(true) else None
  {
    var word := place[..ToZero(place)];
    WordIs(word, SMALL_BEFORE, CAPITAL_BEFORE);
    WordIs(word, SMALL_AFTER, CAPITAL_AFTER);
  }

  lemma WordIs(word: Bytes, small: Bytes, capital: Bytes)
    requires 0 !in word && |small| == |capital|
    requires forall i :: 0 <= i < |small| ==> 97 <= small[i] <= 122 && capital[i] == small[i] - 32
    ensures Spells(word, small, capital)
      <==> |word| == |small| && forall i :: 0 <= i < |word| ==> Lower(word[i]) == small[i]
  {
  }

  /** The new element stands right before the first pivot or right after it. */
  lemma LInsertLaw(m: Keys, arr: seq<Item>, key: Bytes, place: Bytes, pivot: Bytes, v: Bytes,
                   s: seq<Bytes>, t: seq<Bytes>)
    requires key in m && m[key] == Lst(s + [pivot] + t) && pivot !in s
    ensures var out := Exec(m, arr, Cmd.LInsert(key, place, pivot, v));
      var word := place[..ToZero(place)];
      && out.arr == arr && OthersKept(m, out.keys, key)
      && if Spells(word, SMALL_BEFORE, CAPITAL_BEFORE) then
           Holds(out.keys, key, s + [v] + [pivot] + t) && out.ret == Replied(Int(|s| + |t| + 2))
         else if Spells(word, SMALL_AFTER, CAPITAL_AFTER) then
           Holds(out.keys, key, s + [pivot] + [v] + t) && out.ret == Replied(Int(|s| + |t| + 2))
         else out.keys == m && out.ret == Replied(InvSyntax)
  {
    hide Spells, Direction, LInsertSpec;
    Words(place);
    Beside(s, pivot, t, v);
  }

  lemma Beside(s: seq<Bytes>, pivot: Bytes, t: seq<Bytes>, v: Bytes)
    requires pivot !in s
    ensures LInsertSpec(s + [pivot] + t, false, pivot, v) == s + [v] + [pivot] + t
    ensures LInsertSpec(s + [pivot] + t, true, pivot, v) == s + [pivot] + [v] + t
  {
    var all := s + [pivot] + t;
    assert all[..|s|] == s;
    FindIs(all, pivot, |s|);
    assert s + [v] + all[|s|..] == s + [v] + [pivot] + t;
    assert all[..|s| + 1] + [v] + all[|s| + 1..] == s + [pivot] + [v] + t;
  }

  /** Without the pivot nothing is inserted. */
  lemma LInsertRefused(m: Keys, arr: seq<Item>, key: Bytes, place: Bytes, pivot: Bytes, v: Bytes)
    requires Direction(place).Some?
    ensures var out := Exec(m, arr, Cmd.LInsert(key, place, pivot, v));
      && (key !in m ==> out == Outcome(m, arr, Replied(Int(0))))
      && (key in m && !m[key].Lst? ==> out == Outcome(m, arr, Replied(WrongType)))
      && (key in m && m[key].Lst? && pivot !in m[key].elems ==> out == Outcome(m, arr, Replied(Int(-1))))
  {
  }

  /** Index i is place i, and -d the d-th place from the end. */
  lemma LSetLaw(m: Keys, arr: seq<Item>, key: Bytes, index: Bytes, n: int, v: Bytes, s: seq<Bytes>)
    requires Parse(index) == Some(n) && key in m && m[key] == Lst(s)
    ensures var out := Exec(m, arr, Cmd.LSet(key, index, v));
      && out.arr == arr && OthersKept(m, out.keys, key)
      && (0 <= n < |s| ==>
            out.ret.Replied? && Sends(out.ret.reply, v) && Holds(out.keys, key, s[..n] + [v] + s[n + 1..]))
      && (0 < -n <= |s| ==>
            out.ret.Replied? && Sends(out.ret.reply, v) && Holds(out.keys, key, s[..|s| + n] + [v] + s[|s| + n + 1..]))
      && (n >= |s| || -n > |s| ==> out.keys == m && out.ret == Replied(Nil))
  {
    if 0 <= n < |s| { assert s[n := v] == s[..n] + [v] + s[n + 1..]; }
    if 0 < -n <= |s| { assert s[|s| + n := v] == s[..|s| + n] + [v] + s[|s| + n + 1..]; }
  }

  // ---- DEL, RENAME and SET -----------------------------------------------------------------

  /** The keys named go, all others stay, and the reply is how many different ones went. */
  lemma DelLaw(m: Keys, arr: seq<Item>, keys: seq<Bytes>)
    requires keys != []
    ensures Exec(m, arr, Del(keys)) ==
      Outcome(map k | k in m && k !in keys :: m[k], arr, Replied(Int(|set k | k in m && k in keys|)))
  {
    DelCounts(m, keys);
  }

  lemma {:induction false} DelCounts(m: Keys, keys: seq<Bytes>)
    ensures DoDel(m, keys) == (map k | k in m && k !in keys :: m[k], |set k | k in m && k in keys|)
    decreases |keys|
  {
    if keys == [] {
      assert (map k | k in m && k !in keys :: m[k]) == m;
      assert (set k | k in m && k in keys) == {};
    } else {
      var k0, rest := keys[0], keys[1..];
      DelCounts(m - {k0}, rest);
      DelFirst(m, k0, rest);
      assert keys == [k0] + rest;
    }
  }

  lemma DelFirst(m: Keys, k0: Bytes, rest: seq<Bytes>)
    ensures var m0, keys := m - {k0}, [k0] + rest;
      && (map k | k in m0 && k !in rest :: m0[k]) == (map k | k in m && k !in keys :: m[k])
      && |set k | k in m && k in keys| == |set k | k in m0 && k in rest| + if k0 in m then 1 else 0
  {
    var m0, keys := m - {k0}, [k0] + rest;
    var went := set k | k in m0 && k in rest;
    assert (set k | k in m && k in keys) == if k0 in m then went + {k0} else went;
  }

  /** What the old key held is under the new one, whatever that held; the old key is gone unless
      it is the new one. */
  lemma RenameLaw(m: Keys, arr: seq<Item>, key: Bytes, newKey: Bytes)
    requires key in m
    ensures var out := Exec(m, arr, Cmd.Rename(key, newKey));
      && out.arr == arr && out.ret == Replied(Ok)
      && newKey in out.keys && out.keys[newKey] == m[key]
      && (key != newKey ==> key !in out.keys)
      && forall k :: k != key && k != newKey ==> (k in out.keys <==> k in m) && (k in m ==> out.keys[k] == m[k])
  {
  }

  lemma SetLaw(m: Keys, arr: seq<Item>, key: Bytes, text: Bytes)
    ensures var out := Exec(m, arr, Cmd.Set(key, text));
      && out.arr == arr && out.ret == Replied(Ok) && OthersKept(m, out.keys, key)
      && key in out.keys && out.keys[key] == Str(text)
  {
  }

  // ---- the errors ------------------------------------------------------------------------

  /** Offsets, counts and indexes that are no numbers change nothing, whatever the key holds. */
  lemma NoNumber(m: Keys, arr: seq<Item>, key: Bytes, first: Bytes, last: Bytes, v: Bytes)
    requires Parse(first).None? || Parse(last).None?
    ensures var refused := Outcome(m, arr, Replied(InvInt));
      && Exec(m, arr, Cmd.LRange(key, first, last)) == Exec(m, arr, Cmd.LTrim(key, first, last)) == refused
      && (Parse(first).None? ==>
            Exec(m, arr, Cmd.LRem(key, first, v)) == Exec(m, arr, Cmd.LSet(key, first, v)) == refused)
  {
  }

  /** On an absent key or one of another type nothing changes. */
  lemma NoList(m: Keys, arr: seq<Item>, key: Bytes, first: Bytes, last: Bytes, v: Bytes)
    requires Parse(first).Some? && Parse(last).Some? && (key in m ==> !m[key].Lst?)
    ensures var reply := (r: Reply) => Outcome(m, arr, Replied(if key in m then WrongType else r));
      && Exec(m, arr, Cmd.LTrim(key, first, last)) == reply(Ok)
      && Exec(m, arr, Cmd.LRem(key, first, v)) == reply(Int(0))
      && Exec(m, arr, Cmd.LSet(key, first, v)) == reply(Nil)
      && Exec(m, arr, Cmd.LRange(key, first, last)) == reply(Arr([])).(arr := [])
  {
    assert FitsReply([]);
  }
}
