/** The list commands of server/commands.c on the key dictionary: a chained table
    from keys to objects, the lists among them pointer rings of their own. Each
    method is proved to do what the matching function of Machine says. */
module Commands {
  import opened Bytes
  import opened Rings
  import opened Machine
  import opened ReplyArrays
  import Buckets
  import Decimals
  import Dicts
  import ListSpec
  import ListLoops

  datatype Obj = StrObj(text: Bytes) | ListObj(list: Ring<Bytes>) | CollObj

  /** The key dictionary holds objects only, never the marker of a set. */
  ghost function AllHeld(objs: map<Bytes, Obj>): map<Bytes, Buckets.Slot<Obj>> {
    map k | k in objs :: Buckets.Held(objs[k])
  }

  const INIT_DICT_SIZE := 16

  class Db {
    const keyDict: Dicts.Dict<Obj>
    ghost var objs: map<Bytes, Obj>   // what the chains of keyDict hold
    var arr: seq<Item>                // the reply array
    ghost var repr: set<object>

    ghost predicate Valid()
      reads `objs, `repr, repr
    {
      DictOk() && Lists(objs)
    }

    ghost predicate DictOk()
      reads `objs, `repr, repr
    {
      && this !in repr && keyDict in repr && keyDict.repr <= repr
      && keyDict.Valid() && keyDict.M == AllHeld(objs)
    }

    /** The lists are well formed and no two of them share an entry. */
    ghost predicate Lists(o: map<Bytes, Obj>)
      reads `objs, `repr, repr
    {
      && (forall k {:trigger o[k]} :: k in o && o[k].ListObj? ==> Owns(o[k].list))
      && (forall j, k {:trigger o[j], o[k]} ::
            (j in o && k in o && j != k && o[j].ListObj? && o[k].ListObj?) ==> o[j].list.Apart(o[k].list))
    }

    ghost predicate Owns(list: Ring<Bytes>)
      reads `objs, `repr, repr
    {
      && list in repr && list.repr <= repr && list.Valid()
      && keyDict in repr && list !in keyDict.repr && list.repr !! keyDict.repr
    }

    ghost function Abs(): Keys
      reads `objs, `repr, repr
      requires Valid()
    {
      AbsOf(objs)
    }

    ghost function AbsOf(o: map<Bytes, Obj>): Keys
      reads `objs, `repr, repr
      requires Lists(o)
    {
      map k | k in o :: AbsObj(o[k])
    }

    ghost function AbsObj(o: Obj): Val
      reads if o.ListObj? then {o.list} else {}
    {
      match o
      case StrObj(text) => Str(text)
      case ListObj(list) => Lst(list.contents)
      case CollObj => Coll
    }

    /** No list of the dictionary, nor the table, holds the entry. */
    ghost predicate Loose(entry: Entry<Bytes>)
      reads `objs, `repr, repr
      requires Valid()
    {
      && entry !in keyDict.repr
      && forall k {:trigger objs[k]} :: k in objs && objs[k].ListObj? ==> entry !in objs[k].list.repr
    }

    constructor (hash: Bytes -> nat)
      ensures Valid() && fresh(repr) && Abs() == map[] && arr == []
    {
      var d := new Dicts.Dict<Obj>(INIT_DICT_SIZE, hash);
      keyDict := d;
      objs := map[];
      arr := [];
      repr := d.repr;
    }

    // ---- the table ----------------------------------------------------------------

    /** Nothing happened but to the table. */
    twostate predicate TableOnly()
      reads `objs, `repr, repr
    {
      && old(Valid()) && DictOk() && old(repr) <= repr && fresh(keyDict.repr - old(keyDict.repr))
      && forall o | o in old(repr) && o !in old(keyDict.repr) :: unchanged(o)
    }

    twostate lemma ListsKept()
      requires TableOnly()
      ensures Lists(old(objs)) && AbsOf(old(objs)) == old(Abs())
    {
      var o := old(objs);
      forall k | k in o && o[k].ListObj? ensures Owns(o[k].list) && unchanged(o[k].list) {
        assert old(Owns(o[k].list));
        assert unchanged(o[k].list);
        assert forall e <- o[k].list.repr :: unchanged(e);
      }
      forall j, k | j in o && k in o && j != k && o[j].ListObj? && o[k].ListObj?
        ensures o[j].list.Apart(o[k].list)
      {
        assert old(o[j].list.Apart(o[k].list));
      }
    }

    /** dict_look_up on the key dictionary. */
    method Find(key: Bytes) returns (o: Option<Obj>)
      requires DictOk()
      ensures o == if key in objs then Some(objs[key]) else None
    {
      var slot := keyDict.LookUp(key);
      o := if slot.None? then None else Some(slot.value.obj);
    }

    /** dict_add on the key dictionary. */
    method Put(key: Bytes, o: Obj)
      requires DictOk()
      modifies `objs, `repr, keyDict.repr
      ensures DictOk() && objs == old(objs)[key := o]
      ensures repr == old(repr) + keyDict.repr && fresh(keyDict.repr - old(keyDict.repr))
    {
      keyDict.Add(key, Buckets.Held(o));
      objs := objs[key := o];
      repr := repr + keyDict.repr;
    }

    /** dict_rm on the key dictionary. */
    method RemoveKey(key: Bytes) returns (found: bool)
      requires Valid()
      modifies `objs, keyDict.repr
      ensures Valid() && keyDict.repr == old(keyDict.repr) && found == (key in old(objs))
      ensures objs == old(objs) - {key} && Abs() == old(Abs()) - {key}
    {
      var gone, p := keyDict.RmNf(key);
      found := gone != null;
      objs := objs - {key};
      ListsKept();
    }

    /** dict_rename on the key dictionary. */
    method MoveKey(key: Bytes, newKey: Bytes) returns (found: bool)
      requires Valid()
      modifies `objs, keyDict.repr
      ensures Valid() && found == (key in old(objs))
      ensures objs == if found then (old(objs) - {key})[newKey := old(objs)[key]] else old(objs)
      ensures Abs() == if found then (old(Abs()) - {key})[newKey := old(Abs())[key]] else old(Abs())
    {
      found := keyDict.Rename(key, newKey);
      if found { objs := (objs - {key})[newKey := objs[key]]; }
      ListsKept();
    }

    /** A string under a key, whatever it held before. */
    method PutText(key: Bytes, text: Bytes)
      requires Valid()
      modifies `objs, `repr, keyDict.repr
      ensures Valid() && fresh(repr - old(repr)) && Abs() == old(Abs())[key := Str(text)]
    {
      Put(key, StrObj(text));
      ListsKept();
    }

    /** One more list, apart from all others. */
    lemma ListJoins(o: map<Bytes, Obj>, key: Bytes, list: Ring<Bytes>)
      requires Lists(o) && Owns(list)
      requires forall k :: k in o && k != key && o[k].ListObj? ==> list.Apart(o[k].list)
      ensures Lists(o[key := ListObj(list)])
      ensures AbsOf(o[key := ListObj(list)]) == AbsOf(o)[key := Lst(list.contents)]
    {
    }

    /** A new empty list under a new key. */
    method NewList(key: Bytes) returns (list: Ring<Bytes>)
      requires Valid() && key !in objs
      modifies `objs, `repr, keyDict.repr
      ensures Valid() && fresh(repr - old(repr)) && old(repr) <= repr && fresh(keyDict.repr - old(keyDict.repr))
      ensures objs == old(objs)[key := ListObj(list)] && fresh(list) && fresh(list.repr)
      ensures Owns(list) && list.contents == [] && Abs() == old(Abs())[key := Lst([])]
    {
      list := new Ring<Bytes>();
      Put(key, ListObj(list));
      repr := repr + {list} + list.repr;
      ListsKept();
      ListJoins(old(objs), key, list);
    }

    // ---- one list -----------------------------------------------------------------

    /** Nothing happened but to the table and to the list of one key, in place or by a new
        list taking over, with the added entries joining it. */
    twostate predicate TouchedOnly(key: Bytes, new added: set<Entry<Bytes>>)
      reads `objs, `repr, repr
    {
      && old(Valid()) && old(repr) <= repr && DictOk() && fresh(keyDict.repr - old(keyDict.repr))
      && key in old(objs) && old(objs[key].ListObj?)
      && key in objs && objs[key].ListObj? && objs == old(objs)[key := objs[key]]
      && Owns(objs[key].list)
      && objs[key].list.repr <= old(objs[key].list.repr) + added
      && (objs[key].list == old(objs[key].list) || fresh(objs[key].list))
      && forall o | o in old(repr) && o !in old(keyDict.repr)
           && o != old(objs[key].list) && o !in old(objs[key].list.repr) && o !in added ::
           unchanged(o)
    }

    twostate lemma OthersKept(key: Bytes, new added: set<Entry<Bytes>>)
      requires TouchedOnly(key, added)
      requires forall k :: k in objs && k != key && objs[k].ListObj? ==> added !! old(objs[k].list.repr)
      ensures forall k {:trigger objs[k]} :: k in objs && k != key && objs[k].ListObj? ==>
        Owns(objs[k].list) && objs[key].list.Apart(objs[k].list) && unchanged(objs[k].list)
    {
      forall k | k in objs && k != key && objs[k].ListObj?
        ensures Owns(objs[k].list) && objs[key].list.Apart(objs[k].list) && unchanged(objs[k].list)
      {
        var other := objs[k].list;
        assert old(Owns(other)) && old(objs[key].list.Apart(other));
        assert unchanged(other);
        assert forall o <- other.repr :: unchanged(o);
      }
    }

    lemma OneChanged(m: Keys, m1: Keys, key: Bytes, v: Val)
      requires m1 == (m - {key})[key := v]
      ensures m1 == m[key := v] && m1 - {key} == m - {key}
    {
    }

    twostate lemma RestKept(key: Bytes, new added: set<Entry<Bytes>>)
      requires TouchedOnly(key, added)
      requires forall k :: k in objs && k != key && objs[k].ListObj? ==> added !! old(objs[k].list.repr)
      ensures Lists(objs - {key}) && AbsOf(objs - {key}) == old(Abs()) - {key}
    {
      OthersKept(key, added);
      var o := objs - {key};
      forall j, k | j in o && k in o && j != k && o[j].ListObj? && o[k].ListObj?
        ensures o[j].list.Apart(o[k].list)
      {
        assert old(objs[j].list.Apart(objs[k].list));
      }
    }

    /** Working on one list or replacing it changes the value of its key and no
        other. */
    twostate lemma OnlyOneList(key: Bytes, new added: set<Entry<Bytes>>)
      requires TouchedOnly(key, added)
      requires forall k :: k in objs && k != key && objs[k].ListObj? ==> added !! old(objs[k].list.repr)
      ensures Valid() && Abs() == old(Abs())[key := Lst(objs[key].list.contents)]
      ensures Abs() - {key} == old(Abs()) - {key}
    {
      RestKept(key, added);
      OthersKept(key, added);
      ListJoins(objs - {key}, key, objs[key].list);
      assert (objs - {key})[key := objs[key]] == objs;
      OneChanged(old(Abs()), Abs(), key, Lst(objs[key].list.contents));
    }

    /** reset_reply_arr */
    method ResetArr()
      requires Valid()
      modifies `arr
      ensures Valid() && Abs() == old(Abs()) && arr == []
    {
      arr := [];
    }

    /** addto_reply_arr */
    method AddToArr(x: Item)
      requires Valid()
      modifies `arr
      ensures Valid() && Abs() == old(Abs()) && arr == AddTo(old(arr), x)
    {
      arr := AddTo(arr, x);
    }

    /** bss_set on the text of the elapsed time, which items of the array may show already, and
        addto_reply_arr. */
    method AddTime(us: int)
      requires Valid()
      modifies `arr
      ensures Valid() && Abs() == old(Abs()) && arr == Timed(old(arr), us)
    {
      arr := Retimed(arr, us);
      AddToArr(Elapsed(us));
    }

    /** Take an entry off one end of the list of a key, leaving the key in place. */
    method Take(end: End, ghost key: Bytes, list: Ring<Bytes>) returns (entry: Entry?<Bytes>)
      requires Valid() && key in objs && objs[key] == ListObj(list)
      modifies list, list.repr
      ensures Valid() && Owns(list)
      ensures var s := old(list.contents);
        if s == [] then entry == null && Abs() == old(Abs()) && list.contents == []
        else
          entry != null && entry in repr && Loose(entry) && entry.val == Taken(end, s) &&
          list.contents == Rest(end, s) && Abs() == old(Abs())[key := Lst(Rest(end, s))]
      ensures Abs() - {key} == old(Abs()) - {key}
    {
      assert Owns(list);
      if end == Left {
        entry := list.PopFront();
      } else {
        entry := list.PopBack();
      }
      OnlyOneList(key, {});
    }

    /** If the list of a key is empty, end its life. */
    method EndIfEmpty(key: Bytes, list: Ring<Bytes>)
      requires Valid() && key in objs && objs[key] == ListObj(list)
      modifies `objs, keyDict.repr
      ensures Valid() && keyDict.repr == old(keyDict.repr)
      ensures Abs() == if list.contents == [] then old(Abs()) - {key} else old(Abs())
      ensures objs == if list.contents == [] then old(objs) - {key} else old(objs)
    {
      assert Owns(list);
      if list.num == 0 {
        var found := RemoveKey(key);
        assert unchanged(list);
      }
    }

    /** Take an entry, and end the key's life with its last one. */
    method TakeOut(end: End, key: Bytes, list: Ring<Bytes>) returns (entry: Entry?<Bytes>)
      requires Valid() && key in objs && objs[key] == ListObj(list)
      modifies `objs, keyDict.repr, list, list.repr
      ensures Valid()
      ensures var s := old(list.contents);
        if s == [] then entry == null && Abs() == old(Abs()) - {key}
        else
          entry != null && entry in repr && Loose(entry) && entry.val == Taken(end, s) &&
          Abs() == Store(old(Abs()), key, Rest(end, s))
    {
      entry := Take(end, key, list);
      EndIfEmpty(key, list);
    }

    method LPopRPop(end: End, key: Bytes) returns (reply: Reply)
      requires Valid()
      modifies this, repr
      ensures Valid() && repr == old(repr) && arr == old(arr)
      ensures (Abs(), reply) == DoPop(old(Abs()), end, key)
    {
      var o := Find(key);
      if o == None { return Nil; }
      if !o.value.ListObj? { return WrongType; }
      assert Owns(o.value.list);
      var entry := TakeOut(end, key, o.value.list);
      if entry == null { return Crash; }
      reply := TextReply(entry.val);
    }

    /** Push values on the list of an existing key. */
    method PushOn(end: End, ghost key: Bytes, list: Ring<Bytes>, vals: seq<Bytes>) returns (n: nat)
      requires Valid() && key in objs && objs[key] == ListObj(list)
      modifies this`repr, list, list.repr
      ensures Valid() && fresh(repr - old(repr)) && objs == old(objs)
      ensures var s := ListSpec.Pushed(end == Left, old(list.contents), vals);
        n == |s| && Abs() == old(Abs())[key := Lst(s)]
    {
      assert Owns(list);
      ListLoops.PushAll(list, end == Left, vals);
      repr := repr + list.repr;
      OnlyOneList(key, list.repr - old(list.repr));
      n := list.num;
    }

    /** The list of a key, which is created if it is not there; null if the key holds
        something else. */
    method ListAt(key: Bytes) returns (list: Ring?<Bytes>)
      requires Valid()
      modifies `objs, `repr, keyDict.repr
      ensures Valid() && fresh(repr - old(repr)) && old(repr) <= repr
      ensures list == null <==> key in old(Abs()) && !old(Abs())[key].Lst?
      ensures list == null ==> Abs() == old(Abs())
      ensures list != null ==>
        && Owns(list) && key in objs && objs[key] == ListObj(list)
        && list.contents == (if key in old(Abs()) then old(Abs())[key].elems else [])
        && Abs() == old(Abs())[key := Lst(list.contents)]
      ensures forall e: Entry<Bytes> | old(allocated(e)) && old(Loose(e)) :: Loose(e)
    {
      var o := Find(key);
      if o == None {
        list := NewList(key);
      } else if !o.value.ListObj? {
        list := null;
      } else {
        list := o.value.list;
        assert Owns(list);
      }
    }

    lemma PutTwice(m: Keys, key: Bytes, v: Val, w: Val)
      ensures m[key := v][key := w] == m[key := w]
    {
    }

    method LPushRPush(end: End, key: Bytes, vals: seq<Bytes>) returns (reply: Reply)
      requires Valid()
      modifies this, repr
      ensures Valid() && fresh(repr - old(repr)) && arr == old(arr)
      ensures (Abs(), reply) == DoPush(old(Abs()), end, key, vals)
    {
      if |vals| < 1 { return NumArgs; }
      var list := ListAt(key);
      if list == null { return WrongType; }
      ghost var before := Abs()[key];
      var n := PushOn(end, key, list, vals);
      PutTwice(old(Abs()), key, before, Abs()[key]);
      reply := Int(n);
    }

    /** Put a loose entry at the front of the list of a key, which is created if
        it is not there; false if the key holds something else. */
    method PutFront(key: Bytes, entry: Entry<Bytes>) returns (ok: bool)
      requires Valid() && entry in repr && Loose(entry)
      modifies this, repr
      ensures Valid() && fresh(repr - old(repr)) && arr == old(arr)
      ensures ok == (key in old(Abs()) ==> old(Abs())[key].Lst?)
      ensures entry.val == old(entry.val)
      ensures Abs() == if !ok then old(Abs())
                       else old(Abs())[key := Lst(
                         [entry.val] + if key in old(Abs()) then old(Abs())[key].elems else [])]
    {
      var list := ListAt(key);
      ok := list != null;
      if ok {
        ghost var before := Abs()[key];
        FrontOf(key, list, entry);
        PutTwice(old(Abs()), key, before, Abs()[key]);
      }
    }

    method FrontOf(ghost key: Bytes, list: Ring<Bytes>, entry: Entry<Bytes>)
      requires Valid() && key in objs && objs[key] == ListObj(list) && entry in repr && Loose(entry)
      modifies list, list.repr, entry
      ensures Valid() && entry.val == old(entry.val)
      ensures Abs() == old(Abs())[key := Lst([entry.val] + old(list.contents))]
    {
      assert Owns(list);
      list.InsertFront(entry);
      OnlyOneList(key, {entry});
    }

    method RPopLPush(src: Bytes, dst: Bytes) returns (reply: Reply)
      requires Valid()
      modifies this, repr
      ensures Valid() && fresh(repr - old(repr)) && arr == old(arr)
      ensures (Abs(), reply) == DoRPopLPush(old(Abs()), src, dst)
    {
      var o := Find(src);
      if o == None { return Nil; }
      if !o.value.ListObj? { return WrongType; }
      assert Owns(o.value.list);
      var entry := TakeOut(Right, src, o.value.list);
      if entry == null { return Crash; }
      var ok := PutFront(dst, entry);
      assert [entry.val] + [] == [entry.val];
      reply := if ok then TextReply(entry.val) else WrongType;
    }

    /** The search of blpop and brpop. */
    method LookAround(keys: seq<Bytes>) returns (i: nat, o: Option<Obj>)
      requires Valid()
      ensures i == FirstPresent(Abs(), keys)
      ensures o == if i < |keys| then Some(objs[keys[i]]) else None
    {
      i, o := 0, None;
      while i < |keys|
        invariant i <= |keys| && o == None && forall j :: 0 <= j < i ==> keys[j] !in objs
      {
        o := Find(keys[i]);
        if o != None { break; }
        i := i + 1;
      }
      FirstPresentIs(Abs(), keys, i);
    }

    method BLPopBRPop(end: End, keys: seq<Bytes>) returns (ret: Ret)
      requires Valid()
      modifies this, repr
      ensures Valid() && repr == old(repr)
      ensures Outcome(Abs(), arr, ret) == DoBPop(old(Abs()), old(arr), end, keys)
    {
      if |keys| < 1 { return Replied(NumArgs); }
      var i, o := LookAround(keys);
      if o == None {
        ResetArr();
        return Blocked;
      }
      if !o.value.ListObj? { return Replied(WrongType); }
      ret := PopFound(end, keys, i, o.value.list);
    }

    method PopFound(end: End, keys: seq<Bytes>, ghost i: nat, list: Ring<Bytes>) returns (ret: Ret)
      requires Valid()
      requires i < |keys| && i == FirstPresent(Abs(), keys) && objs[keys[i]] == ListObj(list)
      modifies this, repr
      ensures Valid() && repr == old(repr)
      ensures Outcome(Abs(), arr, ret) == DoBPop(old(Abs()), old(arr), end, keys)
    {
      assert Owns(list);
      var entry := TakeFound(end, keys[i], list, keys[0]);
      ResetArr();
      if entry == null { return Replied(Crash); }
      AddToArr(KeyItem(keys[0]));
      AddToArr(PopItem(entry.val));
      ret := Filled;
    }

    /** Take an entry off the list of one key; if that was the last one, another key,
        the first one named, is removed. */
    method TakeFound(end: End, ghost key: Bytes, list: Ring<Bytes>, firstKey: Bytes) returns (entry: Entry?<Bytes>)
      requires Valid() && key in objs && objs[key] == ListObj(list)
      modifies `objs, keyDict.repr, list, list.repr
      ensures Valid()
      ensures var m, s := old(Abs()), old(list.contents);
        if s == [] then entry == null && Abs() == m - {firstKey}
        else
          var m1 := m[key := Lst(Rest(end, s))];
          entry != null && entry.val == Taken(end, s) && Abs() == if Rest(end, s) == [] then m1 - {firstKey} else m1
    {
      entry := Take(end, key, list);
      if list.num == 0 {
        var found := RemoveKey(firstKey);
      }
    }

    method LRem(key: Bytes, count: Bytes, val: Bytes) returns (reply: Reply)
      requires Valid()
      modifies this, repr
      ensures Valid() && repr == old(repr) && arr == old(arr)
      ensures Outcome(Abs(), arr, Replied(reply)) == Exec(old(Abs()), old(arr), Cmd.LRem(key, count, val))
    {
      var target := Decimals.Parse(count);
      if target == None { return InvInt; }
      var o := Find(key);
      if o == None { return Int(0); }
      if !o.value.ListObj? { return WrongType; }
      assert Owns(o.value.list);
      var removed := RemoveFrom(key, o.value.list, target.value, val);
      reply := Int(removed);
    }

    method RemoveFrom(key: Bytes, list: Ring<Bytes>, target: int, val: Bytes) returns (removed: nat)
      requires Valid() && key in objs && objs[key] == ListObj(list)
      modifies `objs, keyDict.repr, list, list.repr
      ensures Valid() && (Abs(), Int(removed)) == DoLRem(old(Abs()), key, target, val)
    {
      assert Owns(list);
      removed := ListLoops.LRem(list, target, val);
      OnlyOneList(key, {});
      EndIfEmpty(key, list);
    }

    method LTrim(key: Bytes, first: Bytes, last: Bytes) returns (reply: Reply)
      requires Valid()
      modifies this, repr
      ensures Valid() && fresh(repr - old(repr)) && arr == old(arr)
      ensures Outcome(Abs(), arr, Replied(reply)) == Exec(old(Abs()), old(arr), Cmd.LTrim(key, first, last))
    {
      var offset1, offset2 := Decimals.Parse(first), Decimals.Parse(last);
      if offset1 == None || offset2 == None { return InvInt; }
      reply := Ok;
      var o := Find(key);
      if o == None { return; }
      if !o.value.ListObj? { return WrongType; }
      TrimList(key, o.value.list, offset1.value, offset2.value);
    }

    method TrimList(key: Bytes, list: Ring<Bytes>, first: int, last: int)
      requires Valid() && key in objs && objs[key] == ListObj(list)
      modifies this, repr
      ensures Valid() && fresh(repr - old(repr)) && arr == old(arr)
      ensures Abs() == DoLTrim(old(Abs()), key, first, last).0
    {
      assert Owns(list);
      var kept := ListLoops.LTrim(list, first, last);
      match kept {
        case None =>
          OnlyOneList(key, {});
          var found := RemoveKey(key);
        case Some(newList) =>
          Put(key, ListObj(newList));
          repr := repr + {newList} + newList.repr;
          OnlyOneList(key, newList.repr - old(list.repr));
      }
    }

    method FillArr(shown: seq<Bytes>)
      requires Valid()
      modifies `arr
      ensures Valid() && Abs() == old(Abs()) && arr == AddAll(old(arr), Vals(shown))
    {
      for i := 0 to |shown|
        invariant Valid() && Abs() == old(Abs())
        invariant AddAll(arr, Vals(shown[i..])) == AddAll(old(arr), Vals(shown))
      {
        assert Vals(shown[i..])[1..] == Vals(shown[i + 1..]);
        AddToArr(ValItem(shown[i]));
      }
    }

    method LRange(key: Bytes, first: Bytes, last: Bytes) returns (reply: Reply)
      requires Valid()
      modifies `arr
      ensures Valid() && Abs() == old(Abs())
      ensures Outcome(Abs(), arr, Replied(reply)) == Exec(old(Abs()), old(arr), Cmd.LRange(key, first, last))
    {
      var offset1, offset2 := Decimals.Parse(first), Decimals.Parse(last);
      if offset1 == None || offset2 == None { return InvInt; }
      ResetArr();
      var o := Find(key);
      if o == None { return ArrReply([]); }
      if !o.value.ListObj? { return WrongType; }
      ShowRange(key, o.value.list, offset1.value, offset2.value);
      reply := ArrReply(arr);
    }

    method ShowRange(ghost key: Bytes, list: Ring<Bytes>, first: int, last: int)
      requires Valid() && key in objs && objs[key] == ListObj(list) && arr == []
      modifies `arr
      ensures Valid() && Abs() == old(Abs()) && (arr, ArrReply(arr)) == DoLRange(Abs(), key, first, last)
    {
      assert Owns(list);
      var shown := ListLoops.LRange(list, first, last);
      FillArr(shown);
    }

    method LInsert(key: Bytes, place: Bytes, pivot: Bytes, val: Bytes) returns (reply: Reply)
      requires Valid()
      modifies this, repr
      ensures Valid() && fresh(repr - old(repr)) && arr == old(arr)
      ensures Outcome(Abs(), arr, Replied(reply)) == Exec(old(Abs()), old(arr), Cmd.LInsert(key, place, pivot, val))
    {
      var after: bool;
      if SameWord(place, BEFORE) {
        after := false;
      } else if SameWord(place, AFTER) {
        after := true;
      } else {
        return InvSyntax;
      }
      var o := Find(key);
      if o == None { return Int(0); }
      if !o.value.ListObj? { return WrongType; }
      assert Owns(o.value.list);
      var n := InsertIn(key, o.value.list, after, pivot, val);
      reply := Int(n);
    }

    method InsertIn(ghost key: Bytes, list: Ring<Bytes>, after: bool, pivot: Bytes, val: Bytes) returns (n: int)
      requires Valid() && key in objs && objs[key] == ListObj(list)
      modifies `repr, list, list.repr
      ensures Valid() && fresh(repr - old(repr)) && (Abs(), Int(n)) == DoLInsert(old(Abs()), key, after, pivot, val)
    {
      assert Owns(list);
      var found := ListLoops.LInsert(list, after, pivot, val);
      repr := repr + list.repr;
      OnlyOneList(key, list.repr - old(list.repr));
      n := if found then list.num else -1;
      assert !found ==> Abs() == old(Abs());
    }

    method LSet(key: Bytes, index: Bytes, val: Bytes) returns (reply: Reply)
      requires Valid()
      modifies this, repr
      ensures Valid() && repr == old(repr) && arr == old(arr)
      ensures Outcome(Abs(), arr, Replied(reply)) == Exec(old(Abs()), old(arr), Cmd.LSet(key, index, val))
    {
      var n := Decimals.Parse(index);
      if n == None { return InvInt; }
      var o := Find(key);
      if o == None { return Nil; }
      if !o.value.ListObj? { return WrongType; }
      assert Owns(o.value.list);
      var done := SetIn(key, o.value.list, n.value, val);
      reply := if done then TextReply(val) else Nil;
    }

    method SetIn(ghost key: Bytes, list: Ring<Bytes>, index: int, val: Bytes) returns (done: bool)
      requires Valid() && key in objs && objs[key] == ListObj(list)
      modifies list, list.repr
      ensures Valid() && (Abs(), if done then TextReply(val) else Nil) == DoLSet(old(Abs()), key, index, val)
    {
      assert Owns(list);
      var i := if index < 0 then index + list.num else index;
      if i >= list.num || i < 0 { return false; }
      ListLoops.LSet(list, i, val);
      OnlyOneList(key, {});
      done := true;
    }

    method Del(keys: seq<Bytes>) returns (reply: Reply)
      requires Valid()
      modifies `objs, keyDict.repr
      ensures Valid()
      ensures Outcome(Abs(), arr, Replied(reply)) == Exec(old(Abs()), arr, Cmd.Del(keys))
    {
      if |keys| < 1 { return NumArgs; }
      var count := 0;
      for i := 0 to |keys|
        invariant Valid() && keyDict.repr == old(keyDict.repr)
        invariant DoDel(old(Abs()), keys).0 == DoDel(Abs(), keys[i..]).0
        invariant DoDel(old(Abs()), keys).1 == count + DoDel(Abs(), keys[i..]).1
      {
        var found := RemoveKey(keys[i]);
        assert keys[i..][1..] == keys[i + 1..];
        if found { count := count + 1; }
      }
      reply := Int(count);
    }

    method Rename(key: Bytes, newKey: Bytes) returns (reply: Reply)
      requires Valid()
      modifies `objs, keyDict.repr
      ensures Valid()
      ensures (Abs(), reply) == DoRename(old(Abs()), key, newKey)
    {
      var found := MoveKey(key, newKey);
      reply := if found then Ok else NoKey;
    }

    method Set(key: Bytes, text: Bytes) returns (reply: Reply)
      requires Valid()
      modifies `objs, `repr, keyDict.repr
      ensures Valid() && fresh(repr - old(repr))
      ensures Outcome(Abs(), arr, Replied(reply)) == Exec(old(Abs()), arr, Cmd.Set(key, text))
    {
      PutText(key, text);
      reply := Ok;
    }

    /** The call through the command table. */
    method Call(cmd: Cmd) returns (ret: Ret)
      requires Valid()
      modifies this, repr
      ensures Valid() && fresh(repr - old(repr))
      ensures Outcome(Abs(), arr, ret) == Exec(old(Abs()), old(arr), cmd)
    {
      var r: Reply;
      match cmd {
        case Push(end, key, vals) => r := LPushRPush(end, key, vals);
        case Pop(end, key) => r := LPopRPop(end, key);
        case RPopLPush(src, dst) => r := RPopLPush(src, dst);
        case BPop(end, keys, _) => ret := BLPopBRPop(end, keys); return;
        case LRem(key, count, val) => r := LRem(key, count, val);
        case LTrim(key, first, last) => r := LTrim(key, first, last);
        case LRange(key, first, last) => r := LRange(key, first, last);
        case LInsert(key, place, pivot, val) => r := LInsert(key, place, pivot, val);
        case LSet(key, index, val) => r := LSet(key, index, val);
        case Del(keys) => r := Del(keys);
        case Rename(key, newKey) => r := Rename(key, newKey);
        case Set(key, text) => r := Set(key, text);
      }
      ret := Replied(r);
    }
  }
}
