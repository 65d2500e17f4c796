/** process_request, addto_pending and do_hanging_jobs of server/server.c, with
    the pending list as a ring that the tick relinks while it walks it. */
module ServerLoop {
  import opened Bytes
  import opened Rings
  import opened Machine
  import opened Commands

  /** What the tick does about one action; None if it has to go on waiting. */
  method Attend(db: Db, a: Action, now: Micros) returns (done: Option<Reply>)
    requires db.Valid()
    modifies db, db.repr
    ensures db.Valid() && fresh(db.repr - old(db.repr))
    ensures (db.Abs(), db.arr, done) == Visit(old(db.Abs()), old(db.arr), a, now)
  {
    hide Exec, TickReply, BlockingReply;
    var interval := now - a.since;
    if 0 != a.timeout && interval - a.timeout * MICROS >= 0 {
      db.ResetArr();
      db.AddToArr(NilItem);
      assert db.arr == [NilItem];
      db.AddTime(interval);
      return Some(BlockingReply(Filled, db.arr));
    }
    var ret := db.Call(a.cmd);
    if ret == Blocked { return None; }
    var before := db.arr;
    db.AddTime(interval);
    done := Some(TickReply(ret, before, interval));
  }

  class Host {
    const db: Db
    const pending: Ring<Action>
    var readings: nat
    var issued: nat

    ghost predicate Valid()
      reads this, db, db.repr, pending, pending.repr
    {
      && db.Valid() && pending.Valid()
      && this !in db.repr && pending !in db.repr && db.repr !! pending.repr
    }

    ghost function Abs(): Server
      reads this, db, db.repr, pending, pending.repr
      requires Valid()
    {
      Server(db.Abs(), db.arr, pending.contents, readings, issued)
    }

    constructor (hash: Bytes -> nat)
      ensures Valid() && Abs() == Server(map[], [], [], 0, 0)
      ensures fresh(db) && fresh(db.repr) && fresh(pending) && fresh(pending.repr)
    {
      db := new Db(hash);
      pending := new Ring<Action>();
      readings, issued := 0, 0;
    }

    /** A new request: answered at once, or put on the pending list. */
    method Serve(client: nat, cmd: Cmd, clock: Clock) returns (sent: seq<Answer>)
      requires Valid()
      modifies this, db, db.repr, pending, pending.repr
      ensures Valid() && fresh(db.repr - old(db.repr)) && fresh(pending.repr - old(pending.repr))
      ensures (Abs(), sent) == Receive(old(Abs()), client, cmd, clock)
    {
      hide Exec, Seconds, BlockingReply;
      var id := issued;
      issued := issued + 1;
      if cmd.BPop? && Seconds(cmd.timeout).None? {
        return [Answer(id, client, cmd, TimeoutError(cmd.timeout))];
      }
      var ret := db.Call(cmd);
      assert Valid();
      if !cmd.BPop? {
        sent := [Answer(id, client, cmd, ret.reply)];
      } else if ret == Blocked {
        AddToPending(id, client, cmd, Seconds(cmd.timeout).value, clock);
        sent := [];
      } else {
        sent := [Answer(id, client, cmd, BlockingReply(ret, db.arr))];
      }
    }

    /** addto_pending: in front of all that wait already. */
    method AddToPending(id: nat, client: nat, cmd: Cmd, timeout: int, clock: Clock)
      requires Valid() && cmd.BPop?
      modifies this, pending, pending.repr
      ensures Valid() && fresh(pending.repr - old(pending.repr))
      ensures Abs() == old(Abs()).(
        pending := [Action(id, client, cmd, clock(old(readings)), timeout)] + old(pending.contents),
        readings := old(readings) + 1)
    {
      var entry := new Entry(Action(id, client, cmd, clock(readings), timeout));
      readings := readings + 1;
      pending.InsertFront(entry);
    }

    /** How far a tick has come: the entries before curr are kept, the rest is to do. */
    ghost predicate Reached(whole: Sweep, curr: Entry<Action>, k: nat, sent: seq<Answer>, clock: Clock)
      reads this, db, db.repr, pending, pending.repr
    {
      && Valid() && k <= pending.num
      && curr == (if k < pending.num then pending.nodes[k + 1] else pending.head)
      && Midway(whole, pending.contents[..k], sent, SweepFrom(db.Abs(), db.arr, pending.contents[k..], readings, clock))
    }

    /** Unlink an action that is done. */
    method TakeOff(curr: Entry<Action>, ghost k: nat)
      requires Valid() && k < pending.num && curr == pending.nodes[k + 1]
      modifies pending, pending.repr
      ensures Valid() && pending.repr <= old(pending.repr) && pending.num == old(pending.num) - 1
      ensures pending.nodes == old(pending.nodes)[..k + 1] + old(pending.nodes)[k + 2..]
      ensures pending.contents[..k] == old(pending.contents)[..k]
      ensures pending.contents[k..] == old(pending.contents)[k + 1..]
    {
      var gone := pending.RmNf(curr, k + 1);
    }

    /** The body of the loop of do_hanging_jobs. */
    method VisitEntry(curr: Entry<Action>, clock: Clock, sent: seq<Answer>, ghost k: nat, ghost whole: Sweep)
      returns (next: Entry<Action>, sent1: seq<Answer>, ghost k1: nat)
      requires Reached(whole, curr, k, sent, clock) && k < pending.num
      modifies this`readings, db, db.repr, pending, pending.repr
      ensures Reached(whole, next, k1, sent1, clock)
      ensures fresh(db.repr - old(db.repr)) && pending.repr <= old(pending.repr)
      ensures readings == old(readings) + 1 && pending.num - k1 == old(pending.num) - k - 1
    {
      hide Visit, SweepFrom;
      next, sent1, k1 := curr.next, sent, k;
      var a := curr.val;
      var now := clock(readings);
      SweepOne(whole, db.Abs(), db.arr, pending.contents, k, sent, readings, clock);
      readings := readings + 1;
      var done := Attend(db, a, now);
      assert Valid();
      if done.None? {
        k1 := k + 1;
      } else {
        TakeOff(curr, k);
        sent1 := sent + [Answer(a.id, a.client, a.cmd, done.value)];
      }
    }

    /** do_hanging_jobs */
    method DoHangingJobs(clock: Clock) returns (sent: seq<Answer>)
      requires Valid()
      modifies this, db, db.repr, pending, pending.repr
      ensures Valid() && fresh(db.repr - old(db.repr)) && pending.repr <= old(pending.repr)
      ensures (Abs(), sent) == DoTick(old(Abs()), clock)
    {
      hide Visit, SweepFrom;
      sent := [];
      ghost var sv := Abs();
      ghost var whole := SweepFrom(db.Abs(), db.arr, pending.contents, readings, clock);
      ghost var k: nat := 0;
      SweepEnds(db.Abs(), db.arr, pending.contents, 0, sent, whole, readings, clock);
      var curr := pending.head.next;
      while curr != pending.head
        invariant Reached(whole, curr, k, sent, clock)
        invariant fresh(db.repr - old(db.repr)) && pending.repr <= old(pending.repr)
        invariant issued == old(issued) && readings + pending.num - k == old(readings) + old(pending.num)
        decreases pending.num - k
      {
        curr, sent, k := VisitEntry(curr, clock, sent, k, whole);
      }
      SweepEnds(db.Abs(), db.arr, pending.contents, k, sent, whole, readings, clock);
      TickIs(sv, Abs(), sent, clock);
    }
  }
}
