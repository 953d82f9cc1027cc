/** The timer queue of the select loop: comlib/sloop.c.  A timer is known by its slot in the pool;
    the two lists are sequences of slots. */
module Sloop {
  import opened Lists

  const MAX_TIMEOUT: nat := 128
  const MILLION := 1_000_000

  datatype Timer = Timer(sec: int, usec: int)

  /** timercmp(a, b, <). */
  predicate Earlier(a: Timer, b: Timer)
  {
    if a.sec == b.sec then a.usec < b.usec else a.sec < b.sec
  }

  function Micros(t: Timer): int
  {
    MILLION * t.sec + t.usec
  }

  predicate Normal(t: Timer)
  {
    0 <= t.usec < MILLION
  }

  /** On normalised times the comparison is that of the instants. */
  lemma EarlierIsLess(a: Timer, b: Timer)
    requires Normal(a) && Normal(b)
    ensures Earlier(a, b) <==> Micros(a) < Micros(b)
  {
  }

  // ---------- the queue ----------

  /** Every slot is free or queued, and only one of the two. */
  ghost predicate Complete(free: seq<nat>, queue: seq<nat>)
  {
    && NoDup(free) && NoDup(queue) && (forall x | x in free :: x !in queue)
    && (forall x: nat :: x in free || x in queue <==> x < MAX_TIMEOUT)
    && |free| + |queue| == MAX_TIMEOUT
  }

  /** Earlier deadlines first; equal deadlines in the order of registration. */
  ghost predicate Ordered(queue: seq<nat>, slots: seq<Timer>, stamps: seq<nat>)
  {
    && |slots| == |stamps| == MAX_TIMEOUT && (forall i | 0 <= i < |queue| :: queue[i] < MAX_TIMEOUT && Normal(slots[queue[i]]))
    && forall i, j | 0 <= i < j < |queue| ::
         || Earlier(slots[queue[i]], slots[queue[j]])
         || (slots[queue[i]] == slots[queue[j]] && stamps[queue[i]] < stamps[queue[j]])
  }

  lemma Listed(free: seq<nat>, queue: seq<nat>, slots: seq<Timer>, stamps: seq<nat>, h: nat)
    requires Complete(free, queue) && Ordered(queue, slots, stamps) && h < MAX_TIMEOUT
    ensures (h in free <==> h !in queue) && h !in Remove(queue, h) && |slots| == |stamps| == MAX_TIMEOUT
    ensures forall i | 0 <= i < |queue| :: queue[i] < MAX_TIMEOUT
  {
    RemoveNoDup(queue, h);
  }

  lemma InRange(queue: seq<nat>, slots: seq<Timer>, stamps: seq<nat>)
    requires Ordered(queue, slots, stamps)
    ensures |slots| == |stamps| == MAX_TIMEOUT && Slots(queue, stamps) && forall x | x in queue :: x < MAX_TIMEOUT
  {
  }

  /** A queued slot goes to the front of the free list. */
  lemma Freed(free: seq<nat>, queue: seq<nat>, slots: seq<Timer>, stamps: seq<nat>, h: nat)
    requires Complete(free, queue) && Ordered(queue, slots, stamps) && h in queue
    ensures Complete([h] + free, Remove(queue, h)) && Ordered(Remove(queue, h), slots, stamps)
  {
    hide Remove, Ordered;
    FreedOrder(queue, slots, stamps, h);
    RemoveNoDup(queue, h);
    var f, r := [h] + free, Remove(queue, h);
    assert forall i | 0 < i < |f| :: f[i] == free[i - 1];
    forall x: nat
      ensures x in f || x in r <==> x < MAX_TIMEOUT
    {
      assert x in f <==> x == h || x in free;
    }
  }

  lemma FreedOrder(queue: seq<nat>, slots: seq<Timer>, stamps: seq<nat>, h: nat)
    requires Ordered(queue, slots, stamps) && h in queue
    ensures Ordered(Remove(queue, h), slots, stamps)
  {
    hide Remove, Earlier;
    var k := Place(queue, h);
    var r := Remove(queue, h);
    assert forall i | 0 <= i < |r| :: r[i] == if i < k then queue[i] else queue[i + 1];
  }

  /** A free slot is moved to the front of the free list. */
  lemma FreedAgain(free: seq<nat>, queue: seq<nat>, h: nat)
    requires Complete(free, queue) && h in free
    ensures Complete([h] + Remove(free, h), queue)
  {
    RemoveNoDup(free, h);
    var r := Remove(free, h);
    var f := [h] + r;
    assert forall i | 0 < i < |f| :: f[i] == r[i - 1];
    forall x: nat
      ensures x in f <==> x in free
    {
      assert x in f <==> x == h || x in r;
    }
  }

  /** A free slot enters the queue behind all timers that are not later. */
  lemma Queued(free: seq<nat>, queue: seq<nat>, slots: seq<Timer>, stamps: seq<nat>, t: Timer, stamp: nat, k: nat)
    requires Complete(free, queue) && Ordered(queue, slots, stamps) && free != [] && k <= |queue| && Normal(t)
    requires forall i | 0 <= i < |queue| :: stamps[queue[i]] < stamp
    requires forall i | 0 <= i < k :: !Earlier(t, slots[queue[i]])
    requires k < |queue| ==> Earlier(t, slots[queue[k]])
    ensures free[0] < MAX_TIMEOUT
    ensures var x := free[0]; var q := queue[..k] + [x] + queue[k..];
            Complete(free[1..], q) && Ordered(q, slots[x := t], stamps[x := stamp])
  {
    var x := free[0];
    var f, q := free[1..], queue[..k] + [x] + queue[k..];
    assert x in free && x !in queue;
    assert forall i | 0 <= i < |f| :: f[i] == free[i + 1];
    assert forall i | 0 <= i < |q| :: q[i] == if i < k then queue[i] else if i == k then x else queue[i - 1];
    forall y
      ensures y in q <==> y == x || y in queue
    {
      if y in queue {
        var i :| 0 <= i < |queue| && queue[i] == y;
        assert q[if i < k then i else i + 1] == y;
      }
      if y == x { assert q[k] == y; }
    }
    forall y: nat
      ensures y in f || y in q <==> y < MAX_TIMEOUT
    {
      assert y in free <==> y == x || y in f;
    }
    QueuedOrder(queue, slots, stamps, x, t, stamp, k, q);
  }

  lemma QueuedOrder(queue: seq<nat>, slots: seq<Timer>, stamps: seq<nat>, x: nat, t: Timer, stamp: nat, k: nat, q: seq<nat>)
    requires Ordered(queue, slots, stamps) && x !in queue && x < MAX_TIMEOUT && k <= |queue| && Normal(t)
    requires forall i | 0 <= i < |queue| :: stamps[queue[i]] < stamp
    requires forall i | 0 <= i < k :: !Earlier(t, slots[queue[i]])
    requires k < |queue| ==> Earlier(t, slots[queue[k]])
    requires q == queue[..k] + [x] + queue[k..]
    ensures Ordered(q, slots[x := t], stamps[x := stamp])
  {
    var slots', stamps' := slots[x := t], stamps[x := stamp];
    assert forall i | 0 <= i < |q| :: q[i] == if i < k then queue[i] else if i == k then x else queue[i - 1];
    assert forall i | 0 <= i < |queue| :: queue[i] in queue;
    forall i, j | 0 <= i < j < |q|
      ensures Earlier(slots'[q[i]], slots'[q[j]]) || (slots'[q[i]] == slots'[q[j]] && stamps'[q[i]] < stamps'[q[j]])
    {
      assert q[i] == x || q[i] in queue;
    }
  }

  // ---------- the loop ----------

  /** A handler call: which registration, and the uptime in seconds when it was made. */
  datatype Firing = Firing(stamp: nat, now: int)

  /** Each registration fires at most once, and not before its deadline. */
  ghost predicate OnTime(fired: seq<Firing>, promised: seq<Timer>)
  {
    && (forall f | f in fired :: f.stamp < |promised| && !Earlier(Timer(f.now, 0), promised[f.stamp]))
    && forall i, j | 0 <= i < j < |fired| :: fired[i].stamp != fired[j].stamp
  }

  /** What was promised at registration is what the slots of the queue hold, and it has not fired. */
  ghost predicate Pending(queue: seq<nat>, slots: seq<Timer>, stamps: seq<nat>, promised: seq<Timer>, fired: seq<Firing>)
    requires |slots| == |stamps| == MAX_TIMEOUT && forall x | x in queue :: x < MAX_TIMEOUT
  {
    && (forall x | x in queue ::
          stamps[x] < |promised| && promised[stamps[x]] == slots[x] && forall f | f in fired :: f.stamp != stamps[x])
    && forall x, y | x in queue && y in queue && x != y :: stamps[x] != stamps[y]
  }

  /** Slot x has left the free list for the place in the queue behind all timers that are not later. */
  ghost predicate Placed(x: nat, t: Timer, queue0: seq<nat>, queue: seq<nat>, slots0: seq<Timer>, k: int)
    requires |slots0| == MAX_TIMEOUT && forall i | 0 <= i < |queue0| :: queue0[i] < MAX_TIMEOUT
  {
    && 0 <= k <= |queue0| && queue == queue0[..k] + [x] + queue0[k..]
    && (forall i | 0 <= i < k :: !Earlier(t, slots0[queue0[i]]))
    && forall i | k <= i < |queue0| :: Earlier(t, slots0[queue0[i]])
  }

  /** The queue with a new registration. */
  lemma Enqueued(free: seq<nat>, queue: seq<nat>, slots: seq<Timer>, stamps: seq<nat>, promised: seq<Timer>, fired: seq<Firing>, t: Timer, k: nat)
    requires Complete(free, queue) && Ordered(queue, slots, stamps) && free != [] && k <= |queue| && Normal(t)
    requires Pending(queue, slots, stamps, promised, fired) && OnTime(fired, promised)
    requires forall i | 0 <= i < k :: !Earlier(t, slots[queue[i]])
    requires k < |queue| ==> Earlier(t, slots[queue[k]])
    ensures free[0] < MAX_TIMEOUT
    ensures var x := free[0]; var q := queue[..k] + [x] + queue[k..];
            var slots', stamps' := slots[x := t], stamps[x := |promised|];
            && Complete(free[1..], q) && Ordered(q, slots', stamps') && Placed(x, t, queue, q, slots, k)
            && Pending(q, slots', stamps', promised + [t], fired) && OnTime(fired, promised + [t])
  {
    Queued(free, queue, slots, stamps, t, |promised|, k);
    assert forall i | k <= i < |queue| :: Earlier(t, slots[queue[i]]);
    hide Earlier, Ordered;
    var x := free[0];
    PendingMore(queue, slots, stamps, promised, fired, x, t, k);
  }

  lemma PendingMore(queue: seq<nat>, slots: seq<Timer>, stamps: seq<nat>, promised: seq<Timer>, fired: seq<Firing>, x: nat, t: Timer, k: nat)
    requires |slots| == |stamps| == MAX_TIMEOUT && x < MAX_TIMEOUT && k <= |queue| && x !in queue
    requires (forall y | y in queue :: y < MAX_TIMEOUT) && Pending(queue, slots, stamps, promised, fired) && OnTime(fired, promised)
    ensures var q := queue[..k] + [x] + queue[k..];
            && (forall y | y in q :: y < MAX_TIMEOUT) && OnTime(fired, promised + [t])
            && Pending(q, slots[x := t], stamps[x := |promised|], promised + [t], fired)
  {
    var q := queue[..k] + [x] + queue[k..];
    forall y | y in q
      ensures y == x || y in queue
    {
      assert y == x || y in queue[..k] || y in queue[k..];
    }
  }

  /** Registrations were only made and cancelled: a queued timer is a new one or was queued before. */
  ghost predicate Since(queue0: seq<nat>, stamps0: seq<nat>, promised0: seq<Timer>, queue: seq<nat>, stamps: seq<nat>, promised: seq<Timer>)
  {
    && promised0 <= promised && |stamps0| == |stamps| == MAX_TIMEOUT
    && forall x | x in queue :: x < MAX_TIMEOUT && (stamps[x] >= |promised0| || (x in queue0 && stamps[x] == stamps0[x]))
  }

  /** Registration r has left the queue, and its handler was not called. */
  ghost predicate Lost(r: nat, before: seq<nat>, queue: seq<nat>, stamps: seq<nat>, fired: seq<Firing>)
  {
    && (exists x :: x in before && x < |stamps| && stamps[x] == r)
    && (forall x | x in queue && x < |stamps| :: stamps[x] != r) && forall f | f in fired :: f.stamp != r
  }

  /** Freeing slot x after the handler of registration stamp loses what else is in it. */
  lemma LostInSlot(back: seq<nat>, slots: seq<Timer>, stamps: seq<nat>, promised: seq<Timer>, fired: seq<Firing>, x: nat, stamp: nat, now: int)
    requires |slots| == |stamps| == MAX_TIMEOUT && NoDup(back) && forall y | y in back :: y < MAX_TIMEOUT
    requires Pending(back, slots, stamps, promised, fired)
    ensures (exists r :: Lost(r, back, Remove(back, x), stamps, fired + [Firing(stamp, now)])) <==>
      x in back && x < MAX_TIMEOUT && stamps[x] != stamp
    ensures x in back && stamps[x] != stamp ==> Lost(stamps[x], back, Remove(back, x), stamps, fired + [Firing(stamp, now)])
  {
    var queue, more := Remove(back, x), fired + [Firing(stamp, now)];
    if x !in back {
      RemoveAbsent(back, x);
    } else {
      RemoveNoDup(back, x);
      var k := Place(back, x);
      if stamps[x] != stamp {
        forall y | y in queue && y < |stamps|
          ensures stamps[y] != stamps[x]
        {
          var i := Place(back, y);
          assert i != k;
        }
        assert Lost(stamps[x], back, queue, stamps, more);
      } else {
        assert more[|fired|].stamp == stamp;
      }
    }
  }

  /** What a handler may do to the timers. */
  datatype Call = RegisterCall(now: int, secs: nat, usecs: nat) | CancelCall(handle: nat) | CancelAllCall

  /** The calls of the handlers in one round. */
  datatype Script = Script(signals: seq<Call>, handler: seq<Call>, sockets: seq<Call>)

  class EventLoop {
    var free: seq<nat>
    var queue: seq<nat>
    var slots: seq<Timer>
    /** The number of the registration that holds each slot, the deadlines of all registrations,
        and the handler calls made so far. */
    ghost var stamps: seq<nat>
    ghost var promised: seq<Timer>
    ghost var fired: seq<Firing>

    ghost predicate Valid()
      reads this
    {
      && Complete(free, queue) && Ordered(queue, slots, stamps)
      && Pending(queue, slots, stamps, promised, fired) && OnTime(fired, promised)
    }

    /** init_list_pools: every slot is put in front of the free list. */
    constructor ()
      ensures Valid() && queue == [] && fired == []
    {
      queue, slots := [], seq(MAX_TIMEOUT, _ => Timer(0, 0));
      free := seq(MAX_TIMEOUT, i requires 0 <= i < MAX_TIMEOUT => MAX_TIMEOUT - 1 - i);
      stamps, promised, fired := seq(MAX_TIMEOUT, _ => 0), [], [];
      new;
      forall x: nat
        ensures x in free <==> x < MAX_TIMEOUT
      {
        if x < MAX_TIMEOUT { assert free[MAX_TIMEOUT - 1 - x] == x; }
      }
    }

    /** sloop_register_timeout, with the current uptime as a parameter. */
    method Register(now: int, secs: nat, usecs: nat) returns (r: Option<nat>)
      requires Valid()
      modifies this
      ensures Valid() && fired == old(fired)
      ensures r.None? <==> old(free) == []
      ensures r.None? ==> queue == old(queue) && slots == old(slots) && stamps == old(stamps) && promised == old(promised)
      ensures r.Some? ==>
        && r.value == old(free)[0] < MAX_TIMEOUT && free == old(free)[1..]
        && Micros(slots[r.value]) == MILLION * (now + secs) + usecs && Normal(slots[r.value])
        && slots == old(slots)[r.value := slots[r.value]] && promised == old(promised) + [slots[r.value]]
        && stamps == old(stamps)[r.value := |old(promised)|]
        && exists k :: Placed(r.value, slots[r.value], old(queue), queue, old(slots), k)
    {
      hide Complete, Pending, OnTime, Placed, Earlier;
      if free == [] { return None; }
      var x := free[0];
      var t := Normalise(now + secs, usecs);
      var k := 0;
      while k < |queue| && !Earlier(t, slots[queue[k]])
        invariant 0 <= k <= |queue|
        invariant forall i | 0 <= i < k :: !Earlier(t, slots[queue[i]])
      {
        k := k + 1;
      }
      Enqueued(free, queue, slots, stamps, promised, fired, t, k);
      free, queue := free[1..], queue[..k] + [x] + queue[k..];
      slots := slots[x := t];
      stamps := stamps[x := |promised|];
      promised := promised + [t];
      r := Some(x);
    }

    method Normalise(sec: int, usec: nat) returns (t: Timer)
      ensures Normal(t) && Micros(t) == MILLION * sec + usec
    {
      t := Timer(sec, usec);
      while t.usec >= MILLION
        invariant 0 <= t.usec && Micros(t) == MILLION * sec + usec
        decreases t.usec
      {
        t := Timer(t.sec + 1, t.usec - MILLION);
      }
    }

    /** sloop_cancel_timeout of one timer.  A timer that has fired or was cancelled before is taken off
        the free list and put back in front of it. */
    method Cancel(h: nat)
      requires Valid() && h < MAX_TIMEOUT
      modifies this`free, this`queue
      ensures Valid() && free == [h] + Remove(old(free), h) && queue == Remove(old(queue), h) && h !in queue
    {
      hide Remove, Complete, Ordered, OnTime;
      Listed(free, queue, slots, stamps, h);
      if h in queue {
        Freed(free, queue, slots, stamps, h);
        RemoveAbsent(free, h);
      } else {
        FreedAgain(free, queue, h);
        RemoveAbsent(queue, h);
      }
      free, queue := [h] + Remove(free, h), Remove(queue, h);
    }

    /** sloop_cancel_timeout without a handle. */
    method CancelAll()
      requires Valid()
      modifies this`free, this`queue
      ensures Valid() && queue == []
    {
      while queue != []
        invariant Valid()
        decreases |queue|
      {
        Cancel(queue[0]);
      }
    }

    /** One call that a handler may make. */
    method Perform(c: Call)
      requires Valid()
      modifies this
      ensures Valid() && fired == old(fired) && Since(old(queue), old(stamps), old(promised), queue, stamps, promised)
      ensures c.RegisterCall? && old(free) != [] ==>
        |promised| == |old(promised)| + 1 && Micros(promised[|old(promised)|]) == MILLION * (c.now + c.secs) + c.usecs && old(free)[0] in queue
      ensures c.CancelCall? && c.handle < MAX_TIMEOUT ==> queue == Remove(old(queue), c.handle)
      ensures c.CancelAllCall? ==> queue == []
      ensures !c.RegisterCall? ==> promised == old(promised) && slots == old(slots) && stamps == old(stamps)
    {
      hide Complete, OnTime, Earlier, Remove;
      match c
      case RegisterCall(now, secs, usecs) => var r := Register(now, secs, usecs);
      case CancelCall(h) => if h < MAX_TIMEOUT { Cancel(h); }
      case CancelAllCall => CancelAll();
    }

    /** Any calls that handlers may make. */
    method AnyCalls(calls: seq<Call>)
      requires Valid()
      modifies this
      ensures Valid() && fired == old(fired) && Since(old(queue), old(stamps), old(promised), queue, stamps, promised)
      ensures calls == [] ==> queue == old(queue) && free == old(free) && slots == old(slots) && stamps == old(stamps) && promised == old(promised)
    {
      hide Complete, Pending, OnTime;
      for i := 0 to |calls|
        invariant Valid() && fired == old(fired) && Since(old(queue), old(stamps), old(promised), queue, stamps, promised)
        invariant i == 0 ==> queue == old(queue) && free == old(free) && slots == old(slots) && stamps == old(stamps) && promised == old(promised)
      {
        Perform(calls[i]);
      }
    }

    /** The time to wait for the first timer, if there is one: tv of sloop_run. */
    method WaitTime(now: int) returns (r: Option<Timer>)
      requires Valid()
      ensures r.None? <==> queue == []
      ensures r.Some? ==> Normal(r.value)
      ensures r.Some? ==> var left := Micros(slots[queue[0]]) - MILLION * now; Micros(r.value) == if left <= 0 then 0 else left
    {
      if queue == [] { return None; }
      var t := slots[queue[0]];
      if !Earlier(Timer(now, 0), t) { return Some(Timer(0, 0)); }
      return Some(Timer(t.sec - now, t.usec));
    }

    /** The timeout part of one round of sloop_run: entry was the first timer when the round began,
        and anything may have happened to it since.  The queue is back when the handler returns.  A registration
        is lost, neither fired nor cancelled nor queued, exactly if the handler has
        cancelled its own timer and then registered one in the same slot. */
    method CheckTimeout(entry: Option<nat>, now: int, handler: seq<Call>) returns (ran: bool, ghost back: seq<nat>)
      requires Valid()
      modifies this
      ensures Valid()
      ensures ran <==> old(queue) != [] && entry == Some(old(queue)[0]) && !Earlier(Timer(now, 0), old(slots)[old(queue)[0]])
      ensures fired == if ran then old(fired) + [Firing(old(stamps)[old(queue)[0]], now)] else old(fired)
      ensures queue == if ran then Remove(back, entry.value) else back
      ensures (exists r :: Lost(r, back, queue, stamps, fired)) <==>
        ran && entry.value in back && entry.value < |stamps| && stamps[entry.value] >= |old(promised)|
      ensures !ran || handler == [] ==> back == old(queue) && stamps == old(stamps) && slots == old(slots) && promised == old(promised)
    {
      ran, back := false, queue;
      if entry.None? || queue == [] || queue[0] != entry.value { return; }
      var x := entry.value;
      if Earlier(Timer(now, 0), slots[x]) { return; }
      ran := true;
      ghost var stamp := stamps[x];
      AnyCalls(handler);
      back := queue;
      LostInSlot(queue, slots, stamps, promised, fired, x, stamp, now);
      Finish(x, stamp, now);
    }

    /** A handler that loses a registration: it cancels its own timer and registers another one, which
        gets the same slot, and that slot is freed when it returns. */
    method CancelOwnAndRegister(now: int, secs: nat, usecs: nat) returns (r: Option<nat>, ghost back: seq<nat>)
      requires Valid() && queue != [] && !Earlier(Timer(now, 0), slots[queue[0]])
      modifies this
      ensures Valid() && r == Some(old(queue)[0]) && |old(promised)| + 1 == |promised|
      ensures queue == Remove(back, r.value) && fired == old(fired) + [Firing(old(stamps)[old(queue)[0]], now)]
      ensures Lost(|old(promised)|, back, queue, stamps, fired)
    {
      hide Remove, OnTime, Earlier;
      var x := queue[0];
      ghost var stamp := stamps[x];
      Cancel(x);
      r := Register(now, secs, usecs);
      back := queue;
      LostInSlot(back, slots, stamps, promised, fired, x, stamp, now);
      Finish(x, stamp, now);
    }

    /** After its handler has returned, the slot of the timer is freed, whatever is in it. */
    method Finish(x: nat, ghost stamp: nat, now: int)
      requires Valid() && x < MAX_TIMEOUT && stamp < |promised| && !Earlier(Timer(now, 0), promised[stamp])
      requires forall f | f in fired :: f.stamp != stamp
      requires forall y | y in queue && stamps[y] == stamp :: y == x
      modifies this
      ensures Valid() && queue == Remove(old(queue), x) && fired == old(fired) + [Firing(stamp, now)]
      ensures stamps == old(stamps) && promised == old(promised) && slots == old(slots)
    {
      Cancel(x);
      OnTimeMore(fired, promised, stamp, now);
      fired := fired + [Firing(stamp, now)];
    }

    /** One round of sloop_run, with the calls made by signal handlers, by the timer's handler and by socket
        handlers, and the uptime when the timer is looked at.  The handler runs exactly if the timer that
        was first when the round began is first after the signal handlers, and due. */
    method Round(now: int, script: Script) returns (ran: bool, ghost queue1: seq<nat>, ghost slots1: seq<Timer>, ghost stamps1: seq<nat>)
      requires Valid()
      modifies this
      ensures Valid() && |slots1| == |stamps1| == MAX_TIMEOUT && (forall x | x in queue1 :: x < MAX_TIMEOUT)
      ensures ran <==> old(queue) != [] && queue1 != [] && queue1[0] == old(queue)[0] && !Earlier(Timer(now, 0), slots1[queue1[0]])
      ensures fired == if ran then old(fired) + [Firing(stamps1[queue1[0]], now)] else old(fired)
      ensures script.signals == [] ==> queue1 == old(queue) && slots1 == old(slots) && stamps1 == old(stamps)
      ensures script == Script([], [], []) ==>
        slots == old(slots) && stamps == old(stamps) && queue == if ran then Remove(old(queue), old(queue)[0]) else old(queue)
    {
      hide Complete, Ordered, Pending, OnTime, Earlier, Remove, Since, Lost;
      var entry := if queue == [] then None else Some(queue[0]);
      AnyCalls(script.signals);
      queue1, slots1, stamps1 := queue, slots, stamps;
      InRange(queue, slots, stamps);
      ghost var back;
      ran, back := CheckTimeout(entry, now, script.handler);
      AnyCalls(script.sockets);
    }

    /** Any number of rounds of sloop_run; ran tells which of them called a timer's handler. */
    method Run(rounds: seq<(int, Script)>) returns (ran: seq<bool>)
      requires Valid()
      modifies this
      ensures Valid() && old(fired) <= fired
      ensures |ran| == |rounds| && multiset(ran)[true] == |fired| - |old(fired)|
    {
      hide Complete, Ordered, Pending, OnTime, Earlier, Remove;
      ran := [];
      for i := 0 to |rounds|
        invariant Valid() && old(fired) <= fired && |ran| == i && multiset(ran)[true] == |fired| - |old(fired)|
      {
        var r, q, t, st := Round(rounds[i].0, rounds[i].1);
        ran := ran + [r];
      }
    }

    /** If nobody interferes, the timers that are due all fire, in the order of the queue: as many rounds as
        there are timers, at a time when the last of them is due, empty it. */
    method Drain(now: int)
      requires Valid() && AllDue(queue, slots, now)
      modifies this
      ensures Valid() && queue == [] && Slots(old(queue), old(stamps)) && fired == old(fired) + FiringsOf(old(queue), old(stamps), now)
    {
      hide Complete, Ordered, Pending, OnTime, Earlier, Remove, FiringsOf, AllDue;
      InRange(queue, slots, stamps);
      ghost var n := 0;
      FiringsNone(queue, stamps, now);
      while queue != []
        invariant Valid() && slots == old(slots) && stamps == old(stamps) && n <= |old(queue)| && queue == old(queue)[n..]
        invariant Slots(old(queue)[..n], stamps) && fired == old(fired) + FiringsOf(old(queue)[..n], stamps, now)
        decreases |queue|
      {
        RemoveFirst(queue);
        FiringsMore(old(queue), slots, stamps, now, n);
        var r, q, t, st := Round(now, Script([], [], []));
        n := n + 1;
      }
      assert old(queue)[..n] == old(queue);
    }
  }

  ghost predicate AllDue(queue: seq<nat>, slots: seq<Timer>, now: int)
  {
    forall x | x in queue :: x < |slots| && !Earlier(Timer(now, 0), slots[x])
  }

  predicate Slots(queue: seq<nat>, stamps: seq<nat>)
  {
    |stamps| == MAX_TIMEOUT && forall i | 0 <= i < |queue| :: queue[i] < MAX_TIMEOUT
  }

  /** The handler calls for the timers of the queue, one after the other. */
  ghost function FiringsOf(queue: seq<nat>, stamps: seq<nat>, now: int): seq<Firing>
    requires Slots(queue, stamps)
  {
    seq(|queue|, i requires 0 <= i < |queue| => Firing(stamps[queue[i]], now))
  }

  lemma FiringsNone(queue: seq<nat>, stamps: seq<nat>, now: int)
    requires Slots(queue, stamps)
    ensures queue[..0] == [] && FiringsOf(queue[..0], stamps, now) == []
  {
  }

  lemma FiringsMore(queue: seq<nat>, slots: seq<Timer>, stamps: seq<nat>, now: int, n: nat)
    requires Slots(queue, stamps) && n < |queue| && AllDue(queue, slots, now)
    ensures queue[n..][0] == queue[n] && queue[n] < |slots| && !Earlier(Timer(now, 0), slots[queue[n]])
    ensures Slots(queue[..n], stamps) && Slots(queue[..n + 1], stamps)
    ensures FiringsOf(queue[..n + 1], stamps, now) == FiringsOf(queue[..n], stamps, now) + [Firing(stamps[queue[n]], now)]
    ensures queue[n..][1..] == queue[n + 1..]
  {
    assert queue[n] in queue;
    assert queue[..n + 1] == queue[..n] + [queue[n]];
  }

  lemma OnTimeMore(fired: seq<Firing>, promised: seq<Timer>, stamp: nat, now: int)
    requires OnTime(fired, promised) && stamp < |promised| && !Earlier(Timer(now, 0), promised[stamp])
    requires forall f | f in fired :: f.stamp != stamp
    ensures OnTime(fired + [Firing(stamp, now)], promised)
  {
    var more := fired + [Firing(stamp, now)];
    forall i, j | 0 <= i < j < |more|
      ensures more[i].stamp != more[j].stamp
    {
      if j == |fired| { assert more[i] in fired; }
    }
  }
}
