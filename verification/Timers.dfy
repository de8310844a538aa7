/**
 Collecting timeouts: scan the deadline-ordered timers up to the first that is not due,
 try to move each due coroutine's wait context from kInit to kTimeout, and work out how
 long epoll may sleep. The clock is read anew at every step of the scan.
 */
module Timers {
  import opened Basics

  type Co = nat
  type Ctx = nat

  datatype Entry = Entry(deadline: int, co: Co)

  // The coroutines' side: wait_ctx_ of each coroutine that has one, the contexts' states, and
  // the coroutines' own states.
  datatype World = World(waitCtx: map<Co, Ctx>, ctx: map<Ctx, CtxState>, state: map<Co, CoState>) {
    predicate Valid() {
      && (forall c :: c in waitCtx ==> waitCtx[c] in ctx)
      && (forall c :: c in waitCtx ==> c in state)
    }
  }

  predicate Sorted(timer: seq<Entry>) {
    forall i, j :: 0 <= i < j < |timer| ==> timer[i].deadline <= timer[j].deadline
  }

  function Inserted(timer: seq<Entry>, i: nat, e: Entry): seq<Entry>
    requires i <= |timer|
  {
    timer[..i] + [e] + timer[i..]
  }

  lemma InsertKeepsOrder(timer: seq<Entry>, i: nat, e: Entry)
    requires Sorted(timer) && i <= |timer|
    requires 0 < i ==> timer[i - 1].deadline <= e.deadline
    requires i < |timer| ==> e.deadline <= timer[i].deadline
    ensures Sorted(Inserted(timer, i, e))
  {
    var t := Inserted(timer, i, e);
    forall a, b | 0 <= a < b < |t| ensures t[a].deadline <= t[b].deadline {
      assert t[a] == if a < i then timer[a] else if a == i then e else timer[a - 1];
      assert t[b] == if b < i then timer[b] else if b == i then e else timer[b - 1];
    }
  }

  lemma InsertAddsOne(timer: seq<Entry>, i: nat, e: Entry)
    requires i <= |timer|
    ensures multiset(Inserted(timer, i, e)) == multiset(timer) + multiset{e}
  {
    assert timer == timer[..i] + timer[i..];
  }

  // ---------------------------------------------------------------- one due timer

  function Fire(w: World, c: Co): (r: World)
    requires w.Valid()
    ensures r.Valid() && r.waitCtx == w.waitCtx && r.ctx.Keys == w.ctx.Keys
  {
    if c !in w.waitCtx then w
    else if w.ctx[w.waitCtx[c]] == Init then w.(ctx := w.ctx[w.waitCtx[c] := Timeout])
    else if w.state[c] == Init then w
    else w.(state := w.state[c := Init])
  }

  predicate Collects(w: World, c: Co)
    requires w.Valid()
  {
    c in w.waitCtx && (w.ctx[w.waitCtx[c]] == Init || w.state[c] == Init || w.state[c] == Wait)
  }

  function FireAll(w: World, due: seq<Entry>): (r: World)
    requires w.Valid()
    ensures r.Valid() && r.waitCtx == w.waitCtx && r.ctx.Keys == w.ctx.Keys
    decreases |due|
  {
    if due == [] then w else
      var last := |due| - 1;
      Fire(FireAll(w, due[..last]), due[last].co)
  }

  function Collected(w: World, due: seq<Entry>): seq<Co>
    requires w.Valid()
    decreases |due|
  {
    if due == [] then [] else
      var last := |due| - 1;
      Collected(w, due[..last]) + if Collects(FireAll(w, due[..last]), due[last].co) then [due[last].co] else []
  }

  predicate Reached(w: World, due: seq<Entry>, x: Ctx) {
    exists k :: 0 <= k < |due| && Waits(w, due[k].co, x)
  }

  predicate Waits(w: World, c: Co, x: Ctx) {
    c in w.waitCtx && w.waitCtx[c] == x
  }

  lemma {:induction false} ReachedStep(w: World, due: seq<Entry>, x: Ctx)
    requires due != []
    ensures Reached(w, due, x) <==> Reached(w, due[..|due| - 1], x) || Waits(w, due[|due| - 1].co, x)
  {
    var last := |due| - 1;
    var init := due[..last];
    if Reached(w, init, x) {
      var k :| 0 <= k < |init| && Waits(w, init[k].co, x);
      assert Waits(w, due[k].co, x);
    }
    if Reached(w, due, x) {
      var k :| 0 <= k < |due| && Waits(w, due[k].co, x);
      assert k < last ==> init[k] == due[k];
    }
  }

  // Exactly the waiting contexts of due coroutines become Timeout; nothing else changes, and in
  // particular a context that a peer already made Ready is never overwritten.
  lemma {:induction false} TimeoutsAreExact(w: World, due: seq<Entry>, x: Ctx)
    requires w.Valid() && x in w.ctx
    ensures FireAll(w, due).ctx[x] == if w.ctx[x] == Init && Reached(w, due, x) then Timeout else w.ctx[x]
    decreases |due|
  {
    if due != [] {
      TimeoutsAreExact(w, due[..|due| - 1], x);
      ReachedStep(w, due, x);
      FireTouches(FireAll(w, due[..|due| - 1]), due[|due| - 1].co, x);
    }
  }

  lemma {:induction false} FireTouches(w: World, c: Co, x: Ctx)
    requires w.Valid() && x in w.ctx
    ensures Fire(w, c).ctx[x] == if w.ctx[x] == Init && Waits(w, c, x) then Timeout else w.ctx[x]
  {
  }

  // The coroutines of the due timers that have a wait context, in deadline order.
  function DueWaiters(w: World, due: seq<Entry>): seq<Co> {
    if due == [] then [] else
      var last := |due| - 1;
      DueWaiters(w, due[..last]) + if due[last].co in w.waitCtx then [due[last].co] else []
  }

  lemma {:induction false} OneMoreDue(w: World, timer: seq<Entry>, i: nat)
    requires w.Valid() && i < |timer|
    ensures FireAll(w, timer[..i + 1]) == Fire(FireAll(w, timer[..i]), timer[i].co)
    ensures Collected(w, timer[..i + 1]) ==
            Collected(w, timer[..i]) + if Collects(FireAll(w, timer[..i]), timer[i].co) then [timer[i].co] else []
  {
    assert timer[..i + 1][..i] == timer[..i];
  }

  // No coroutine's own state ever leaves kInit in this runtime, so every due waiter is collected,
  // in deadline order: once per timer, whether its timeout won or a peer had been faster.
  lemma {:induction false} EveryDueWaiterIsCollected(w: World, due: seq<Entry>)
    requires w.Valid() && forall c :: c in w.state ==> w.state[c] == Init
    ensures Collected(w, due) == DueWaiters(w, due)
    ensures FireAll(w, due).state == w.state
    decreases |due|
  {
    if due != [] {
      EveryDueWaiterIsCollected(w, due[..|due| - 1]);
    }
  }

  // ---------------------------------------------------------------- how long to sleep

  // static_cast<int>(deadline - now), returned as uint32 and passed to epoll_wait as int.
  function WaitMs(deadline: int, now: int): nat {
    (deadline - now) % UINT32_BOUND
  }

  function EpollTimeout(ms: nat): int
    requires ms < UINT32_BOUND
  {
    if ms < INT32_BOUND then ms else ms - UINT32_BOUND
  }

  // epoll sleeps until the deadline exactly when the deadline has not passed at the reading and is
  // less than 2^31 ms away. If it has passed, by up to 2^31 ms, the timeout is negative and epoll
  // sleeps without any limit.
  lemma WaitIsUntilDeadline(deadline: int, now: int)
    ensures var left, t := deadline - now, EpollTimeout(WaitMs(deadline, now));
            && (0 <= t == left <==> 0 <= left < INT32_BOUND)
            && (left < 0 <= left + INT32_BOUND ==> t < 0)
            && 0 <= t + INT32_BOUND && t < INT32_BOUND && (t - left) % UINT32_BOUND == 0
  {
    var d := deadline - now;
    if d < 0 <= d + INT32_BOUND {
      assert d % UINT32_BOUND == d + UINT32_BOUND;
    }
  }

  class TimerManager {
    var timer: seq<Entry>   // the multimap, in key order
    var world: World

    ghost predicate Valid()
      reads this
    {
      Sorted(timer) && world.Valid()
    }

    constructor (world: World)
      requires world.Valid()
      ensures Valid() && timer == [] && this.world == world
    {
      timer, this.world := [], world;
    }

    // std::multimap::insert of now + ms.
    method AddTimer(ms: nat, co: Co, now: int) returns (ghost at: nat)
      requires Valid()
      modifies this`timer
      ensures Valid()
      ensures at <= |old(timer)| && timer == Inserted(old(timer), at, Entry(now + ms, co))
      ensures multiset(timer) == old(multiset(timer)) + multiset{Entry(now + ms, co)}
    {
      var entry := Entry(now + ms, co);
      var i := |timer|;
      while 0 < i && entry.deadline < timer[i - 1].deadline
        invariant 0 <= i <= |timer|
        invariant i < |timer| ==> entry.deadline < timer[i].deadline
      {
        i := i - 1;
      }
      InsertKeepsOrder(timer, i, entry);
      InsertAddsOne(timer, i, entry);
      timer := Inserted(timer, i, entry);
      at := i;
    }

    // The body of the scan: the compare-and-swap on the wait context, and what follows if it fails.
    method FireOne(co: Co) returns (push: bool)
      requires world.Valid()
      modifies this`world
      ensures world == Fire(old(world), co) && push == Collects(old(world), co)
      // what that is: the context's state decides, and if it is not kInit, the coroutine's own
      ensures co !in old(world).waitCtx ==> !push && world == old(world)
      ensures co in old(world).waitCtx ==>
                var x, was := old(world).waitCtx[co], old(world);
                && (was.ctx[x] == Init ==> push && world == was.(ctx := was.ctx[x := Timeout]))
                && (was.ctx[x] != Init ==> world == was.(state := was.state[co := Init]))
                && (was.ctx[x] != Init ==> (push <==> was.state[co] == Init || was.state[co] == Wait))
    {
      push := false;
      if co in world.waitCtx {
        var x := world.waitCtx[co];
        if world.ctx[x] == Init {
          world := world.(ctx := world.ctx[x := Timeout]);
          push := true;
        } else if world.state[co] == Init {
          push := true;
        } else {
          var previous := world.state[co];
          world := world.(state := world.state[co := Init]);
          push := previous == Wait;
        }
      }
    }

    // One turn of the scan: the coroutine joins the tasks if it is to run.
    method FireNext(i: nat, ready: seq<Co>, ghost before: World, ghost tasks: seq<Co>) returns (more: seq<Co>)
      requires i < |timer| && before.Valid() && world == FireAll(before, timer[..i])
      requires ready == tasks + Collected(before, timer[..i])
      modifies this`world
      ensures world == FireAll(before, timer[..i + 1]) && more == tasks + Collected(before, timer[..i + 1])
    {
      OneMoreDue(before, timer, i);
      var co := timer[i].co;
      var push := FireOne(co);
      more := if push then ready + [co] else ready;
    }

    // The scan: fire the timers one by one, up to the first that is not due.
    method Scan(clock: nat -> int, tasks: seq<Co>) returns (ready: seq<Co>, n: nat)
      requires Valid()
      modifies this`world
      ensures Valid()
      ensures n <= |timer| && (forall k :: 0 <= k < n ==> timer[k].deadline <= clock(k))
      ensures n < |timer| ==> clock(n) < timer[n].deadline
      ensures ready == tasks + Collected(old(world), timer[..n]) && world == FireAll(old(world), timer[..n])
    {
      ready, n := tasks, 0;
      while n < |timer| && timer[n].deadline <= clock(n)
        invariant n <= |timer| && world.Valid()
        invariant forall k :: 0 <= k < n ==> timer[k].deadline <= clock(k)
        invariant ready == tasks + Collected(old(world), timer[..n]) && world == FireAll(old(world), timer[..n])
      {
        ready := FireNext(n, ready, old(world), tasks);
        n := n + 1;
      }
    }

    // `n` timers are removed: all that were due at the reading that met them. The one that stopped
    // the scan, and so every later one, was not due at reading `n`. The sleep is worked out from a
    // reading after the scan, the next one or the one after that, so it is until the next deadline
    // exactly when that deadline has not passed then, and is less than 2^31 ms away.
    method CollectTimeoutTasks(clock: nat -> int, tasks: seq<Co>) returns (ready: seq<Co>, waitMs: nat, ghost n: nat)
      requires Valid()
      modifies this
      ensures Valid()
      ensures n <= |old(timer)| && timer == old(timer)[n..]
      ensures forall k :: 0 <= k < n ==> old(timer)[k].deadline <= clock(k)
      ensures forall k :: 0 <= k < |timer| ==> clock(n) < timer[k].deadline
      ensures ready == tasks + Collected(old(world), old(timer)[..n])
      ensures world == FireAll(old(world), old(timer)[..n])
      ensures timer == [] ==> waitMs == UINT32_BOUND - 1
      ensures timer != [] ==>
                var last := clock(if n == 0 then 1 else n + 2);
                var left := timer[0].deadline - last;
                && waitMs == WaitMs(timer[0].deadline, last)
                && (0 <= EpollTimeout(waitMs) == left <==> 0 <= left < INT32_BOUND)
                && (left < 0 <= left + INT32_BOUND ==> EpollTimeout(waitMs) < 0)
    {
      var i;
      ready, i := Scan(clock, tasks);
      n := i;
      var reading := if i < |timer| then i + 1 else i;
      if i != 0 {
        if i < |timer| {
          reading := reading + 1;   // only decides where the next insertion is tried first
        }
        timer := timer[i..];
      }
      if timer == [] {
        waitMs := UINT32_BOUND - 1;
      } else {
        waitMs := WaitMs(timer[0].deadline, clock(reading));
        WaitIsUntilDeadline(timer[0].deadline, clock(reading));
      }
    }
  }

  // The clock ticks over the only deadline between the scan and the last reading: the timer is due,
  // its coroutine is still waiting, nothing is collected, and epoll is told to sleep for ever.
  method OverdueTimerSleepsForever() returns (timers: TimerManager, ready: seq<Co>, waitMs: nat)
    ensures fresh(timers) && timers.timer == [Entry(5, 1)]
    ensures timers.world == World(map[1 := 0], map[0 := Init], map[1 := Init])
    ensures ready == [] && waitMs < UINT32_BOUND && EpollTimeout(waitMs) < 0
  {
    timers := new TimerManager(World(map[1 := 0], map[0 := Init], map[1 := Init]));
    ghost var _ := timers.AddTimer(5, 1, 0);
    var clock: nat -> int := i => if i == 0 then 4 else 6;
    ghost var n;
    ready, waitMs, n := timers.CollectTimeoutTasks(clock, []);
  }
}
