/**
 The coroutine mutex: `UnLock` with somebody waiting does not clear `lock_` but hands the
 ownership over, and the new owner travels through the scheduler's ready list before it runs.
 */
module CoMutex {
  import opened Basics

  type Co = nat

  datatype State = State(
    lock: bool,          // lock_
    queue: seq<Co>,      // wait_queue_: suspended inside Lock
    transit: seq<Co>,    // handed the mutex, on the way through the ready list
    holding: set<Co>,    // returned from Lock or from a successful TryLock, not unlocked yet
    // history
    arrived: seq<Co>,    // calls of Lock and successful calls of TryLock
    granted: seq<Co>)    // acquisitions, at the moment the ownership is theirs

  datatype Event = Lock(co: Co) | TryLock(co: Co) | Unlock(co: Co) | Resume

  const FREE: State := State(false, [], [], {}, [], [])

  predicate Running(s: State, c: Co) {
    c !in s.queue && c !in s.transit
  }

  // Only a running coroutine calls, only an owner unlocks, and a blocked coroutine is resumed
  // only because the mutex was handed to it.
  predicate Enabled(s: State, e: Event) {
    match e
    case Lock(c) => Running(s, c)
    case TryLock(c) => Running(s, c)
    case Unlock(c) => Running(s, c) && c in s.holding
    case Resume => s.transit != []
  }

  function Acquire(s: State, c: Co): State {
    s.(lock := true, holding := s.holding + {c}, arrived := s.arrived + [c], granted := s.granted + [c])
  }

  function Apply(s: State, e: Event): State
    requires Enabled(s, e)
  {
    match e
    case Lock(c) => if s.lock then s.(queue := s.queue + [c], arrived := s.arrived + [c]) else Acquire(s, c)
    case TryLock(c) => if s.lock then s else Acquire(s, c)
    case Unlock(c) =>
      if s.queue != [] then
        s.(holding := s.holding - {c}, queue := s.queue[1..],
           transit := s.transit + [s.queue[0]], granted := s.granted + [s.queue[0]])
      else
        s.(holding := s.holding - {c}, lock := false)
    case Resume => s.(transit := s.transit[1..], holding := s.holding + {s.transit[0]})
  }

  predicate Legal(s: State, events: seq<Event>)
    decreases |events|
  {
    events == [] || (Enabled(s, events[0]) && Legal(Apply(s, events[0]), events[1..]))
  }

  function Exec(s: State, events: seq<Event>): State
    requires Legal(s, events)
    decreases |events|
  {
    if events == [] then s else Exec(Apply(s, events[0]), events[1..])
  }

  predicate Inv(s: State) {
    && |s.holding| + |s.transit| == (if s.lock then 1 else 0)
    && (s.queue != [] ==> s.lock)
    && s.arrived == s.granted + s.queue
  }

  lemma StepKeepsOneOwner(s: State, e: Event)
    requires Inv(s) && Enabled(s, e)
    ensures var t := Apply(s, e); |t.holding| + |t.transit| == (if t.lock then 1 else 0)
  {
    match e
    case Unlock(c) =>
      assert s.holding == {c} + (s.holding - {c});
    case Resume =>
      NobodyHolds(s);
    case Lock(c) =>
      if !s.lock { NobodyHolds(s); }
    case TryLock(c) =>
      if !s.lock { NobodyHolds(s); }
  }

  lemma StepKeepsInv(s: State, e: Event)
    requires Inv(s) && Enabled(s, e)
    ensures Inv(Apply(s, e))
  {
    StepKeepsOneOwner(s, e);
    if e.Unlock? && s.queue != [] {
      assert s.granted + s.queue == (s.granted + [s.queue[0]]) + s.queue[1..];
    }
  }

  lemma NobodyHolds(s: State)
    requires |s.holding| == 0
    ensures s.holding == {}
  {
  }

  lemma {:induction false} RunsKeepInv(s: State, events: seq<Event>)
    requires Inv(s) && Legal(s, events)
    ensures Inv(Exec(s, events))
    decreases |events|
  {
    if events == [] {
    } else {
      StepKeepsInv(s, events[0]);
      RunsKeepInv(Apply(s, events[0]), events[1..]);
    }
  }

  // At most one owner, counting the one in transit; `lock_` exactly when there is one; nobody
  // waits for a free mutex; and over the whole run the mutex is granted in order of arrival.
  lemma MutualExclusion(events: seq<Event>)
    requires Legal(FREE, events)
    ensures var s := Exec(FREE, events);
            && |s.holding| + |s.transit| <= 1
            && (s.lock <==> s.holding != {} || s.transit != [])
            && (s.queue != [] ==> s.lock)
            && s.granted <= s.arrived
            && s.arrived == s.granted + s.queue
  {
    RunsKeepInv(FREE, events);
    var s := Exec(FREE, events);
    if s.lock && s.holding == {} {
      assert |s.transit| == 1;
    }
  }

  // ---------------------------------------------------------------- who owns it, told from the calls

  // A first come, first served lock: its owner, if it has one, and who waits.
  datatype Reference = Reference(owner: Option<Co>, waiting: seq<Co>)

  // Lock and TryLock on a lock without owner make the caller its owner; Lock on an owned one waits,
  // TryLock does nothing; Unlock passes it to whoever has waited longest.
  function After(r: Reference, e: Event): Reference {
    match e
    case Lock(c) => if r.owner == None then r.(owner := Some(c)) else r.(waiting := r.waiting + [c])
    case TryLock(c) => if r.owner == None then r.(owner := Some(c)) else r
    case Unlock(_) =>
      if r.waiting == [] then r.(owner := None) else Reference(Some(r.waiting[0]), r.waiting[1..])
    case Resume => r
  }

  function AfterAll(r: Reference, events: seq<Event>): Reference
    decreases |events|
  {
    if events == [] then r else AfterAll(After(r, events[0]), events[1..])
  }

  // The calls that ask for the lock: every Lock, and the TryLocks that find it without owner.
  function Asks(r: Reference, events: seq<Event>): seq<Co>
    decreases |events|
  {
    if events == [] then []
    else
      var e := events[0];
      (if e.Lock? || (e.TryLock? && r.owner == None) then [e.co] else []) + Asks(After(r, e), events[1..])
  }

  // The mutex has the reference's owner, holding it or on the way to it, and its waiters.
  predicate Owned(s: State, r: Reference) {
    && s.queue == r.waiting && (r.waiting != [] ==> r.owner.Some?)
    && s.lock == r.owner.Some?
    && match r.owner
       case None => s.holding == {} && s.transit == []
       case Some(c) => (s.holding == {c} && s.transit == []) || (s.holding == {} && s.transit == [c])
  }

  lemma StepKeepsOwner(s: State, r: Reference, e: Event)
    requires Owned(s, r) && Enabled(s, e)
    ensures Owned(Apply(s, e), After(r, e))
    ensures Apply(s, e).arrived == s.arrived + Asks(r, [e])
  {
    match e
    case Lock(c) => assert {} + {c} == {c};
    case TryLock(c) => assert {} + {c} == {c};
    case Unlock(c) => assert {c} - {c} == {};
    case Resume =>
      assert [s.transit[0]][1..] == [] && {} + {s.transit[0]} == {s.transit[0]};
  }

  lemma {:induction false} RunsKeepOwner(s: State, r: Reference, events: seq<Event>)
    requires Owned(s, r) && Legal(s, events)
    ensures Owned(Exec(s, events), AfterAll(r, events))
    ensures Exec(s, events).arrived == s.arrived + Asks(r, events)
    decreases |events|
  {
    if events != [] {
      var e, rest := events[0], events[1..];
      StepKeepsOwner(s, r, e);
      RunsKeepOwner(Apply(s, e), After(r, e), rest);
      AsksStep(r, e, rest);
      assert events == [e] + rest;
      Grouped(s.arrived, Asks(r, [e]), Asks(After(r, e), rest));
    }
  }

  lemma AsksStep(r: Reference, e: Event, rest: seq<Event>)
    ensures Asks(r, [e] + rest) == Asks(r, [e]) + Asks(After(r, e), rest)
  {
    assert ([e] + rest)[1..] == rest && [e][1..] == [];
  }

  lemma Grouped<T>(a: seq<T>, b: seq<T>, c: seq<T>)
    ensures (a + b) + c == a + (b + c)
  {
  }

  // Over every run the owner of the mutex, holding or in transit, and its waiters are those that the
  // calls make of a first come, first served lock; and it is granted to the callers in the order in
  // which they asked.
  lemma OwnerIsTheCalls(events: seq<Event>)
    requires Legal(FREE, events)
    ensures var s, r := Exec(FREE, events), AfterAll(Reference(None, []), events);
            && Owned(s, r)
            && Asks(Reference(None, []), events) == s.arrived == s.granted + r.waiting
  {
    RunsKeepOwner(FREE, Reference(None, []), events);
    RunsKeepInv(FREE, events);
    assert FREE.arrived + Asks(Reference(None, []), events) == Asks(Reference(None, []), events);
  }

  function Unlocks(events: seq<Event>): nat {
    if events == [] then 0 else Unlocked(events[0]) + Unlocks(events[1..])
  }

  function Unlocked(e: Event): nat {
    if e.Unlock? then 1 else 0
  }

  function LockCalls(events: seq<Event>): seq<Co> {
    if events == [] then [] else Queued(events[0]) + LockCalls(events[1..])
  }

  function Queued(e: Event): seq<Co> {
    if e.Lock? then [e.co] else []
  }

  // From s to t the mutex was never free: the first u waiters were granted it, in order, and the
  // others wait as before, with `calls` behind them.
  predicate HandedOff(s: State, t: State, u: nat, calls: seq<Co>)
    requires u <= |s.queue|
  {
    && t.lock
    && t.granted == s.granted + s.queue[..u]
    && t.queue == s.queue[u..] + calls
  }

  lemma UnlockThen(s: State, m: State, t: State, u: nat, calls: seq<Co>)
    requires u + 1 <= |s.queue| && m.granted == s.granted + [s.queue[0]] && m.queue == s.queue[1..]
    requires HandedOff(m, t, u, calls)
    ensures HandedOff(s, t, u + 1, calls)
  {
    assert s.queue[..u + 1] == [s.queue[0]] + s.queue[1..][..u];
    assert s.queue[1..][u..] == s.queue[u + 1..];
  }

  lemma OtherThen(s: State, m: State, t: State, more: seq<Co>, u: nat, calls: seq<Co>)
    requires u <= |s.queue| && m.granted == s.granted && m.queue == s.queue + more
    requires HandedOff(m, t, u, calls)
    ensures HandedOff(s, t, u, more + calls)
  {
    assert (s.queue + more)[..u] == s.queue[..u];
    assert (s.queue + more)[u..] + calls == s.queue[u..] + (more + calls);
  }

  lemma StepWhileLocked(s: State, e: Event)
    requires s.lock && Enabled(s, e) && (e.Unlock? ==> s.queue != [])
    ensures var m := Apply(s, e);
            && m.lock
            && (e.Unlock? ==> m.granted == s.granted + [s.queue[0]] && m.queue == s.queue[1..])
            && (!e.Unlock? ==> m.granted == s.granted && m.queue == s.queue + Queued(e))
  {
  }

  lemma HandOffStep(s: State, e: Event, t: State, u: nat, calls: seq<Co>)
    requires s.lock && Enabled(s, e) && u + Unlocked(e) <= |s.queue|
    requires u <= |Apply(s, e).queue| && HandedOff(Apply(s, e), t, u, calls)
    ensures HandedOff(s, t, u + Unlocked(e), Queued(e) + calls)
  {
    StepWhileLocked(s, e);
    if e.Unlock? {
      UnlockThen(s, Apply(s, e), t, u, calls);
      assert Queued(e) + calls == calls;
    } else {
      OtherThen(s, Apply(s, e), t, Queued(e), u, calls);
    }
  }

  // Direct hand-off: while there are waiters, each unlock grants the mutex to exactly the next of
  // them, every Lock queues behind them and every TryLock fails, whatever the interleaving.
  lemma {:induction false} HandOff(s: State, events: seq<Event>)
    requires s.lock && Legal(s, events) && Unlocks(events) <= |s.queue|
    ensures HandedOff(s, Exec(s, events), Unlocks(events), LockCalls(events))
    decreases |events|
  {
    if events != [] {
      var e, rest := events[0], events[1..];
      StepWhileLocked(s, e);
      HandOff(Apply(s, e), rest);
      HandOffStep(s, e, Exec(Apply(s, e), rest), Unlocks(rest), LockCalls(rest));
    }
  }

  // A coroutine at position k of the queue is granted the mutex by the (k+1)-th unlock, not before.
  lemma WaitIsBounded(s: State, events: seq<Event>, k: nat)
    requires Inv(s) && Legal(s, events) && k < |s.queue|
    ensures Unlocks(events) == k + 1 ==> Exec(s, events).granted == s.granted + s.queue[..k] + [s.queue[k]]
    ensures Unlocks(events) <= k ==>
              var t := Exec(s, events);
              && |t.granted| <= |s.granted| + k
              && k - Unlocks(events) < |t.queue| && t.queue[k - Unlocks(events)] == s.queue[k]
  {
    if Unlocks(events) <= k + 1 {
      HandOff(s, events);
      assert s.queue[..k + 1] == s.queue[..k] + [s.queue[k]];
    }
  }

  // The object itself. `Running` coroutines call; the caller suspends when Lock returns false.
  class Mutex {
    var lock: bool
    var waitQueue: seq<Co>

    constructor ()
      ensures Shows(FREE)
    {
      lock, waitQueue := false, [];
    }

    ghost predicate Shows(s: State)
      reads this
    {
      lock == s.lock && waitQueue == s.queue
    }

    // `acquired` is false when the caller was queued and yields.
    method Lock(co: Co, ghost s: State) returns (acquired: bool)
      requires Shows(s) && Running(s, co)
      modifies this
      ensures Shows(Apply(s, Event.Lock(co)))
      ensures acquired <==> !old(lock)
      ensures co !in s.holding ==> (acquired <==> co in Apply(s, Event.Lock(co)).holding)
      ensures acquired ==> lock && waitQueue == old(waitQueue)
      ensures !acquired ==> lock && waitQueue == old(waitQueue) + [co]
    {
      if lock {
        waitQueue := waitQueue + [co];
        acquired := false;
      } else {
        lock := true;
        acquired := true;
      }
    }

    // The coroutines to put on the ready list: the new owner, or nobody.
    method UnLock(ghost co: Co, ghost s: State) returns (ready: seq<Co>)
      requires Shows(s) && Enabled(s, Unlock(co))
      modifies this
      ensures Shows(Apply(s, Unlock(co)))
      ensures Apply(s, Unlock(co)).transit == s.transit + ready
      ensures old(waitQueue) == [] ==> ready == [] && !lock
      ensures old(waitQueue) != [] ==> ready + waitQueue == old(waitQueue) && |ready| == 1 && lock == old(lock)
    {
      if waitQueue != [] {
        ready := [waitQueue[0]];
        waitQueue := waitQueue[1..];
      } else {
        lock := false;
        ready := [];
      }
    }

    method TryLock(co: Co, ghost s: State) returns (acquired: bool)
      requires Shows(s) && Running(s, co)
      modifies this
      ensures Shows(Apply(s, Event.TryLock(co)))
      ensures acquired <==> !old(lock)
      ensures co !in s.holding ==> (acquired <==> co in Apply(s, Event.TryLock(co)).holding)
      ensures lock && waitQueue == old(waitQueue)
    {
      acquired := !lock;
      lock := true;
    }
  }
}
