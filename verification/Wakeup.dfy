/**
 The cross-thread submit / wake-up protocol between any number of submitting
 threads and one scheduler loop, as a transition system.

 A submitter queues its work under a mutex, tries to raise
 `is_wakeup_` with a compare-and-swap, and writes the eventfd only if it won.
 The loop waits on an edge-triggered epoll, reads the eventfd, lowers the flag,
 and only then swaps the queues out and runs what was in them.
 */
module WakeupProtocol {

  type Thread = nat
  type Task = nat

  // The largest value an eventfd counter can hold; a write beyond it fails with EAGAIN.
  const MAX_COUNTER: nat := 0xFFFF_FFFF_FFFF_FFFE

  datatype LoopPc =
    | Waiting                    // blocked in epoll_wait
    | Dispatch(wake: bool)       // walking the returned events; wake: the wake-up event is still ahead
    | Clearing                   // in the wake-up handler, between its read and its clear
    | Swapping                   // about to call GetAllTasks
    | RunningNew(next: nat)      // starting newList[next..]
    | RunningReady(next: nat)    // resuming readyList[next..]
    | Collecting                 // about to collect timeouts into readyList
    | RunningTimeouts(next: nat) // resuming the timed-out readyList[next..]

  datatype State = State(
    flag: bool,             // is_wakeup_
    counter: nat,           // the eventfd counter
    edge: bool,             // an edge on the eventfd that epoll_wait has not reported yet
    pushed: set<Thread>,    // submitters between their push and their compare-and-swap
    won: set<Thread>,       // submitters that won the compare-and-swap and have not written
    newQueue: seq<Task>,    // TaskManager::new_tasks_
    readyQueue: seq<Task>,  // TaskManager::ready_tasks_
    pc: LoopPc,
    newList: seq<Task>,     // the loop's local newTaskList
    readyList: seq<Task>,   // the loop's local readyTaskList
    // history
    submittedNew: seq<Task>,
    startedNew: seq<Task>,
    submittedReady: seq<Task>,
    resumedReady: seq<Task>,
    collected: seq<Task>,         // timed-out coroutines, as the timers hand them over
    resumedTimeouts: seq<Task>)

  datatype Event =
    // submitters
    | SubmitNew(who: Thread, task: Task)
    | SubmitReady(who: Thread, task: Task)
    | CompareAndSwap(who: Thread)
    | WriteInterrupted(who: Thread)
    | WriteEventfd(who: Thread)
    // the loop
    | WaitFails
    | WaitReturns(delivered: bool)
    | ReadInterrupted
    | ReadEventfd
    | ClearFlag
    | EndDispatch
    | SwapLists
    | StartNew
    | EndNew
    | ResumeReady
    | EndReady
    | Collect(timeouts: seq<Task>)
    | ResumeTimeout
    | EndRound

  const INITIAL: State :=
    State(false, 0, false, {}, {}, [], [], Waiting, [], [], [], [], [], [], [], [])

  predicate Idle(s: State, t: Thread) {
    t !in s.pushed && t !in s.won
  }

  predicate Enabled(s: State, e: Event) {
    match e
    case SubmitNew(t, _) => Idle(s, t)
    case SubmitReady(t, _) => Idle(s, t)
    case CompareAndSwap(t) => t in s.pushed
    case WriteInterrupted(t) => t in s.won
    case WriteEventfd(t) => t in s.won
    case WaitFails => s.pc.Waiting?
    case WaitReturns(delivered) => s.pc.Waiting? && (delivered ==> s.edge)
    case ReadInterrupted => s.pc == Dispatch(true)
    case ReadEventfd => s.pc == Dispatch(true)
    case ClearFlag => s.pc.Clearing?
    case EndDispatch => s.pc == Dispatch(false)
    case SwapLists => s.pc.Swapping?
    case StartNew => s.pc.RunningNew? && s.pc.next < |s.newList|
    case EndNew => s.pc.RunningNew? && |s.newList| <= s.pc.next
    case ResumeReady => s.pc.RunningReady? && s.pc.next < |s.readyList|
    case EndReady => s.pc.RunningReady? && |s.readyList| <= s.pc.next
    case Collect(_) => s.pc.Collecting?
    case ResumeTimeout => s.pc.RunningTimeouts? && s.pc.next < |s.readyList|
    case EndRound => s.pc.RunningTimeouts? && |s.readyList| <= s.pc.next
  }

  // std::swap of the caller's list with the shared queue, skipped when the queue is empty:
  // whatever the caller's list still held would go back into the queue.
  function SwapIfNonEmpty<T>(local: seq<T>, queue: seq<T>): (seq<T>, seq<T>) {
    if queue != [] then (queue, local) else (local, queue)
  }

  function Apply(s: State, e: Event): State
    requires Enabled(s, e)
  {
    match e
    case SubmitNew(t, x) =>
      s.(newQueue := s.newQueue + [x], pushed := s.pushed + {t}, submittedNew := s.submittedNew + [x])
    case SubmitReady(t, x) =>
      s.(readyQueue := s.readyQueue + [x], pushed := s.pushed + {t}, submittedReady := s.submittedReady + [x])
    case CompareAndSwap(t) =>
      if s.flag then s.(pushed := s.pushed - {t})
      else s.(flag := true, pushed := s.pushed - {t}, won := s.won + {t})
    case WriteInterrupted(_) => s
    case WriteEventfd(t) =>
      if s.counter < MAX_COUNTER then s.(counter := s.counter + 1, edge := true, won := s.won - {t})
      else s.(won := s.won - {t})
    case WaitFails => s
    case WaitReturns(delivered) =>
      s.(pc := Dispatch(delivered), edge := s.edge && !delivered)
    case ReadInterrupted => s
    case ReadEventfd => s.(counter := 0, pc := Clearing)
    case ClearFlag => s.(flag := false, pc := Dispatch(false))
    case EndDispatch => s.(pc := Swapping)
    case SwapLists =>
      var (newList, newQueue) := SwapIfNonEmpty(s.newList, s.newQueue);
      var (readyList, readyQueue) := SwapIfNonEmpty(s.readyList, s.readyQueue);
      s.(newList := newList, newQueue := newQueue, readyList := readyList, readyQueue := readyQueue,
         pc := RunningNew(0))
    case StartNew =>
      s.(startedNew := s.startedNew + [s.newList[s.pc.next]], pc := RunningNew(s.pc.next + 1))
    case EndNew => s.(newList := [], pc := RunningReady(0))
    case ResumeReady =>
      s.(resumedReady := s.resumedReady + [s.readyList[s.pc.next]], pc := RunningReady(s.pc.next + 1))
    case EndReady => s.(readyList := [], pc := Collecting)
    case Collect(timeouts) =>
      s.(readyList := s.readyList + timeouts, collected := s.collected + timeouts, pc := RunningTimeouts(0))
    case ResumeTimeout =>
      s.(resumedTimeouts := s.resumedTimeouts + [s.readyList[s.pc.next]], pc := RunningTimeouts(s.pc.next + 1))
    case EndRound => s.(readyList := [], pc := Waiting)
  }

  predicate Legal(s: State, events: seq<Event>)
    decreases |events|
  {
    events == [] || (Enabled(s, events[0]) && Legal(Apply(s, events[0]), events[1..]))
  }

  function Exec(s: State, events: seq<Event>): State
    requires Legal(s, events)
    decreases |events|
  {
    if events == [] then s else Exec(Apply(s, events[0]), events[1..])
  }

  // ---------------------------------------------------------------- the invariant

  function One(b: bool): nat {
    if b then 1 else 0
  }

  predicate QueuesEmpty(s: State) {
    s.newQueue == [] && s.readyQueue == []
  }

  // The raised flag is a single token: a submitter, the eventfd or the handler holds it.
  predicate TokenConserved(s: State) {
    One(s.flag) == |s.won| + s.counter + One(s.pc.Clearing?)
  }

  predicate EdgeTracksCounter(s: State) {
    && (s.edge ==> s.counter == 1)
    && (s.pc == Dispatch(true) ==> s.counter == 1 && !s.edge)
    && (s.counter != 0 ==> s.edge || s.pc == Dispatch(true))
  }

  predicate WorkIsAnnounced(s: State) {
    QueuesEmpty(s) || s.pushed != {} || s.flag || s.pc == Dispatch(false) || s.pc.Swapping?
  }

  // The part of the loop's local lists that came from submissions and has not run yet.
  function NewLeft(s: State): seq<Task> {
    if s.pc.RunningNew? && s.pc.next <= |s.newList| then s.newList[s.pc.next..] else s.newList
  }

  function ReadyLeft(s: State): seq<Task> {
    if s.pc.RunningTimeouts? then []
    else if s.pc.RunningReady? && s.pc.next <= |s.readyList| then s.readyList[s.pc.next..]
    else s.readyList
  }

  predicate ListsInPhase(s: State) {
    && (s.newList != [] ==> s.pc.RunningNew?)
    && (s.readyList != [] ==> s.pc.RunningNew? || s.pc.RunningReady? || s.pc.RunningTimeouts?)
    && (s.pc.RunningNew? ==> s.pc.next <= |s.newList|)
    && (s.pc.RunningReady? ==> s.pc.next <= |s.readyList|)
    && (s.pc.RunningTimeouts? ==> s.pc.next <= |s.readyList|)
  }

  predicate NewExactlyOnce(s: State) {
    s.submittedNew == s.startedNew + NewLeft(s) + s.newQueue
  }

  predicate ReadyExactlyOnce(s: State) {
    s.submittedReady == s.resumedReady + ReadyLeft(s) + s.readyQueue
  }

  function TimeoutsLeft(s: State): seq<Task> {
    if s.pc.RunningTimeouts? && s.pc.next <= |s.readyList| then s.readyList[s.pc.next..] else []
  }

  predicate TimeoutsExactlyOnce(s: State) {
    s.collected == s.resumedTimeouts + TimeoutsLeft(s)
  }

  predicate Inv(s: State) {
    && s.pushed !! s.won
    && TokenConserved(s)
    && EdgeTracksCounter(s)
    && WorkIsAnnounced(s)
    && ListsInPhase(s)
    && NewExactlyOnce(s)
    && ReadyExactlyOnce(s)
    && TimeoutsExactlyOnce(s)
  }

  lemma StepKeepsToken(s: State, e: Event)
    requires Inv(s) && Enabled(s, e)
    ensures var s' := Apply(s, e);
            s'.pushed !! s'.won && TokenConserved(s') && EdgeTracksCounter(s') && WorkIsAnnounced(s')
  {
    match e
    case CompareAndSwap(t) =>
    case WriteEventfd(t) =>
      assert s.won == {t} + (s.won - {t});
    case _ =>
  }

  lemma StepKeepsPhases(s: State, e: Event)
    requires ListsInPhase(s) && Enabled(s, e)
    ensures ListsInPhase(Apply(s, e))
  {
  }

  // Rewritings of a log that is split into what has run, what is in hand and what is queued.
  lemma LogGrows<T>(log: seq<T>, run: seq<T>, hand: seq<T>, queue: seq<T>, x: T)
    requires log == run + hand + queue
    ensures log + [x] == run + hand + (queue + [x])
  {
  }

  lemma LogAdvances<T>(log: seq<T>, run: seq<T>, list: seq<T>, i: nat, queue: seq<T>)
    requires i < |list| && log == run + list[i..] + queue
    ensures log == (run + [list[i]]) + list[i + 1..] + queue
  {
    assert list[i..] == [list[i]] + list[i + 1..];
  }

  lemma LogSwaps<T>(log: seq<T>, run: seq<T>, queue: seq<T>)
    requires log == run + [] + queue
    ensures log == run + queue[0..] + []
  {
    assert run + [] == run && queue[0..] == queue;
  }

  lemma LogListDone<T>(log: seq<T>, run: seq<T>, list: seq<T>, queue: seq<T>)
    requires log == run + list[|list|..] + queue
    ensures log == run + [] + queue
  {
    assert list[|list|..] == [];
  }

  // The events that move new tasks, and those that move ready ones.
  predicate MovesNew(e: Event) {
    e.SubmitNew? || e.SwapLists? || e.StartNew? || e.EndNew?
  }

  predicate MovesReady(e: Event) {
    || e.SubmitReady? || e.SwapLists? || e.ResumeReady? || e.EndReady?
    || e.EndNew? || e.Collect? || e.ResumeTimeout? || e.EndRound?
  }

  lemma OthersKeepNew(s: State, e: Event)
    requires NewExactlyOnce(s) && Enabled(s, e) && !MovesNew(e)
    ensures NewExactlyOnce(Apply(s, e))
  {
    var t := Apply(s, e);
    assert t.submittedNew == s.submittedNew && t.startedNew == s.startedNew;
    assert t.newQueue == s.newQueue && t.newList == s.newList;
  }

  lemma OthersKeepReady(s: State, e: Event)
    requires ReadyExactlyOnce(s) && Enabled(s, e) && !MovesReady(e)
    ensures ReadyExactlyOnce(Apply(s, e))
  {
    var t := Apply(s, e);
    assert t.submittedReady == s.submittedReady && t.resumedReady == s.resumedReady;
    assert t.readyQueue == s.readyQueue && t.readyList == s.readyList;
  }

  lemma StepKeepsNewTasks(s: State, e: Event)
    requires ListsInPhase(s) && NewExactlyOnce(s) && Enabled(s, e)
    ensures NewExactlyOnce(Apply(s, e))
  {
    if e.SubmitNew? {
      LogGrows(s.submittedNew, s.startedNew, NewLeft(s), s.newQueue, e.task);
    } else if e.SwapLists? {
      LogSwaps(s.submittedNew, s.startedNew, s.newQueue);
    } else if e.StartNew? {
      LogAdvances(s.submittedNew, s.startedNew, s.newList, s.pc.next, s.newQueue);
    } else if e.EndNew? {
      LogListDone(s.submittedNew, s.startedNew, s.newList, s.newQueue);
    } else {
      OthersKeepNew(s, e);
    }
  }

  lemma StepKeepsReadyTasks(s: State, e: Event)
    requires ListsInPhase(s) && ReadyExactlyOnce(s) && Enabled(s, e)
    ensures ReadyExactlyOnce(Apply(s, e))
  {
    if e.SubmitReady? {
      LogGrows(s.submittedReady, s.resumedReady, ReadyLeft(s), s.readyQueue, e.task);
    } else if e.SwapLists? {
      LogSwaps(s.submittedReady, s.resumedReady, s.readyQueue);
    } else if e.ResumeReady? {
      LogAdvances(s.submittedReady, s.resumedReady, s.readyList, s.pc.next, s.readyQueue);
    } else if e.EndReady? {
      LogListDone(s.submittedReady, s.resumedReady, s.readyList, s.readyQueue);
    } else if MovesReady(e) {
      PhaseKeepsReady(s, e);
    } else {
      OthersKeepReady(s, e);
    }
  }

  // The loop goes from the new tasks to the ready ones, and through the timeouts, which were never
  // submitted, back to waiting.
  lemma PhaseKeepsReady(s: State, e: Event)
    requires ListsInPhase(s) && ReadyExactlyOnce(s) && Enabled(s, e)
    requires e.EndNew? || e.Collect? || e.ResumeTimeout? || e.EndRound?
    ensures ReadyExactlyOnce(Apply(s, e))
  {
    if e.EndNew? {
      assert s.readyList[0..] == s.readyList;
    }
    assert ReadyLeft(Apply(s, e)) == ReadyLeft(s);
  }

  lemma StepKeepsTimeouts(s: State, e: Event)
    requires ListsInPhase(s) && TimeoutsExactlyOnce(s) && Enabled(s, e)
    ensures TimeoutsExactlyOnce(Apply(s, e))
  {
    if e.Collect? {
      CollectKeepsTimeouts(s, e.timeouts);
    } else if e.ResumeTimeout? {
      ResumeKeepsTimeouts(s);
    } else {
      OthersKeepTimeouts(s, e);
    }
  }

  lemma CollectKeepsTimeouts(s: State, timeouts: seq<Task>)
    requires ListsInPhase(s) && TimeoutsExactlyOnce(s) && s.pc.Collecting?
    ensures TimeoutsExactlyOnce(Apply(s, Collect(timeouts)))
  {
    Joined(s.collected, s.resumedTimeouts, timeouts);
    assert s.readyList + timeouts == timeouts;
  }

  lemma Joined<T>(log: seq<T>, run: seq<T>, more: seq<T>)
    requires log == run + []
    ensures log + more == run + more[0..]
  {
    assert more[0..] == more;
  }

  lemma ResumeKeepsTimeouts(s: State)
    requires TimeoutsExactlyOnce(s) && Enabled(s, ResumeTimeout)
    ensures TimeoutsExactlyOnce(Apply(s, ResumeTimeout))
  {
    Advanced(s.collected, s.resumedTimeouts, s.readyList, s.pc.next);
  }

  lemma Advanced<T>(log: seq<T>, run: seq<T>, list: seq<T>, i: nat)
    requires i < |list| && log == run + list[i..]
    ensures log == (run + [list[i]]) + list[i + 1..]
  {
    assert list[i..] == [list[i]] + list[i + 1..];
  }

  lemma OthersKeepTimeouts(s: State, e: Event)
    requires ListsInPhase(s) && TimeoutsExactlyOnce(s) && Enabled(s, e) && !e.Collect? && !e.ResumeTimeout?
    ensures TimeoutsExactlyOnce(Apply(s, e))
  {
    var t := Apply(s, e);
    assert t.collected == s.collected && t.resumedTimeouts == s.resumedTimeouts;
    assert TimeoutsLeft(t) == TimeoutsLeft(s);
  }

  lemma StepKeepsInv(s: State, e: Event)
    requires Inv(s) && Enabled(s, e)
    ensures Inv(Apply(s, e))
  {
    StepKeepsToken(s, e);
    StepKeepsPhases(s, e);
    StepKeepsNewTasks(s, e);
    StepKeepsReadyTasks(s, e);
    StepKeepsTimeouts(s, e);
  }

  // Every state of every interleaving satisfies the invariant.
  lemma {:induction false} RunsKeepInv(s: State, events: seq<Event>)
    requires Inv(s) && Legal(s, events)
    ensures Inv(Exec(s, events))
    decreases |events|
  {
    if events == [] {
    } else {
      StepKeepsInv(s, events[0]);
      RunsKeepInv(Apply(s, events[0]), events[1..]);
    }
  }

  // ---------------------------------------------------------------- safety over whole runs

  // If the loop is blocked and a task is queued, then the wait is about to return (an edge is
  // pending) or some submitter has yet to finish its own Wakeup.
  lemma NoLostWakeup(events: seq<Event>)
    requires Legal(INITIAL, events)
    ensures var s := Exec(INITIAL, events);
            s.pc.Waiting? && !QueuesEmpty(s) ==> s.edge || s.pushed != {} || s.won != {}
  {
    RunsKeepInv(INITIAL, events);
  }

  // The token law: at most one submitter is ever about to write, the counter is 0 or 1,
  // a write never meets a full counter, and the handler's read always finds exactly one signal.
  lemma TokenLaw(events: seq<Event>)
    requires Legal(INITIAL, events)
    ensures var s := Exec(INITIAL, events);
            && TokenConserved(s)
            && |s.won| <= 1
            && s.counter <= 1
            && (s.won != {} ==> s.counter == 0)
            && (Enabled(s, ReadEventfd) ==> s.counter == 1 && s.won == {})
  {
    RunsKeepInv(INITIAL, events);
    TokenIn(Exec(INITIAL, events));
  }

  lemma TokenIn(s: State)
    requires TokenConserved(s) && EdgeTracksCounter(s)
    ensures |s.won| <= 1 && s.counter <= 1
    ensures s.won != {} ==> s.counter == 0
    ensures s.pc == Dispatch(true) ==> s.counter == 1 && s.won == {}
  {
    if s.won != {} {
      var t :| t in s.won;
      assert s.won == {t} + (s.won - {t});
    }
  }

  // Every submitted task is in exactly one place, in submission order, and both local lists
  // are empty whenever GetAllTasks swaps, so a swap never pushes old work back.
  lemma ExactlyOnceInOrder(events: seq<Event>)
    requires Legal(INITIAL, events)
    ensures var s := Exec(INITIAL, events);
            && NewExactlyOnce(s)
            && ReadyExactlyOnce(s)
            && TimeoutsExactlyOnce(s)
            && (s.pc.Swapping? ==> s.newList == [] && s.readyList == [])
            && (s.pc.Collecting? ==> s.readyList == [])
  {
    RunsKeepInv(INITIAL, events);
  }

  // ---------------------------------------------------------------- what the histories are histories of

  // What a step submits, hands over from the timers, and runs.
  function NewIn(e: Event): seq<Task> {
    if e.SubmitNew? then [e.task] else []
  }

  function ReadyIn(e: Event): seq<Task> {
    if e.SubmitReady? then [e.task] else []
  }

  function TimeoutsIn(e: Event): seq<Task> {
    if e.Collect? then e.timeouts else []
  }

  // ... and all steps of a run together.
  function AllOf(of: Event -> seq<Task>, events: seq<Event>): seq<Task> {
    if events == [] then [] else of(events[0]) + AllOf(of, events[1..])
  }

  function Times(which: Event, events: seq<Event>): nat {
    if events == [] then 0 else One(events[0] == which) + Times(which, events[1..])
  }

  lemma StepRecords(s: State, e: Event)
    requires Enabled(s, e)
    ensures var t := Apply(s, e);
            && t.submittedNew == s.submittedNew + NewIn(e)
            && t.submittedReady == s.submittedReady + ReadyIn(e)
            && t.collected == s.collected + TimeoutsIn(e)
  {
  }

  lemma StepCounts(s: State, e: Event)
    requires Enabled(s, e)
    ensures var t := Apply(s, e);
            && |t.startedNew| == |s.startedNew| + One(e == StartNew)
            && |t.resumedReady| == |s.resumedReady| + One(e == ResumeReady)
            && |t.resumedTimeouts| == |s.resumedTimeouts| + One(e == ResumeTimeout)
  {
  }

  // The logs hold exactly what the events of the run submitted and collected, in order, and one task
  // for each step that runs one.
  lemma {:induction false} HistoriesAreTheEvents(s: State, events: seq<Event>)
    requires Legal(s, events)
    ensures var t := Exec(s, events);
            && t.submittedNew == s.submittedNew + AllOf(NewIn, events)
            && t.submittedReady == s.submittedReady + AllOf(ReadyIn, events)
            && t.collected == s.collected + AllOf(TimeoutsIn, events)
            && |t.startedNew| == |s.startedNew| + Times(StartNew, events)
            && |t.resumedReady| == |s.resumedReady| + Times(ResumeReady, events)
            && |t.resumedTimeouts| == |s.resumedTimeouts| + Times(ResumeTimeout, events)
    decreases |events|
  {
    if events != [] {
      var e, rest := events[0], events[1..];
      var u := Apply(s, e);
      HistoriesAreTheEvents(u, rest);
      StepRecords(s, e);
      StepCounts(s, e);
      Onward(s.submittedNew, NewIn(e), AllOf(NewIn, rest));
      Onward(s.submittedReady, ReadyIn(e), AllOf(ReadyIn, rest));
      Onward(s.collected, TimeoutsIn(e), AllOf(TimeoutsIn, rest));
    }
  }

  lemma Onward<T>(log: seq<T>, now: seq<T>, later: seq<T>)
    ensures (log + now) + later == log + (now + later)
  {
  }

  // Exactly once, in order, of the events themselves: what a run has submitted is what has run, then
  // what the loop has in hand, then what is queued; and what its timers have handed over is what has
  // been resumed, then what is in hand.
  lemma EverythingIsAccountedFor(events: seq<Event>)
    requires Legal(INITIAL, events)
    ensures var s := Exec(INITIAL, events);
            && AllOf(NewIn, events) == s.startedNew + NewLeft(s) + s.newQueue
            && AllOf(ReadyIn, events) == s.resumedReady + ReadyLeft(s) + s.readyQueue
            && AllOf(TimeoutsIn, events) == s.resumedTimeouts + TimeoutsLeft(s)
            && |s.startedNew| == Times(StartNew, events)
            && |s.resumedReady| == Times(ResumeReady, events)
            && |s.resumedTimeouts| == Times(ResumeTimeout, events)
  {
    RunsKeepInv(INITIAL, events);
    HistoriesAreTheEvents(INITIAL, events);
  }

  // ---------------------------------------------------------------- progress

  // A step of the loop that does something: the submitters' steps are not, nor is a system call
  // that came back interrupted and is merely repeated.
  predicate LoopProgress(e: Event) {
    match e
    case WaitReturns(_) | ReadEventfd | ClearFlag | EndDispatch | SwapLists | StartNew | EndNew
       | ResumeReady | EndReady | Collect(_) | ResumeTimeout | EndRound => true
    case _ => false
  }

  // Tasks are counted off as submitted: the first `news` new ones and the first `readies` ready ones.
  datatype Goal = Goal(news: nat, readies: nat)

  function Submitted(s: State): Goal {
    Goal(|s.submittedNew|, |s.submittedReady|)
  }

  // They have been submitted, and they have been run.
  predicate Within(s: State, goal: Goal) {
    goal.news <= |s.submittedNew| && goal.readies <= |s.submittedReady|
  }

  predicate Reached(s: State, goal: Goal) {
    goal.news <= |s.startedNew| && goal.readies <= |s.resumedReady|
  }

  // Some of them are still queued.
  predicate InQueue(s: State, goal: Goal) {
    |s.submittedNew| < goal.news + |s.newQueue| || |s.submittedReady| < goal.readies + |s.readyQueue|
  }

  // How far the loop is from having run them: one round if they are queued, else the lists in hand.
  function Phase(s: State, goal: Goal): nat {
    var queued := InQueue(s, goal);
    match s.pc
    case RunningNew(_) => if queued then 19 else 9
    case RunningReady(_) => if queued then 18 else 8
    case Collecting => if queued then 17 else 0
    case RunningTimeouts(_) => if queued then 16 else 0
    case Waiting => if queued then 15 else 0
    case Dispatch(wake) => if !queued then 0 else if wake then 14 else 12
    case Clearing => if queued then 13 else 0
    case Swapping => if queued then 11 else 0
  }

  function Left(s: State): nat {
    match s.pc
    case RunningNew(i) => if i <= |s.newList| then |s.newList| - i else 0
    case RunningReady(i) => if i <= |s.readyList| then |s.readyList| - i else 0
    case RunningTimeouts(i) => if i <= |s.readyList| then |s.readyList| - i else 0
    case _ => 0
  }

  predicate Nearer(s: State, t: State, goal: Goal) {
    Phase(t, goal) < Phase(s, goal) || (Phase(t, goal) == Phase(s, goal) && Left(t) < Left(s))
  }

  // What the invariant says of lengths alone.
  lemma Lengths(s: State)
    requires Inv(s)
    ensures |s.submittedNew| == |s.startedNew| + |NewLeft(s)| + |s.newQueue|
    ensures |s.submittedReady| == |s.resumedReady| + |ReadyLeft(s)| + |s.readyQueue|
  {
  }

  // A goal that is neither reached nor queued is in the lists that the loop is working off.
  lemma InHand(s: State, goal: Goal)
    requires Inv(s) && !Reached(s, goal) && !InQueue(s, goal)
    ensures s.pc.RunningNew? || s.pc.RunningReady?
    ensures s.pc.RunningReady? ==> s.pc.next < |s.readyList|
  {
    Lengths(s);
  }

  // Every step of the loop brings a goal nearer, whatever else has been submitted meanwhile.
  lemma LoopStepMakesProgress(s: State, e: Event, goal: Goal)
    requires Inv(s) && Within(s, goal) && !Reached(s, goal) && LoopProgress(e) && Enabled(s, e)
    ensures Nearer(s, Apply(s, e), goal)
  {
    if InQueue(s, goal) {
      QueuedComesNearer(s, e, goal);
    } else {
      InHand(s, goal);
      InHandComesNearer(s, e, goal);
    }
  }

  // Tasks in the queue: the loop goes round to the swap, which takes them all.
  lemma QueuedComesNearer(s: State, e: Event, goal: Goal)
    requires ListsInPhase(s) && Within(s, goal) && InQueue(s, goal) && LoopProgress(e) && Enabled(s, e)
    ensures Nearer(s, Apply(s, e), goal)
  {
    if e.SwapLists? {
      assert !InQueue(Apply(s, e), goal);
    } else {
      QueuesStay(s, e);
    }
  }

  // Tasks in hand: the lists are worked off.
  lemma InHandComesNearer(s: State, e: Event, goal: Goal)
    requires !InQueue(s, goal) && LoopProgress(e) && Enabled(s, e)
    requires s.pc.RunningNew? || (s.pc.RunningReady? && s.pc.next < |s.readyList|)
    ensures Nearer(s, Apply(s, e), goal)
  {
    QueuesStay(s, e);
  }

  lemma QueuesStay(s: State, e: Event)
    requires LoopProgress(e) && Enabled(s, e) && !e.SwapLists?
    ensures var t := Apply(s, e);
            && t.newQueue == s.newQueue && t.readyQueue == s.readyQueue
            && t.submittedNew == s.submittedNew && t.submittedReady == s.submittedReady
  {
  }

  // No other step takes it further away.
  lemma OtherStepsKeepDistance(s: State, e: Event, goal: Goal)
    requires !LoopProgress(e) && Enabled(s, e)
    ensures Phase(Apply(s, e), goal) == Phase(s, goal) && Left(Apply(s, e)) == Left(s)
    ensures Apply(s, e).pc == s.pc
  {
  }

  // Nothing is stuck: outside epoll_wait the loop can always step, and with work queued the wait can
  // return with the wake-up event, or a submitter at work has yet to signal it.
  lemma NeverStuck(s: State)
    requires Inv(s)
    ensures s.pc.Waiting? && !QueuesEmpty(s) ==> Enabled(s, WaitReturns(true)) || s.pushed != {} || s.won != {}
    ensures !s.pc.Waiting? ==> exists e :: LoopProgress(e) && Enabled(s, e)
  {
    if s.pc.Waiting? {
      return;
    }
    var e := match s.pc
      case Waiting => WaitFails
      case Dispatch(wake) => if wake then ReadEventfd else EndDispatch
      case Clearing => ClearFlag
      case Swapping => SwapLists
      case RunningNew(i) => if i < |s.newList| then StartNew else EndNew
      case RunningReady(i) => if i < |s.readyList| then ResumeReady else EndReady
      case Collecting => Collect([])
      case RunningTimeouts(i) => if i < |s.readyList| then ResumeTimeout else EndRound;
    assert LoopProgress(e) && Enabled(s, e);
  }

  // ---------------------------------------------------------------- liveness

  // An infinite interleaving of the loop with any number of submitters, who may go on for ever.
  ghost predicate StepAt(run: nat -> State, schedule: nat -> Event, k: nat) {
    Enabled(run(k), schedule(k)) && run(k + 1) == Apply(run(k), schedule(k))
  }

  ghost predicate IsRun(run: nat -> State, schedule: nat -> Event) {
    run(0) == INITIAL && forall k: nat :: StepAt(run, schedule, k)
  }

  ghost predicate Happens(schedule: nat -> Event, i: nat, e: Event) {
    exists j :: i <= j && schedule(j) == e
  }

  ghost predicate LoopSteps(schedule: nat -> Event, i: nat) {
    exists j :: i <= j && LoopProgress(schedule(j))
  }

  // Nobody is held up for ever: a submitter between its push and the end of Wakeup gets on with it,
  // and so does the loop, except that epoll_wait need not return while no edge is pending.
  ghost predicate Fair(run: nat -> State, schedule: nat -> Event) {
    && (forall i: nat, t :: t in run(i).pushed ==> Happens(schedule, i, CompareAndSwap(t)))
    && (forall i: nat, t :: t in run(i).won ==> Happens(schedule, i, WriteEventfd(t)))
    && (forall i: nat :: (run(i).pc.Waiting? ==> run(i).edge) ==> LoopSteps(schedule, i))
  }

  lemma {:induction false} InvAlways(run: nat -> State, schedule: nat -> Event, i: nat)
    requires IsRun(run, schedule)
    ensures Inv(run(i))
  {
    if i != 0 {
      InvAlways(run, schedule, i - 1);
      assert StepAt(run, schedule, i - 1);
      StepKeepsInv(run(i - 1), schedule(i - 1));
    }
  }

  // Every submitter returns from Wakeup.
  lemma EverySubmitterReturns(run: nat -> State, schedule: nat -> Event, i: nat, t: Thread) returns (n: nat)
    requires IsRun(run, schedule) && Fair(run, schedule)
    ensures i <= n && Idle(run(n), t)
  {
    n := i;
    if t in run(n).pushed {
      assert Happens(schedule, n, CompareAndSwap(t));
      var c :| n <= c && schedule(c) == CompareAndSwap(t);
      assert StepAt(run, schedule, c);
      n := c + 1;
    }
    if t in run(n).won {
      assert Happens(schedule, n, WriteEventfd(t));
      var w :| n <= w && schedule(w) == WriteEventfd(t);
      InvAlways(run, schedule, w);
      assert StepAt(run, schedule, w);
      n := w + 1;
    }
  }

  // Until the loop steps it stays where it is, a raised flag stays up and a pending edge pending.
  lemma {:induction false} WaitingStays(run: nat -> State, schedule: nat -> Event, i: nat, j: nat)
    requires IsRun(run, schedule) && i <= j && run(i).pc.Waiting?
    requires forall k :: i <= k < j ==> !LoopProgress(schedule(k))
    ensures run(j).pc.Waiting? && (run(i).flag ==> run(j).flag) && (run(i).edge ==> run(j).edge)
    decreases j
  {
    if i < j {
      WaitingStays(run, schedule, i, j - 1);
      assert StepAt(run, schedule, j - 1);
    }
  }

  // A blocked loop: by the time a given step of somebody else has come, the loop has stepped, or it
  // still waits.
  lemma WaitingUntil(run: nat -> State, schedule: nat -> Event, i: nat, e: Event) returns (at: nat)
    requires IsRun(run, schedule) && run(i).pc.Waiting? && Happens(schedule, i, e) && !LoopProgress(e)
    ensures i <= at && StepAt(run, schedule, at)
    ensures LoopProgress(schedule(at)) ||
            (&& schedule(at) == e && run(at).pc.Waiting?
             && (run(i).flag ==> run(at).flag) && (run(i).edge ==> run(at).edge))
  {
    at :| i <= at && schedule(at) == e;
    if k :| i <= k < at && LoopProgress(schedule(k)) {
      at := k;
    } else {
      WaitingStays(run, schedule, i, at);
    }
    assert StepAt(run, schedule, at);
  }

  // The write that ends a Wakeup raises the edge.
  lemma WriteRaisesEdge(s: State, t: Thread)
    requires Inv(s) && Enabled(s, WriteEventfd(t))
    ensures Apply(s, WriteEventfd(t)).edge && Apply(s, WriteEventfd(t)).pc == s.pc
  {
  }

  // A blocked loop with a signal on its way, or already there, will step: the token gets to the edge.
  lemma SignalArrives(run: nat -> State, schedule: nat -> Event, i: nat)
    requires IsRun(run, schedule) && Fair(run, schedule) && run(i).pc.Waiting? && run(i).flag
    ensures LoopSteps(schedule, i)
  {
    InvAlways(run, schedule, i);
    if !run(i).edge {
      assert run(i).won != {};
      var t :| t in run(i).won;
      var at := WaitingUntil(run, schedule, i, WriteEventfd(t));
      if schedule(at) == WriteEventfd(t) {
        InvAlways(run, schedule, at);
        WriteRaisesEdge(run(at), t);
        LoopStepsLater(schedule, i, at + 1);
      }
    }
  }

  lemma LoopStepsLater(schedule: nat -> Event, i: nat, k: nat)
    requires i <= k
    ensures LoopSteps(schedule, k) ==> LoopSteps(schedule, i)
  {
  }

  // No lost wake-up, over time: while work is queued the loop always steps again.
  lemma LoopStepsAgain(run: nat -> State, schedule: nat -> Event, i: nat)
    requires IsRun(run, schedule) && Fair(run, schedule) && !QueuesEmpty(run(i))
    ensures LoopSteps(schedule, i)
  {
    InvAlways(run, schedule, i);
    var s := run(i);
    if s.pc.Waiting? && !s.edge {
      if s.flag {
        SignalArrives(run, schedule, i);
      } else {
        var t :| t in s.pushed;
        var at := WaitingUntil(run, schedule, i, CompareAndSwap(t));
        if schedule(at) == CompareAndSwap(t) {
          SignalArrives(run, schedule, at + 1);
          LoopStepsLater(schedule, i, at + 1);
        }
      }
    }
  }

  lemma LoopStepsTowards(run: nat -> State, schedule: nat -> Event, i: nat, goal: Goal) returns (j: nat)
    requires IsRun(run, schedule) && Fair(run, schedule) && !Reached(run(i), goal) && Within(run(i), goal)
    ensures i <= j && LoopProgress(schedule(j))
  {
    InvAlways(run, schedule, i);
    if QueuesEmpty(run(i)) {
      InHand(run(i), goal);
    } else {
      LoopStepsAgain(run, schedule, i);
    }
    assert LoopSteps(schedule, i);
    j :| i <= j && LoopProgress(schedule(j));
  }

  // From i on, with the loop's next step at or before j.
  lemma {:induction false} GoalIsReached(run: nat -> State, schedule: nat -> Event, goal: Goal, i: nat, j: nat)
    returns (n: nat)
    requires IsRun(run, schedule) && Fair(run, schedule) && i <= j && LoopProgress(schedule(j)) && Within(run(i), goal)
    ensures i <= n && Reached(run(n), goal)
    decreases Phase(run(i), goal), Left(run(i)), j - i
  {
    if Reached(run(i), goal) {
      return i;
    }
    InvAlways(run, schedule, i);
    assert StepAt(run, schedule, i);
    SubmissionsStay(run(i), schedule(i));
    if !LoopProgress(schedule(i)) {
      OtherStepsKeepDistance(run(i), schedule(i), goal);
      n := GoalIsReached(run, schedule, goal, i + 1, j);
    } else if Reached(run(i + 1), goal) {
      n := i + 1;
    } else {
      LoopStepMakesProgress(run(i), schedule(i), goal);
      var next := LoopStepsTowards(run, schedule, i + 1, goal);
      n := GoalIsReached(run, schedule, goal, i + 1, next);
    }
  }

  ghost predicate IsPrefix<T>(a: seq<T>, b: seq<T>) {
    |a| <= |b| && a == b[..|a|]
  }

  lemma SubmissionsStay(s: State, e: Event)
    requires Enabled(s, e)
    ensures IsPrefix(s.submittedNew, Apply(s, e).submittedNew) && IsPrefix(s.submittedReady, Apply(s, e).submittedReady)
  {
  }

  lemma {:induction false} SubmissionsGrow(run: nat -> State, schedule: nat -> Event, i: nat, n: nat)
    requires IsRun(run, schedule) && i <= n
    ensures IsPrefix(run(i).submittedNew, run(n).submittedNew) && IsPrefix(run(i).submittedReady, run(n).submittedReady)
    decreases n
  {
    if i < n {
      SubmissionsGrow(run, schedule, i, n - 1);
      assert StepAt(run, schedule, n - 1);
      SubmissionsStay(run(n - 1), schedule(n - 1));
    }
  }

  // Two beginnings of the same log, the shorter one first.
  lemma ShorterIsPrefix<T>(a: seq<T>, b: seq<T>, log: seq<T>, rest: seq<T>)
    requires IsPrefix(a, log) && log == b + rest && |a| <= |b|
    ensures IsPrefix(a, b)
  {
    assert b == log[..|b|];
  }

  // Liveness: in every fair infinite interleaving, with submitters that may never fall silent,
  // whatever has been submitted at any point is eventually started or resumed, in order.
  lemma EverySubmissionIsRun(run: nat -> State, schedule: nat -> Event, i: nat) returns (n: nat)
    requires IsRun(run, schedule) && Fair(run, schedule)
    ensures i <= n
    ensures IsPrefix(run(i).submittedNew, run(n).startedNew) && IsPrefix(run(i).submittedReady, run(n).resumedReady)
  {
    var goal := Submitted(run(i));
    if Reached(run(i), goal) {
      n := i;
    } else {
      var j := LoopStepsTowards(run, schedule, i, goal);
      n := GoalIsReached(run, schedule, goal, i, j);
    }
    InvAlways(run, schedule, n);
    SubmissionsGrow(run, schedule, i, n);
    var s := run(n);
    LeftOverAfter(s.submittedNew, s.startedNew, NewLeft(s), s.newQueue);
    LeftOverAfter(s.submittedReady, s.resumedReady, ReadyLeft(s), s.readyQueue);
    ShorterIsPrefix(run(i).submittedNew, s.startedNew, s.submittedNew, NewLeft(s) + s.newQueue);
    ShorterIsPrefix(run(i).submittedReady, s.resumedReady, s.submittedReady, ReadyLeft(s) + s.readyQueue);
  }

  // From i on, with the loop's next step at or before j, while the timeouts are worked off.
  lemma {:induction false} TimeoutsWorkedOff(run: nat -> State, schedule: nat -> Event, goal: nat, i: nat, j: nat)
    returns (n: nat)
    requires IsRun(run, schedule) && Fair(run, schedule) && i <= j && LoopProgress(schedule(j))
    requires goal <= |run(i).collected|
    ensures i <= n && goal <= |run(n).resumedTimeouts|
    decreases Left(run(i)), j - i
  {
    if goal <= |run(i).resumedTimeouts| {
      return i;
    }
    TimeoutStepAt(run, schedule, goal, i);
    if !LoopProgress(schedule(i)) {
      n := TimeoutsWorkedOff(run, schedule, goal, i + 1, j);
    } else if goal <= |run(i + 1).resumedTimeouts| {
      n := i + 1;
    } else {
      var next := LoopGoesOn(run, schedule, goal, i + 1);
      n := TimeoutsWorkedOff(run, schedule, goal, i + 1, next);
    }
  }

  lemma TimeoutStepAt(run: nat -> State, schedule: nat -> Event, goal: nat, i: nat)
    requires IsRun(run, schedule) && |run(i).resumedTimeouts| < goal <= |run(i).collected|
    ensures Left(run(i + 1)) == Left(run(i)) - One(LoopProgress(schedule(i)))
    ensures goal <= |run(i + 1).collected|
  {
    InvAlways(run, schedule, i);
    assert StepAt(run, schedule, i);
    StepRecords(run(i), schedule(i));
    TimeoutStep(run(i), schedule(i), goal);
  }

  lemma LoopGoesOn(run: nat -> State, schedule: nat -> Event, goal: nat, i: nat) returns (j: nat)
    requires IsRun(run, schedule) && Fair(run, schedule) && |run(i).resumedTimeouts| < goal <= |run(i).collected|
    ensures i <= j && LoopProgress(schedule(j))
  {
    InvAlways(run, schedule, i);
    TimeoutsInHand(run(i), goal);
    assert LoopSteps(schedule, i);
    j :| i <= j && LoopProgress(schedule(j));
  }

  lemma TimeoutsInHand(s: State, goal: nat)
    requires TimeoutsExactlyOnce(s) && |s.resumedTimeouts| < goal <= |s.collected|
    ensures s.pc.RunningTimeouts? && s.pc.next < |s.readyList|
  {
  }

  // While timeouts are in hand the loop resumes one at each step, and nobody else touches them.
  lemma TimeoutStep(s: State, e: Event, goal: nat)
    requires TimeoutsExactlyOnce(s) && |s.resumedTimeouts| < goal <= |s.collected| && Enabled(s, e)
    ensures Left(Apply(s, e)) == Left(s) - One(LoopProgress(e))
  {
    TimeoutsInHand(s, goal);
  }

  // Liveness for timeouts: in every fair infinite interleaving each coroutine that the timers hand over
  // is eventually resumed, in order.
  lemma EveryTimeoutIsResumed(run: nat -> State, schedule: nat -> Event, i: nat) returns (n: nat)
    requires IsRun(run, schedule) && Fair(run, schedule)
    ensures i <= n && IsPrefix(run(i).collected, run(n).resumedTimeouts)
  {
    var goal := |run(i).collected|;
    if goal <= |run(i).resumedTimeouts| {
      n := i;
    } else {
      var j := LoopGoesOn(run, schedule, goal, i);
      n := TimeoutsWorkedOff(run, schedule, goal, i, j);
    }
    InvAlways(run, schedule, n);
    CollectionsGrow(run, schedule, i, n);
    ShorterIsPrefix(run(i).collected, run(n).resumedTimeouts, run(n).collected, TimeoutsLeft(run(n)));
  }

  lemma {:induction false} CollectionsGrow(run: nat -> State, schedule: nat -> Event, i: nat, n: nat)
    requires IsRun(run, schedule) && i <= n
    ensures IsPrefix(run(i).collected, run(n).collected)
    decreases n
  {
    if i < n {
      CollectionsGrow(run, schedule, i, n - 1);
      assert StepAt(run, schedule, n - 1);
      StepRecords(run(n - 1), schedule(n - 1));
    }
  }

  lemma LeftOverAfter<T>(log: seq<T>, run: seq<T>, hand: seq<T>, queue: seq<T>)
    requires log == run + hand + queue
    ensures log == run + (hand + queue)
  {
  }

  const SAMPLE: seq<Event> :=
    [SubmitNew(0, 7), CompareAndSwap(0), WriteEventfd(0), WaitReturns(true), ReadEventfd, ClearFlag,
     EndDispatch, SwapLists, StartNew, EndNew, EndReady, Collect([]), EndRound]

  function Sample(flag: bool, counter: nat, edge: bool, won: set<Thread>, queue: seq<Task>, pc: LoopPc,
                  list: seq<Task>, started: seq<Task>): State {
    State(flag, counter, edge, {}, won, queue, [], pc, list, [], [7], started, [], [], [], [])
  }

  // One thread submits a task and wakes the loop, which starts it and waits again.
  const SAMPLE_STATES: seq<State> :=
    [INITIAL,
     Sample(false, 0, false, {}, [7], Waiting, [], []).(pushed := {0}),
     Sample(true, 0, false, {0}, [7], Waiting, [], []),
     Sample(true, 1, true, {}, [7], Waiting, [], []),
     Sample(true, 1, false, {}, [7], Dispatch(true), [], []),
     Sample(true, 0, false, {}, [7], Clearing, [], []),
     Sample(false, 0, false, {}, [7], Dispatch(false), [], []),
     Sample(false, 0, false, {}, [7], Swapping, [], []),
     Sample(false, 0, false, {}, [], RunningNew(0), [7], []),
     Sample(false, 0, false, {}, [], RunningNew(1), [7], [7]),
     Sample(false, 0, false, {}, [], RunningReady(0), [], [7]),
     Sample(false, 0, false, {}, [], Collecting, [], [7]),
     Sample(false, 0, false, {}, [], RunningTimeouts(0), [], [7]),
     Sample(false, 0, false, {}, [], Waiting, [], [7])]

  predicate SampleStep(k: nat) {
    k < 13 && Enabled(SAMPLE_STATES[k], SAMPLE[k]) && SAMPLE_STATES[k + 1] == Apply(SAMPLE_STATES[k], SAMPLE[k])
  }

  lemma SampleSignals()
    ensures SampleStep(0) && SampleStep(1) && SampleStep(2)
  {
    assert {} + {0} == {0} && {0} - {0} == {};
  }

  lemma SampleWakes()
    ensures SampleStep(3) && SampleStep(4)
  {
  }

  lemma SampleClears()
    ensures SampleStep(5) && SampleStep(6)
  {
  }

  lemma SampleRuns()
    ensures SampleStep(7) && SampleStep(8) && SampleStep(9)
  {
    assert [7][0] == 7 && [] + [7] == [7];
  }

  lemma SampleEnds()
    ensures SampleStep(10) && SampleStep(11) && SampleStep(12)
  {
  }

  function SampleRun(k: nat): State {
    if k < 13 then SAMPLE_STATES[k] else SAMPLE_STATES[13]
  }

  function SampleSchedule(k: nat): Event {
    if k < 13 then SAMPLE[k] else WaitFails
  }

  lemma SampleSteps(k: nat)
    requires k < 13
    ensures SampleStep(k)
  {
    if k < 3 {
      SampleSignals();
    } else if k < 5 {
      SampleWakes();
    } else if k < 7 {
      SampleClears();
    } else if k < 10 {
      SampleRuns();
    } else {
      SampleEnds();
    }
  }

  lemma SampleStepAt(k: nat)
    ensures StepAt(SampleRun, SampleSchedule, k)
  {
    if k < 13 {
      SampleSteps(k);
    }
  }

  lemma SampleSubmitter(k: nat)
    ensures SampleRun(k).pushed == (if k == 1 then {0} else {}) && SampleRun(k).won == if k == 2 then {0} else {}
  {
  }

  // There are fair runs in which work is submitted.
  lemma FairRunExists()
    ensures IsRun(SampleRun, SampleSchedule) && Fair(SampleRun, SampleSchedule) && SampleRun(1).submittedNew == [7]
  {
    forall k: nat ensures StepAt(SampleRun, SampleSchedule, k) {
      SampleStepAt(k);
    }
    assert SampleSchedule(1) == CompareAndSwap(0) && SampleSchedule(2) == WriteEventfd(0);
    forall i: nat, t | t in SampleRun(i).pushed ensures Happens(SampleSchedule, i, CompareAndSwap(t)) {
      SampleSubmitter(i);
    }
    forall i: nat, t | t in SampleRun(i).won ensures Happens(SampleSchedule, i, WriteEventfd(t)) {
      SampleSubmitter(i);
    }
    assert LoopProgress(SampleSchedule(12));
  }
}
