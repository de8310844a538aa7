/**
 The shared task lists, the wake-up flag and the part of the scheduler loop that empties the lists
 (`TaskManager`, `AddNewTask` / `AddReadyTask`, `Epoll::Wakeup`, and the body of
 `SchedulerImpl::Loop` from the swap to the end of the round), as the mutable objects they
 are, tied step by step to the transition system of `WakeupProtocol`. While the loop runs its
 tasks the submitting threads go on with theirs.
 */
module TaskLists {
  import opened WakeupProtocol

  class TaskManager {
    var newTasks: seq<Task>
    var readyTasks: seq<Task>

    constructor ()
      ensures newTasks == [] && readyTasks == []
    {
      newTasks, readyTasks := [], [];
    }

    method AddNewTasks(task: Task)
      modifies this`newTasks
      ensures newTasks == old(newTasks) + [task]
    {
      newTasks := newTasks + [task];
    }

    method AddReadyTasks(task: Task)
      modifies this`readyTasks
      ensures readyTasks == old(readyTasks) + [task]
    {
      readyTasks := readyTasks + [task];
    }

    // Swaps each caller's list with the shared one when the shared one is not empty.
    method GetAllTasks(newIn: seq<Task>, readyIn: seq<Task>) returns (newOut: seq<Task>, readyOut: seq<Task>)
      modifies this
      ensures (newOut, newTasks) == SwapIfNonEmpty(newIn, old(newTasks))
      ensures (readyOut, readyTasks) == SwapIfNonEmpty(readyIn, old(readyTasks))
      ensures old(newTasks) != [] ==> newOut == old(newTasks) && newTasks == newIn
      ensures old(newTasks) == [] ==> newOut == newIn && newTasks == []
      ensures old(readyTasks) != [] ==> readyOut == old(readyTasks) && readyTasks == readyIn
      ensures old(readyTasks) == [] ==> readyOut == readyIn && readyTasks == []
    {
      newOut, readyOut := newIn, readyIn;
      if newTasks != [] {
        newOut, newTasks := newTasks, newOut;
      }
      if readyTasks != [] {
        readyOut, readyTasks := readyTasks, readyOut;
      }
    }
  }

  // What the loop and the submitting threads share, and where each of those threads is.
  class Shared {
    const tasks: TaskManager
    var isWakeup: bool
    var counter: nat          // the eventfd
    var edge: bool
    var pushed: set<Thread>
    var won: set<Thread>

    constructor ()
      ensures fresh(tasks) && Shows(INITIAL)
    {
      tasks := new TaskManager();
      isWakeup, counter, edge, pushed, won := false, 0, false, {}, {};
    }

    ghost predicate Shows(s: State)
      reads this, tasks
    {
      && tasks.newTasks == s.newQueue && tasks.readyTasks == s.readyQueue
      && isWakeup == s.flag && counter == s.counter && edge == s.edge
      && pushed == s.pushed && won == s.won
    }

    method Push(who: Thread, task: Task, isNew: bool, ghost s: State) returns (ghost t: State)
      requires Shows(s) && Idle(s, who)
      modifies this`pushed, tasks
      ensures t == Apply(s, if isNew then SubmitNew(who, task) else SubmitReady(who, task)) && Shows(t)
    {
      if isNew {
        tasks.AddNewTasks(task);
      } else {
        tasks.AddReadyTasks(task);
      }
      pushed := pushed + {who};
      t := Apply(s, if isNew then SubmitNew(who, task) else SubmitReady(who, task));
    }

    // atomic_compare_swap(&is_wakeup_, false, true)
    method TryRaise(who: Thread, ghost s: State) returns (ghost t: State)
      requires Shows(s) && who in s.pushed
      modifies this
      ensures t == Apply(s, CompareAndSwap(who)) && Shows(t)
    {
      pushed := pushed - {who};
      if !isWakeup {
        isWakeup := true;
        won := won + {who};
      }
      t := Apply(s, CompareAndSwap(who));
    }

    // The write to the eventfd; one that would overflow the counter is refused.
    method Signal(who: Thread, ghost s: State) returns (ghost t: State)
      requires Shows(s) && who in s.won
      modifies this
      ensures t == Apply(s, WriteEventfd(who)) && Shows(t)
    {
      won := won - {who};
      if counter < MAX_COUNTER {
        counter, edge := counter + 1, true;
      }
      t := Apply(s, WriteEventfd(who));
    }

    // AddNewTask or AddReadyTask from beginning to end: first comes the push, and when the call
    // returns the flag is up, so somebody has signalled the loop or is about to.
    method AddTask(who: Thread, task: Task, isNew: bool, ghost s: State) returns (ghost t: State)
      requires Shows(s) && Idle(s, who) && Inv(s)
      modifies this, tasks
      ensures Shows(t) && Reaches(s, t) && OnlySubmits(s, t) && Idle(t, who) && t.flag
      ensures isNew ==> t.newQueue == s.newQueue + [task] && t.readyQueue == s.readyQueue
      ensures !isNew ==> t.readyQueue == s.readyQueue + [task] && t.newQueue == s.newQueue
      ensures s.flag ==> t.counter == s.counter && t.won == s.won
      ensures !s.flag ==> t.counter == 1 && t.edge && t.won == s.won == {}
    {
      t := Push(who, task, isNew, s);
      ReachesItself(s);
      ReachesNext(s, s, if isNew then SubmitNew(who, task) else SubmitReady(who, task));
      ReachesNext(s, t, CompareAndSwap(who));
      t := TryRaise(who, t);
      if who in won {
        ReachesNext(s, t, WriteEventfd(who));
        t := Signal(who, t);
      }
    }

    // Anything that the submitting threads may do in the meantime, each at its own pace; what is not
    // a thread's next step does not happen.
    method Others(script: seq<Event>, ghost s: State) returns (ghost t: State)
      requires Shows(s)
      modifies this, tasks
      ensures t == ActAll(s, script) && Shows(t) && Reaches(s, t) && OnlySubmits(s, t)
    {
      t := s;
      for i := 0 to |script|
        invariant t == ActAll(s, script[..i]) && Shows(t)
      {
        assert script[..i + 1][..i] == script[..i];
        t := Other(script[i], t);
      }
      assert script[..|script|] == script;
      ActAllOnlySubmits(s, script);
    }

    method Other(e: Event, ghost s: State) returns (ghost t: State)
      requires Shows(s)
      modifies this, tasks
      ensures t == Act(s, e) && Shows(t)
    {
      t := s;
      match e {
        case SubmitNew(who, task) =>
          if who !in pushed && who !in won { t := Push(who, task, true, s); }
        case SubmitReady(who, task) =>
          if who !in pushed && who !in won { t := Push(who, task, false, s); }
        case CompareAndSwap(who) =>
          if who in pushed { t := TryRaise(who, s); }
        case WriteEventfd(who) =>
          if who in won { t := Signal(who, s); }
        case _ =>
      }
    }

    // A task of the loop runs, and with it whatever the others do meanwhile.
    method RunTask(ghost e: Event, script: seq<Event>, ghost s: State) returns (ghost t: State)
      requires Shows(s) && (e == StartNew || e == ResumeReady) && Enabled(s, e)
      modifies this, tasks
      ensures t == ActAll(StepIfEnabled(s, e), script) && Shows(t)
    {
      t := Others(script, Apply(s, e));
    }
  }

  // A submitter's step, if it is one and can be taken.
  function Act(s: State, e: Event): State {
    if (e.SubmitNew? || e.SubmitReady? || e.CompareAndSwap? || e.WriteEventfd?) && Enabled(s, e) then Apply(s, e) else s
  }

  function ActAll(s: State, script: seq<Event>): State {
    if script == [] then s else Act(ActAll(s, script[..|script| - 1]), script[|script| - 1])
  }

  function StepIfEnabled(s: State, e: Event): State {
    if Enabled(s, e) then Apply(s, e) else s
  }

  // The loop runs n tasks of a list, each by the step e; while the i-th runs, other threads do
  // meanwhile(i).
  function WorkOff(s: State, e: Event, meanwhile: nat -> seq<Event>, n: nat): State {
    if n == 0 then s
    else ActAll(StepIfEnabled(WorkOff(s, e, meanwhile, n - 1), e), meanwhile(n - 1))
  }

  lemma ActOnlySubmits(s: State, e: Event)
    ensures OnlySubmits(s, Act(s, e))
  {
  }

  lemma {:induction false} ActAllOnlySubmits(s: State, script: seq<Event>)
    ensures Reaches(s, ActAll(s, script)) && OnlySubmits(s, ActAll(s, script))
    decreases |script|
  {
    if script == [] {
      ReachesItself(s);
    } else {
      var n := |script| - 1;
      var t := ActAll(s, script[..n]);
      ActAllOnlySubmits(s, script[..n]);
      ActOnlySubmits(t, script[n]);
      if Act(t, script[n]) != t {
        ReachesNext(s, t, script[n]);
      }
    }
  }

  // One task runs, and others act meanwhile.
  lemma TaskStep(s: State, t: State, e: Event, script: seq<Event>)
    requires Reaches(s, t) && Enabled(t, e)
    ensures var u := ActAll(StepIfEnabled(t, e), script); Reaches(s, u) && OnlySubmits(Apply(t, e), u)
  {
    var u := Apply(t, e);
    ReachesNext(s, t, e);
    ActAllOnlySubmits(u, script);
    ReachesTransitive(s, u, ActAll(u, script));
  }

  // The loop runs exactly the first n tasks of its list, in order, whatever the others do.
  lemma {:induction false} StartsInOrder(s: State, meanwhile: nat -> seq<Event>, n: nat)
    requires s.pc == RunningNew(0) && n <= |s.newList|
    ensures var t := WorkOff(s, StartNew, meanwhile, n);
            && Reaches(s, t) && t.pc == RunningNew(n) && t.newList == s.newList && t.readyList == s.readyList
            && t.startedNew == s.startedNew + s.newList[..n] && t.resumedReady == s.resumedReady
  {
    if n == 0 {
      ReachesItself(s);
    } else {
      StartsInOrder(s, meanwhile, n - 1);
      TaskStep(s, WorkOff(s, StartNew, meanwhile, n - 1), StartNew, meanwhile(n - 1));
      OneMore(s.startedNew, s.newList, n - 1);
    }
  }

  lemma {:induction false} ResumesInOrder(s: State, meanwhile: nat -> seq<Event>, n: nat)
    requires s.pc == RunningReady(0) && n <= |s.readyList|
    ensures var t := WorkOff(s, ResumeReady, meanwhile, n);
            && Reaches(s, t) && t.pc == RunningReady(n) && t.newList == s.newList && t.readyList == s.readyList
            && t.resumedReady == s.resumedReady + s.readyList[..n] && t.startedNew == s.startedNew
  {
    if n == 0 {
      ReachesItself(s);
    } else {
      ResumesInOrder(s, meanwhile, n - 1);
      TaskStep(s, WorkOff(s, ResumeReady, meanwhile, n - 1), ResumeReady, meanwhile(n - 1));
      OneMore(s.resumedReady, s.readyList, n - 1);
    }
  }

  lemma OneMore(log: seq<Task>, list: seq<Task>, i: nat)
    requires i < |list|
    ensures (log + list[..i]) + [list[i]] == log + list[..i + 1]
  {
  }

  function NewTasksRun(s: State, meanwhile: nat -> seq<Event>): State {
    StepIfEnabled(WorkOff(s, StartNew, meanwhile, |s.newList|), EndNew)
  }

  function ReadyTasksRun(s: State, meanwhile: nat -> seq<Event>): State {
    StepIfEnabled(WorkOff(s, ResumeReady, meanwhile, |s.readyList|), EndReady)
  }

  lemma StartsNext(s: State, meanwhile: nat -> seq<Event>, i: nat)
    requires s.pc == RunningNew(0) && i < |s.newList|
    ensures var t := WorkOff(s, StartNew, meanwhile, i);
            && Enabled(t, StartNew)
            && WorkOff(s, StartNew, meanwhile, i + 1) == ActAll(StepIfEnabled(t, StartNew), meanwhile(i))
  {
    StartsInOrder(s, meanwhile, i);
  }

  lemma ResumesNext(s: State, meanwhile: nat -> seq<Event>, i: nat)
    requires s.pc == RunningReady(0) && i < |s.readyList|
    ensures var t := WorkOff(s, ResumeReady, meanwhile, i);
            && Enabled(t, ResumeReady)
            && WorkOff(s, ResumeReady, meanwhile, i + 1) == ActAll(StepIfEnabled(t, ResumeReady), meanwhile(i))
  {
    ResumesInOrder(s, meanwhile, i);
  }

  lemma NewTasksAllRun(s: State, meanwhile: nat -> seq<Event>)
    requires s.pc == RunningNew(0)
    ensures var u, t := WorkOff(s, StartNew, meanwhile, |s.newList|), NewTasksRun(s, meanwhile);
            && Reaches(s, t) && t.pc == RunningReady(0) && t.newList == [] && t.readyList == s.readyList
            && t.startedNew == s.startedNew + s.newList && t.resumedReady == s.resumedReady && SameShared(u, t)
  {
    StartsInOrder(s, meanwhile, |s.newList|);
    assert s.newList[..|s.newList|] == s.newList;
    ReachesNext(s, WorkOff(s, StartNew, meanwhile, |s.newList|), EndNew);
  }

  lemma ReadyTasksAllRun(s: State, meanwhile: nat -> seq<Event>)
    requires s.pc == RunningReady(0)
    ensures var u, t := WorkOff(s, ResumeReady, meanwhile, |s.readyList|), ReadyTasksRun(s, meanwhile);
            && Reaches(s, t) && t.pc == Collecting && t.newList == s.newList && t.readyList == []
            && t.resumedReady == s.resumedReady + s.readyList && t.startedNew == s.startedNew && SameShared(u, t)
  {
    ResumesInOrder(s, meanwhile, |s.readyList|);
    assert s.readyList[..|s.readyList|] == s.readyList;
    ReachesNext(s, WorkOff(s, ResumeReady, meanwhile, |s.readyList|), EndReady);
  }

  // What `Shared` holds is the same in both.
  predicate SameShared(s: State, t: State) {
    && t.newQueue == s.newQueue && t.readyQueue == s.readyQueue && t.flag == s.flag && t.counter == s.counter
    && t.edge == s.edge && t.pushed == s.pushed && t.won == s.won
  }

  // Between s and t only submitters have acted.
  ghost predicate OnlySubmits(s: State, t: State) {
    && t.pc == s.pc && t.newList == s.newList && t.readyList == s.readyList
    && t.startedNew == s.startedNew && t.resumedReady == s.resumedReady
  }

  class LoopLists {
    const shared: Shared
    var newTaskList: seq<Task>
    var readyTaskList: seq<Task>

    constructor (shared: Shared)
      ensures this.shared == shared && newTaskList == [] && readyTaskList == []
    {
      this.shared := shared;
      newTaskList, readyTaskList := [], [];
    }

    // The object is the loop's view of a protocol state.
    ghost predicate Shows(s: State)
      reads this, shared, shared.tasks
    {
      newTaskList == s.newList && readyTaskList == s.readyList && shared.Shows(s)
    }

    // `for (func : newTaskList) Resume(...)`, then clear. While the i-th task runs, other threads do
    // meanwhile(i).
    method StartNewTasks(meanwhile: nat -> seq<Event>, ghost s: State) returns (started: seq<Task>, ghost t: State)
      requires Shows(s) && s.pc == RunningNew(0)
      modifies this`newTaskList, shared, shared.tasks
      ensures started == old(newTaskList)
      ensures Shows(t) && Reaches(s, t) && t.pc == RunningReady(0) && t.newList == [] && t.readyList == s.readyList
      ensures t.startedNew == s.startedNew + started && t.resumedReady == s.resumedReady
      ensures t == NewTasksRun(s, meanwhile)
    {
      started, t := [], s;
      var i := 0;
      while i < |newTaskList|
        invariant 0 <= i <= |newTaskList| && newTaskList == s.newList && started == newTaskList[..i]
        invariant shared.Shows(t) && t == WorkOff(s, StartNew, meanwhile, i)
      {
        StartsNext(s, meanwhile, i);
        started := started + [newTaskList[i]];
        t := shared.RunTask(StartNew, meanwhile(i), t);
        i := i + 1;
      }
      newTaskList := [];
      NewTasksAllRun(s, meanwhile);
      t := NewTasksRun(s, meanwhile);
    }

    // `for (co : readyTaskList) Resume(co)`, then clear.
    method ResumeReadyTasks(meanwhile: nat -> seq<Event>, ghost s: State) returns (resumed: seq<Task>, ghost t: State)
      requires Shows(s) && s.pc == RunningReady(0)
      modifies this`readyTaskList, shared, shared.tasks
      ensures resumed == old(readyTaskList)
      ensures Shows(t) && Reaches(s, t) && t.pc == Collecting && t.newList == s.newList && t.readyList == []
      ensures t.resumedReady == s.resumedReady + resumed && t.startedNew == s.startedNew
      ensures t == ReadyTasksRun(s, meanwhile)
    {
      resumed, t := [], s;
      var i := 0;
      while i < |readyTaskList|
        invariant 0 <= i <= |readyTaskList| && readyTaskList == s.readyList && resumed == readyTaskList[..i]
        invariant shared.Shows(t) && t == WorkOff(s, ResumeReady, meanwhile, i)
      {
        ResumesNext(s, meanwhile, i);
        resumed := resumed + [readyTaskList[i]];
        t := shared.RunTask(ResumeReady, meanwhile(i), t);
        i := i + 1;
      }
      readyTaskList := [];
      ReadyTasksAllRun(s, meanwhile);
      t := ReadyTasksRun(s, meanwhile);
    }

    // One round of the loop after its events: swap, start the new tasks, resume the ready ones.
    // `started` and `resumed` are what ran, in that order. The round is a run of the protocol. It
    // runs everything that was submitted before the swap, and whatever other threads submit while
    // it runs is queued in order for the next round.
    method RunTasks(duringNew: nat -> seq<Event>, duringReady: nat -> seq<Event>, ghost s: State)
      returns (started: seq<Task>, resumed: seq<Task>, ghost t: State)
      requires Inv(s) && s.pc.Swapping? && Shows(s)
      modifies this, shared, shared.tasks
      ensures started == old(shared.tasks.newTasks) && resumed == old(shared.tasks.readyTasks)
      ensures Reaches(s, t) && Shows(t) && t.pc.Collecting? && Inv(t)
      ensures t == ReadyTasksRun(NewTasksRun(Apply(s, SwapLists), duringNew), duringReady)
      ensures t.startedNew == s.startedNew + started == s.submittedNew
      ensures t.resumedReady == s.resumedReady + resumed == s.submittedReady
      ensures t.submittedNew == s.submittedNew + shared.tasks.newTasks
      ensures t.submittedReady == s.submittedReady + shared.tasks.readyTasks
    {
      newTaskList, readyTaskList := shared.tasks.GetAllTasks(newTaskList, readyTaskList);
      ghost var swapped := SwapTakesEverything(s);
      ghost var u;
      started, u := StartNewTasks(duringNew, swapped);
      resumed, t := ResumeReadyTasks(duringReady, u);
      ReachesTransitive(s, swapped, u);
      ReachesTransitive(s, u, t);
      ReachedKeepsInv(s, t);
      assert t.startedNew + [] == t.startedNew && t.resumedReady + [] == t.resumedReady;
    }
  }

  lemma ReachedKeepsInv(s: State, t: State)
    requires Inv(s) && Reaches(s, t)
    ensures Inv(t)
  {
    var events :| Legal(s, events) && Exec(s, events) == t;
    RunsKeepInv(s, events);
  }

  // Some interleaving leads from s to t.
  ghost predicate Reaches(s: State, t: State) {
    exists events :: Legal(s, events) && Exec(s, events) == t
  }

  lemma ReachesItself(s: State)
    ensures Reaches(s, s)
  {
    assert Legal(s, []) && Exec(s, []) == s;
  }

  lemma ReachesNext(s: State, t: State, e: Event)
    requires Reaches(s, t) && Enabled(t, e)
    ensures Reaches(s, Apply(t, e))
  {
    var events :| Legal(s, events) && Exec(s, events) == t;
    Concatenate(s, events, [e]);
  }

  lemma ReachesTransitive(s: State, t: State, u: State)
    requires Reaches(s, t) && Reaches(t, u)
    ensures Reaches(s, u)
  {
    var before :| Legal(s, before) && Exec(s, before) == t;
    var after :| Legal(t, after) && Exec(t, after) == u;
    Concatenate(s, before, after);
  }

  // A run can be continued by any run from its last state.
  lemma {:induction false} Concatenate(s: State, before: seq<Event>, after: seq<Event>)
    requires Legal(s, before) && Legal(Exec(s, before), after)
    ensures Legal(s, before + after)
    ensures Exec(s, before + after) == Exec(Exec(s, before), after)
    decreases |before|
  {
    if before == [] {
      assert before + after == after;
    } else {
      Concatenate(Apply(s, before[0]), before[1..], after);
      assert (before + after)[1..] == before[1..] + after;
    }
  }

  // A run of two parts is a run of the first and then of the second.
  lemma {:induction false} SplitRun(s: State, before: seq<Event>, after: seq<Event>)
    requires Legal(s, before + after)
    ensures Legal(s, before) && Legal(Exec(s, before), after)
    ensures Exec(s, before + after) == Exec(Exec(s, before), after)
    decreases |before|
  {
    if before == [] {
      assert before + after == after;
    } else {
      assert (before + after)[0] == before[0] && (before + after)[1..] == before[1..] + after;
      SplitRun(Apply(s, before[0]), before[1..], after);
    }
  }

  predicate BySubmitters(script: seq<Event>) {
    forall k :: 0 <= k < |script| ==>
      script[k].SubmitNew? || script[k].SubmitReady? || script[k].CompareAndSwap? || script[k].WriteEventfd?
  }

  // A script of submitters that is a run is taken as it is.
  lemma {:induction false} ScriptIsTheRun(s: State, script: seq<Event>)
    requires BySubmitters(script) && Legal(s, script)
    ensures ActAll(s, script) == Exec(s, script)
    decreases |script|
  {
    if script != [] {
      var n := |script| - 1;
      assert script == script[..n] + [script[n]];
      SplitRun(s, script[..n], [script[n]]);
      ScriptIsTheRun(s, script[..n]);
      var u := Exec(s, script[..n]);
      assert [script[n]][1..] == [] && Exec(u, [script[n]]) == Exec(Apply(u, script[n]), []);
    }
  }

  // The loop's tasks with what the others do while each of them runs, as one sequence of events.
  function Interleaved(e: Event, meanwhile: nat -> seq<Event>, n: nat): seq<Event> {
    if n == 0 then [] else Interleaved(e, meanwhile, n - 1) + ([e] + meanwhile(n - 1))
  }

  // Working off a list is that run: every task and every step of the others takes place, in order.
  lemma {:induction false} WorkOffIsTheRun(s: State, e: Event, meanwhile: nat -> seq<Event>, n: nat)
    requires (forall k :: 0 <= k < n ==> BySubmitters(meanwhile(k))) && Legal(s, Interleaved(e, meanwhile, n))
    ensures WorkOff(s, e, meanwhile, n) == Exec(s, Interleaved(e, meanwhile, n))
  {
    if n != 0 {
      var script := meanwhile(n - 1);
      SplitRun(s, Interleaved(e, meanwhile, n - 1), [e] + script);
      WorkOffIsTheRun(s, e, meanwhile, n - 1);
      var u := WorkOff(s, e, meanwhile, n - 1);
      SplitRun(u, [e], script);
      assert [e][1..] == [] && Exec(u, [e]) == Apply(u, e);
      ScriptIsTheRun(Apply(u, e), script);
    }
  }

  // At a swap the local lists are empty, so the loop gets exactly what was queued and leaves nothing.
  lemma SwapTakesEverything(s: State) returns (t: State)
    requires Inv(s) && s.pc.Swapping?
    ensures Reaches(s, t) && t == Apply(s, SwapLists)
    ensures t == s.(newList := s.newQueue, newQueue := [],
                    readyList := s.readyQueue, readyQueue := [], pc := RunningNew(0))
    ensures s.submittedNew == s.startedNew + s.newQueue
    ensures s.submittedReady == s.resumedReady + s.readyQueue
  {
    t := Apply(s, SwapLists);
    ReachesItself(s);
    ReachesNext(s, s, SwapLists);
  }
}
