/**
 The channel as a protocol: a bounded buffer of values plus one wait queue shared by
 blocked readers and blocked writers. A waiter's context moves once, from Init to Ready
 (a peer won the compare-and-swap) or to Timeout (the timer won it); a timed-out context
 stays in the queue until some peer pops it.

 Every read and every write is recorded as an operation, in arrival order.
 */
module ChannelProtocol {
  import opened Basics

  datatype Kind = Read | Write

  function Other(k: Kind): Kind {
    if k == Read then Write else Read
  }

  // A read or a write; `value` is its memory cell: what a write offers, what a read got.
  datatype Op<V> = Op(kind: Kind, value: V, state: CtxState)

  datatype State<V> = State(
    cap: nat,
    buffer: seq<V>,
    queue: seq<nat>,     // the wait queue, as indices into ops
    ops: seq<Op<V>>)

  datatype Event<V> =
    | DoRead(cell: V)    // cell: what the destination held before
    | DoWrite(value: V)
    | Expire(op: nat)    // the timer wins the compare-and-swap on a waiting context

  predicate Live<V>(ops: seq<Op<V>>, i: nat) {
    i < |ops| && ops[i].state.Init?
  }

  // Pop until a context that is still Init: the rest of the queue, headed by it.
  function PopDead<V>(ops: seq<Op<V>>, queue: seq<nat>): seq<nat> {
    if queue == [] || Live(ops, queue[0]) then queue else PopDead(ops, queue[1..])
  }

  lemma {:induction false} PopDeadIsSuffix<V>(ops: seq<Op<V>>, queue: seq<nat>)
    ensures var q := PopDead(ops, queue);
            && |q| <= |queue|
            && q == queue[|queue| - |q|..]
            && (forall i :: 0 <= i < |queue| - |q| ==> !Live(ops, queue[i]))
            && (q != [] ==> Live(ops, q[0]))
  {
    if queue == [] || Live(ops, queue[0]) {
    } else {
      PopDeadIsSuffix(ops, queue[1..]);
      var q := PopDead(ops, queue);
      forall i | 0 <= i < |queue| - |q| ensures !Live(ops, queue[i]) {
        if i > 0 { assert queue[i] == queue[1..][i - 1]; }
      }
    }
  }

  predicate Enabled<V>(s: State<V>, e: Event<V>) {
    e.Expire? ==> Live(s.ops, e.op)
  }

  function ReadStep<V>(s: State<V>, cell: V): State<V> {
    if s.buffer == [] then
      s.(queue := s.queue + [|s.ops|], ops := s.ops + [Op(Read, cell, Init)])
    else
      var done := Op(Read, s.buffer[0], Ready);
      if |s.buffer| < s.cap then
        s.(buffer := s.buffer[1..], ops := s.ops + [done])
      else
        PopDeadIsSuffix(s.ops, s.queue);
        var q := PopDead(s.ops, s.queue);
        if q == [] then
          s.(buffer := s.buffer[1..], queue := [], ops := s.ops + [done])
        else
          var w := s.ops[q[0]];
          s.(buffer := s.buffer[1..] + [w.value], queue := q[1..],
             ops := s.ops[q[0] := w.(state := Ready)] + [done])
  }

  function WriteStep<V>(s: State<V>, value: V): State<V> {
    var done := Op(Write, value, Ready);
    if s.buffer == [] then
      PopDeadIsSuffix(s.ops, s.queue);
      var q := PopDead(s.ops, s.queue);
      if q == [] then
        s.(buffer := [value], queue := [], ops := s.ops + [done])
      else
        s.(queue := q[1..], ops := s.ops[q[0] := s.ops[q[0]].(value := value, state := Ready)] + [done])
    else if |s.buffer| < s.cap then
      s.(buffer := s.buffer + [value], ops := s.ops + [done])
    else
      s.(queue := s.queue + [|s.ops|], ops := s.ops + [Op(Write, value, Init)])
  }

  function Apply<V>(s: State<V>, e: Event<V>): State<V>
    requires Enabled(s, e)
  {
    match e
    case DoRead(cell) => ReadStep(s, cell)
    case DoWrite(value) => WriteStep(s, value)
    case Expire(i) => s.(ops := s.ops[i := s.ops[i].(state := Timeout)])
  }

  predicate Legal<V>(s: State<V>, events: seq<Event<V>>)
    decreases |events|
  {
    events == [] || (Enabled(s, events[0]) && Legal(Apply(s, events[0]), events[1..]))
  }

  function Exec<V>(s: State<V>, events: seq<Event<V>>): State<V>
    requires Legal(s, events)
    decreases |events|
  {
    if events == [] then s else Exec(Apply(s, events[0]), events[1..])
  }

  function Empty<V>(cap: nat): State<V> {
    State(cap, [], [], [])
  }

  // ---------------------------------------------------------------- selecting operations

  datatype Filter = OnlyReady | OnlyInit | NotTimedOut

  predicate Wanted(which: Filter, state: CtxState) {
    match which
    case OnlyReady => state.Ready?
    case OnlyInit => state.Init?
    case NotTimedOut => !state.Timeout?
  }

  // The operations of one kind whose context is in a wanted state, in arrival order.
  function Pick<V>(ops: seq<Op<V>>, kind: Kind, which: Filter): seq<Op<V>> {
    if ops == [] then []
    else
      var o := ops[|ops| - 1];
      Pick(ops[..|ops| - 1], kind, which) + if o.kind == kind && Wanted(which, o.state) then [o] else []
  }

  function Values<V>(ops: seq<Op<V>>): seq<V> {
    seq(|ops|, i requires 0 <= i < |ops| => ops[i].value)
  }

  // What peers have completed, what survives (was not timed out), and what still waits.
  function Completed<V>(ops: seq<Op<V>>, kind: Kind): seq<Op<V>> {
    Pick(ops, kind, OnlyReady)
  }

  function Surviving<V>(ops: seq<Op<V>>, kind: Kind): seq<Op<V>> {
    Pick(ops, kind, NotTimedOut)
  }

  function Blocked<V>(ops: seq<Op<V>>, kind: Kind): seq<Op<V>> {
    Pick(ops, kind, OnlyInit)
  }

  lemma {:induction false} ValuesAppend<V>(ops: seq<Op<V>>, o: Op<V>)
    ensures Values(ops + [o]) == Values(ops) + [o.value]
  {
    assert forall i :: 0 <= i < |ops| ==> (ops + [o])[i] == ops[i];
  }

  lemma {:induction false} PickAppend<V>(ops: seq<Op<V>>, o: Op<V>, kind: Kind, which: Filter)
    ensures o.kind == kind && Wanted(which, o.state) ==> Pick(ops + [o], kind, which) == Pick(ops, kind, which) + [o]
    ensures o.kind != kind || !Wanted(which, o.state) ==> Pick(ops + [o], kind, which) == Pick(ops, kind, which)
  {
    assert (ops + [o])[..|ops|] == ops;
  }

  // Changing an operation that is picked neither before nor after does not change the pick.
  lemma {:induction false} PickIgnores<V>(ops: seq<Op<V>>, i: nat, o: Op<V>, kind: Kind, which: Filter)
    requires i < |ops| && o.kind == ops[i].kind
    requires o.kind == kind ==> !Wanted(which, ops[i].state) && !Wanted(which, o.state)
    ensures Pick(ops[i := o], kind, which) == Pick(ops, kind, which)
  {
    var n := |ops| - 1;
    if i == n {
      assert ops[i := o][..n] == ops[..n];
    } else {
      assert ops[i := o][..n] == ops[..n][i := o];
      PickIgnores(ops[..n], i, o, kind, which);
    }
  }

  // An operation that becomes picked goes to the end of the pick if nothing after it is picked.
  lemma {:induction false} PickExtends<V>(ops: seq<Op<V>>, i: nat, o: Op<V>, kind: Kind, which: Filter)
    requires i < |ops| && ops[i].kind == o.kind == kind
    requires !Wanted(which, ops[i].state) && Wanted(which, o.state)
    requires forall j :: i < j < |ops| && ops[j].kind == kind ==> !Wanted(which, ops[j].state)
    ensures Pick(ops[i := o], kind, which) == Pick(ops, kind, which) + [o]
  {
    var n := |ops| - 1;
    if i == n {
      assert ops[i := o][..n] == ops[..n];
    } else {
      assert ops[i := o][..n] == ops[..n][i := o];
      PickExtends(ops[..n], i, o, kind, which);
    }
  }

  // No operation completes while an earlier one of its kind still waits.
  predicate Fifo<V>(ops: seq<Op<V>>) {
    forall i, j :: 0 <= i < j < |ops| && ops[i].kind == ops[j].kind && ops[i].state.Init? ==> !ops[j].state.Ready?
  }

  lemma {:induction false} SurvivorsSplit<V>(ops: seq<Op<V>>, kind: Kind)
    requires Fifo(ops)
    ensures Surviving(ops, kind) == Completed(ops, kind) + Blocked(ops, kind)
  {
    if ops != [] {
      var n := |ops| - 1;
      SurvivorsSplit(ops[..n], kind);
      if ops[n].kind == kind && ops[n].state.Ready? {
        NothingPicked(ops[..n], kind, OnlyInit);
      }
    }
  }

  lemma {:induction false} NothingPicked<V>(ops: seq<Op<V>>, kind: Kind, which: Filter)
    requires forall i :: 0 <= i < |ops| && ops[i].kind == kind ==> !Wanted(which, ops[i].state)
    ensures Pick(ops, kind, which) == []
  {
    if ops != [] {
      NothingPicked(ops[..|ops| - 1], kind, which);
    }
  }

  lemma {:induction false} PickedStates<V>(ops: seq<Op<V>>, kind: Kind, which: Filter)
    ensures forall k :: 0 <= k < |Pick(ops, kind, which)| ==>
              Pick(ops, kind, which)[k].kind == kind && Wanted(which, Pick(ops, kind, which)[k].state)
    ensures Pick(ops, kind, which) != [] ==>
              exists i :: 0 <= i < |ops| && ops[i].kind == kind && Wanted(which, ops[i].state)
  {
    if ops != [] {
      PickedStates(ops[..|ops| - 1], kind, which);
    }
  }

  // ---------------------------------------------------------------- the invariant

  // The queue holds waiting or timed-out operations in arrival order, and every waiting one.
  predicate QueueSound<V>(s: State<V>) {
    && (forall i :: i in s.queue ==> i < |s.ops| && !s.ops[i].state.Ready?)
    && (forall j, k :: 0 <= j < k < |s.queue| ==> s.queue[j] < s.queue[k])
    && (forall i :: 0 <= i < |s.ops| && s.ops[i].state.Init? ==> i in s.queue)
  }

  // Readers only on an empty buffer, writers only on a full one, nobody in between;
  // leftover timed-out entries included.
  predicate Homogeneous<V>(s: State<V>) {
    && (forall i :: i in s.queue && i < |s.ops| && s.ops[i].kind == Read ==> s.buffer == [])
    && (forall i :: i in s.queue && i < |s.ops| && s.ops[i].kind == Write ==> |s.buffer| == s.cap)
  }

  // What was written is what was read plus what is in the buffer.
  ghost predicate Conserved<V>(s: State<V>) {
    Values(Completed(s.ops, Write)) == Values(Completed(s.ops, Read)) + s.buffer
  }

  ghost predicate Inv<V>(s: State<V>) {
    && 1 <= s.cap && |s.buffer| <= s.cap
    && QueueSound(s) && Homogeneous(s) && Fifo(s.ops) && Conserved(s)
  }

  // The first live entry of the queue is the oldest waiting operation.
  lemma {:induction false} FirstLiveIsOldest<V>(s: State<V>)
    requires QueueSound(s) && PopDead(s.ops, s.queue) != []
    ensures var q := PopDead(s.ops, s.queue);
            && Live(s.ops, q[0])
            && q[0] in s.queue
            && (forall j :: 0 <= j < q[0] ==> !s.ops[j].state.Init?)
  {
    PopDeadIsSuffix(s.ops, s.queue);
    var q := PopDead(s.ops, s.queue);
    var n := |s.queue| - |q|;
    assert q[0] == s.queue[n];
    forall j | 0 <= j < |s.ops| && s.ops[j].state.Init? ensures q[0] <= j {
      var k :| 0 <= k < |s.queue| && s.queue[k] == j;
      assert Live(s.ops, s.queue[k]);
    }
  }

  // Dropping the queue up to an entry, with only dead entries before it, and completing that entry.
  lemma {:induction false} QueueDrop<V>(s: State<V>, n: nat, o: Op<V>)
    requires QueueSound(s) && n < |s.queue| && o.state.Ready?
    requires forall k :: 0 <= k < n ==> !Live(s.ops, s.queue[k])
    ensures s.queue[n] in s.queue && s.queue[n] < |s.ops|
    ensures QueueSound(s.(queue := s.queue[n + 1..], ops := s.ops[s.queue[n] := o]))
  {
    var rest := s.queue[n + 1..];
    forall i | i in rest ensures i in s.queue && i != s.queue[n] {
      var k :| 0 <= k < |rest| && rest[k] == i;
      assert s.queue[n] < s.queue[n + 1 + k] == i;
    }
    forall j | 0 <= j < |s.ops| && s.ops[j].state.Init? && j != s.queue[n] ensures j in rest {
      var k :| 0 <= k < |s.queue| && s.queue[k] == j;
      assert Live(s.ops, s.queue[k]);
      assert rest[k - n - 1] == j;
    }
  }

  // Popping up to and including the first live entry, and completing it, leaves a sound queue.
  lemma {:induction false} QueueAfterWake<V>(s: State<V>, o: Op<V>)
    requires QueueSound(s) && PopDead(s.ops, s.queue) != [] && o.state.Ready?
    ensures var q := PopDead(s.ops, s.queue);
            q[0] < |s.ops| && QueueSound(s.(queue := q[1..], ops := s.ops[q[0] := o]))
    ensures forall i :: i in PopDead(s.ops, s.queue)[1..] ==> i in s.queue
  {
    PopDeadIsSuffix(s.ops, s.queue);
    var q := PopDead(s.ops, s.queue);
    var n := |s.queue| - |q|;
    assert q[0] == s.queue[n] && q[1..] == s.queue[n + 1..];
    QueueDrop(s, n, o);
  }

  // Completing the oldest waiting operation appends it to the completed ones of its kind.
  lemma {:induction false} CompleteOldest<V>(ops: seq<Op<V>>, i: nat, o: Op<V>)
    requires Fifo(ops) && Live(ops, i) && o.kind == ops[i].kind && o.state.Ready?
    requires forall j :: 0 <= j < i ==> !ops[j].state.Init?
    ensures Fifo(ops[i := o])
    ensures Completed(ops[i := o], o.kind) == Completed(ops, o.kind) + [o]
    ensures Completed(ops[i := o], Other(o.kind)) == Completed(ops, Other(o.kind))
  {
    PickExtends(ops, i, o, o.kind, OnlyReady);
    PickIgnores(ops, i, o, Other(o.kind), OnlyReady);
  }

  lemma {:induction false} QueueAllDead<V>(s: State<V>)
    requires QueueSound(s) && PopDead(s.ops, s.queue) == []
    ensures forall i :: 0 <= i < |s.ops| ==> !s.ops[i].state.Init?
  {
    PopDeadIsSuffix(s.ops, s.queue);
  }

  // Recording an operation that completed at once.
  lemma {:induction false} AppendReady<V>(ops: seq<Op<V>>, o: Op<V>)
    requires Fifo(ops) && o.state.Ready?
    requires forall i :: 0 <= i < |ops| && ops[i].kind == o.kind ==> !ops[i].state.Init?
    ensures Fifo(ops + [o])
    ensures Completed(ops + [o], o.kind) == Completed(ops, o.kind) + [o]
    ensures Completed(ops + [o], Other(o.kind)) == Completed(ops, Other(o.kind))
  {
    PickAppend(ops, o, Read, OnlyReady);
    PickAppend(ops, o, Write, OnlyReady);
  }

  // A reader that finds the buffer empty, or a writer that finds it full, joins the queue.
  lemma {:induction false} BlockKeepsInv<V>(s: State<V>, o: Op<V>)
    requires Inv(s) && o.state.Init?
    requires if o.kind == Read then s.buffer == [] else |s.buffer| == s.cap
    ensures Inv(s.(queue := s.queue + [|s.ops|], ops := s.ops + [o]))
  {
    PickAppend(s.ops, o, Read, OnlyReady);
    PickAppend(s.ops, o, Write, OnlyReady);
    var queue := s.queue + [|s.ops|];
    assert queue[|s.queue|] == |s.ops|;
    forall i | i in s.queue || i == |s.ops| ensures i in queue { }
    forall j | 0 <= j < |s.queue| ensures s.queue[j] < |s.ops| { assert s.queue[j] in s.queue; }
  }

  // A read with nobody waiting.
  lemma {:induction false} TakeKeepsInv<V>(s: State<V>)
    requires Inv(s) && s.buffer != []
    requires forall i :: 0 <= i < |s.ops| ==> !s.ops[i].state.Init?
    ensures Inv(s.(buffer := s.buffer[1..], queue := [], ops := s.ops + [Op(Read, s.buffer[0], Ready)]))
  {
    var done := Op(Read, s.buffer[0], Ready);
    AppendReady(s.ops, done);
    ValuesAppend(Completed(s.ops, Read), done);
    assert s.buffer == [s.buffer[0]] + s.buffer[1..];
  }

  // A write with nobody waiting.
  lemma {:induction false} PutKeepsInv<V>(s: State<V>, value: V)
    requires Inv(s) && |s.buffer| < s.cap
    requires forall i :: 0 <= i < |s.ops| ==> !s.ops[i].state.Init?
    ensures Inv(s.(buffer := s.buffer + [value], queue := [], ops := s.ops + [Op(Write, value, Ready)]))
  {
    var done := Op(Write, value, Ready);
    AppendReady(s.ops, done);
    ValuesAppend(Completed(s.ops, Write), done);
  }

  lemma {:induction false} ReadKeepsInv<V>(s: State<V>, cell: V)
    requires Inv(s)
    ensures Inv(ReadStep(s, cell))
  {
    WaitersMatchBuffer(s);
    if s.buffer == [] {
      BlockKeepsInv(s, Op(Read, cell, Init));
    } else if |s.buffer| == s.cap && PopDead(s.ops, s.queue) != [] {
      ReadAndRefillKeepsInv(s, cell);
    } else {
      if |s.buffer| == s.cap { QueueAllDead(s); }
      TakeKeepsInv(s);
    }
  }

  // The read on a full buffer that also lets the oldest blocked writer in.
  lemma {:induction false} ReadAndRefillKeepsInv<V>(s: State<V>, cell: V)
    requires Inv(s) && |s.buffer| == s.cap && PopDead(s.ops, s.queue) != []
    ensures Inv(ReadStep(s, cell))
  {
    var q := PopDead(s.ops, s.queue);
    FirstLiveIsOldest(s);
    var w := s.ops[q[0]].(state := Ready);
    assert w.kind == Write;
    QueueAfterWake(s, w);
    CompleteOldest(s.ops, q[0], w);
    ValuesAppend(Completed(s.ops, Write), w);
    var done := Op(Read, s.buffer[0], Ready);
    AppendReady(s.ops[q[0] := w], done);
    ValuesAppend(Completed(s.ops, Read), done);
    Slide(Values(Completed(s.ops, Read)), s.buffer, w.value);
  }

  // One value out at the front and one in at the back.
  lemma Slide<V>(got: seq<V>, buffer: seq<V>, v: V)
    requires buffer != []
    ensures (got + buffer) + [v] == (got + [buffer[0]]) + (buffer[1..] + [v])
  {
  }

  lemma {:induction false} WriteKeepsInv<V>(s: State<V>, value: V)
    requires Inv(s)
    ensures Inv(WriteStep(s, value))
  {
    WaitersMatchBuffer(s);
    if s.buffer == [] && PopDead(s.ops, s.queue) != [] {
      HandOffKeepsInv(s, value);
    } else if |s.buffer| < s.cap {
      if s.buffer == [] { QueueAllDead(s); }
      PutKeepsInv(s, value);
    } else {
      BlockKeepsInv(s, Op(Write, value, Init));
    }
  }

  // The write on an empty buffer that hands its value to the oldest blocked reader.
  lemma {:induction false} HandOffKeepsInv<V>(s: State<V>, value: V)
    requires Inv(s) && s.buffer == [] && PopDead(s.ops, s.queue) != []
    ensures Inv(WriteStep(s, value))
  {
    var q := PopDead(s.ops, s.queue);
    FirstLiveIsOldest(s);
    var r := s.ops[q[0]].(value := value, state := Ready);
    assert r.kind == Read;
    QueueAfterWake(s, r);
    CompleteOldest(s.ops, q[0], r);
    ValuesAppend(Completed(s.ops, Read), r);
    var done := Op(Write, value, Ready);
    AppendReady(s.ops[q[0] := r], done);
    ValuesAppend(Completed(s.ops, Write), done);
  }

  lemma {:induction false} ExpireKeepsInv<V>(s: State<V>, i: nat)
    requires Inv(s) && Live(s.ops, i)
    ensures Inv(Apply(s, Expire(i)))
  {
    var o := s.ops[i].(state := Timeout);
    PickIgnores(s.ops, i, o, Read, OnlyReady);
    PickIgnores(s.ops, i, o, Write, OnlyReady);
  }

  lemma {:induction false} RunsKeepInv<V>(s: State<V>, events: seq<Event<V>>)
    requires Inv(s) && Legal(s, events)
    ensures Inv(Exec(s, events))
    decreases |events|
  {
    if events == [] {
    } else {
      StepKeepsInv(s, events[0]);
      RunsKeepInv(Apply(s, events[0]), events[1..]);
    }
  }

  // ---------------------------------------------------------------- theorems about every run

  // The k-th read that did not time out gets the value of the k-th write that did not time out;
  // it is still waiting only if fewer than k + 1 such writes have arrived. Delivered values,
  // buffer and blocked writers together are the surviving writes, in order.
  ghost predicate Paired<V>(s: State<V>) {
    var gets := Surviving(s.ops, Read);
    var puts := Surviving(s.ops, Write);
    && (forall k :: 0 <= k < |gets| && gets[k].state.Ready? ==> k < |puts| && gets[k].value == puts[k].value)
    && (forall k :: 0 <= k < |gets| && gets[k].state.Init? ==> |puts| <= k)
    && (forall k :: 0 <= k < |gets| ==> !gets[k].state.Timeout?)
    && Values(puts) == Values(Completed(s.ops, Read)) + s.buffer + Values(Blocked(s.ops, Write))
  }

  lemma {:induction false} Pairing<V>(cap: nat, events: seq<Event<V>>)
    requires 1 <= cap && Legal(Empty(cap), events)
    ensures Paired(Exec(Empty(cap), events))
  {
    RunsKeepInv(Empty(cap), events);
    PairingAt(Exec(Empty(cap), events));
  }

  lemma {:induction false} PairingAt<V>(s: State<V>)
    requires Inv(s)
    ensures Paired(s)
  {
    SurvivorsSplit(s.ops, Read);
    SurvivorsSplit(s.ops, Write);
    PickedStates(s.ops, Read, OnlyReady);
    PickedStates(s.ops, Read, OnlyInit);
    CompletedMatch(s);
    if Blocked(s.ops, Read) != [] {
      WaitersMatchBuffer(s);
      NothingPicked(s.ops, Write, OnlyInit);
    }
  }

  lemma {:induction false} CompletedMatch<V>(s: State<V>)
    requires Conserved(s)
    ensures var got, put := Completed(s.ops, Read), Completed(s.ops, Write);
            && |put| == |got| + |s.buffer|
            && (forall k :: 0 <= k < |got| ==> got[k].value == put[k].value)
    ensures Values(Completed(s.ops, Write) + Blocked(s.ops, Write)) ==
            Values(Completed(s.ops, Read)) + s.buffer + Values(Blocked(s.ops, Write))
  {
    var got, put := Completed(s.ops, Read), Completed(s.ops, Write);
    assert |Values(put)| == |got| + |s.buffer|;
    forall k | 0 <= k < |got| ensures got[k].value == put[k].value {
      assert Values(got)[k] == Values(put)[k];
    }
  }

  // An operation that is picked has as many picked before it as there are among the earlier ones.
  lemma {:induction false} PickAt<V>(ops: seq<Op<V>>, i: nat, kind: Kind, which: Filter)
    requires i < |ops| && ops[i].kind == kind && Wanted(which, ops[i].state)
    ensures var k := |Pick(ops[..i], kind, which)|; k < |Pick(ops, kind, which)| && Pick(ops, kind, which)[k] == ops[i]
    decreases |ops|
  {
    var n := |ops| - 1;
    if i < n {
      PickAt(ops[..n], i, kind, which);
      assert ops[..n][..i] == ops[..i];
    }
  }

  // How many earlier reads have survived: the rank of a read among the surviving ones.
  function ReadRank<V>(ops: seq<Op<V>>, i: nat): nat
    requires i <= |ops|
  {
    |Surviving(ops[..i], Read)|
  }

  // A read that a peer has completed holds the value of the surviving write of its own rank.
  lemma {:induction false} CompletedReadHasItsWrite<V>(s: State<V>, i: nat)
    requires Inv(s) && i < |s.ops| && s.ops[i].kind == Read && s.ops[i].state.Ready?
    ensures var k := ReadRank(s.ops, i);
            k < |Surviving(s.ops, Write)| && s.ops[i].value == Surviving(s.ops, Write)[k].value
  {
    var gets, k := Surviving(s.ops, Read), ReadRank(s.ops, i);
    PickAt(s.ops, i, Read, NotTimedOut);
    PairingAt(s);
    assert gets[k] == s.ops[i];
    assert gets[k].state.Ready?;
  }

  lemma {:induction false} WaitersMatchBuffer<V>(s: State<V>)
    requires Inv(s)
    ensures forall i: nat :: Live(s.ops, i) && s.ops[i].kind == Read ==> s.buffer == []
    ensures forall i: nat :: Live(s.ops, i) && s.ops[i].kind == Write ==> |s.buffer| == s.cap
    ensures 0 < |s.buffer| < s.cap ==> s.queue == []
  {
    if s.queue != [] {
      assert s.queue[0] in s.queue;
    }
  }

  // A live reader never waits on a channel that holds something, a live writer never on one
  // with room, readers and writers never wait together, and completion is first come, first served.
  lemma {:induction false} NoStuckWaiter<V>(cap: nat, events: seq<Event<V>>)
    requires 1 <= cap && Legal(Empty(cap), events)
    ensures var s := Exec(Empty(cap), events);
            && |s.buffer| <= cap
            && (forall i: nat :: Live(s.ops, i) && s.ops[i].kind == Read ==> s.buffer == [])
            && (forall i: nat :: Live(s.ops, i) && s.ops[i].kind == Write ==> |s.buffer| == cap)
            && (0 < |s.buffer| < cap ==> s.queue == [])
            && Fifo(s.ops)
  {
    RunsKeepInv(Empty(cap), events);
    CapIsFixed(Empty<V>(cap), events);
    WaitersMatchBuffer(Exec(Empty(cap), events));
  }

  lemma {:induction false} CapIsFixed<V>(s: State<V>, events: seq<Event<V>>)
    requires Legal(s, events)
    ensures Exec(s, events).cap == s.cap
    decreases |events|
  {
    if events != [] {
      CapIsFixed(Apply(s, events[0]), events[1..]);
    }
  }

  // ---------------------------------------------------------------- operations and the calls made

  // The calls of a run, in order, and the contexts whose timers won in it.
  function Calls<V>(events: seq<Event<V>>): seq<Event<V>> {
    if events == [] then [] else CallIn(events[0]) + Calls(events[1..])
  }

  function CallIn<V>(e: Event<V>): seq<Event<V>> {
    if e.Expire? then [] else [e]
  }

  function Expired<V>(events: seq<Event<V>>): set<nat> {
    if events == [] then {} else ExpiredIn(events[0]) + Expired(events[1..])
  }

  function ExpiredIn<V>(e: Event<V>): set<nat> {
    if e.Expire? then {e.op} else {}
  }

  // An operation is the record of a call: its kind, and what a write offers or a read's cell holds
  // as long as no peer has completed the read.
  ghost predicate RecordOf<V>(o: Op<V>, call: Event<V>) {
    match call
    case DoRead(cell) => o.kind == Read && (!o.state.Ready? ==> o.value == cell)
    case DoWrite(value) => o.kind == Write && o.value == value
    case Expire(_) => false
  }

  // The operations are the calls, one each, in order, and those have timed out whose timers won.
  ghost predicate Recorded<V>(ops: seq<Op<V>>, calls: seq<Event<V>>, expired: set<nat>) {
    RecordedUpTo(ops, calls, expired) && forall i :: i in expired ==> i < |ops|
  }

  // Completing an operation keeps the record.
  lemma {:induction false} CompleteKeepsRecord<V>(ops: seq<Op<V>>, calls: seq<Event<V>>, expired: set<nat>,
                                                     i: nat, o: Op<V>)
    requires Recorded(ops, calls, expired) && Live(ops, i) && o.kind == ops[i].kind && o.state.Ready?
    requires o.kind == Write ==> o.value == ops[i].value
    ensures Recorded(ops[i := o], calls, expired)
  {
    assert RecordOf(ops[i], calls[i]);
  }

  lemma {:induction false} CallKeepsRecord<V>(ops: seq<Op<V>>, calls: seq<Event<V>>, expired: set<nat>,
                                                 o: Op<V>, call: Event<V>)
    requires Recorded(ops, calls, expired) && RecordOf(o, call) && !o.state.Timeout?
    ensures Recorded(ops + [o], calls + [call], expired)
  {
    assert forall i :: 0 <= i < |ops| ==> (ops + [o])[i] == ops[i] && (calls + [call])[i] == calls[i];
  }

  lemma {:induction false} ReadIsRecorded<V>(s: State<V>, calls: seq<Event<V>>, expired: set<nat>, cell: V)
    requires Inv(s) && Recorded(s.ops, calls, expired)
    ensures Recorded(ReadStep(s, cell).ops, calls + [DoRead(cell)], expired)
  {
    if s.buffer == [] {
      CallKeepsRecord(s.ops, calls, expired, Op(Read, cell, Init), DoRead(cell));
    } else {
      var done := Op(Read, s.buffer[0], Ready);
      var q := PopDead(s.ops, s.queue);
      if |s.buffer| == s.cap && q != [] {
        FirstLiveIsOldest(s);
        var w := s.ops[q[0]].(state := Ready);
        CompleteKeepsRecord(s.ops, calls, expired, q[0], w);
        CallKeepsRecord(s.ops[q[0] := w], calls, expired, done, DoRead(cell));
      } else {
        CallKeepsRecord(s.ops, calls, expired, done, DoRead(cell));
      }
    }
  }

  lemma {:induction false} WriteIsRecorded<V>(s: State<V>, calls: seq<Event<V>>, expired: set<nat>, value: V)
    requires Inv(s) && Recorded(s.ops, calls, expired)
    ensures Recorded(WriteStep(s, value).ops, calls + [DoWrite(value)], expired)
  {
    var done := Op(Write, value, Ready);
    var q := PopDead(s.ops, s.queue);
    if s.buffer == [] && q != [] {
      FirstLiveIsOldest(s);
      var r := s.ops[q[0]].(value := value, state := Ready);
      assert r.kind == Read;
      CompleteKeepsRecord(s.ops, calls, expired, q[0], r);
      CallKeepsRecord(s.ops[q[0] := r], calls, expired, done, DoWrite(value));
    } else if |s.buffer| < s.cap {
      CallKeepsRecord(s.ops, calls, expired, done, DoWrite(value));
    } else {
      CallKeepsRecord(s.ops, calls, expired, Op(Write, value, Init), DoWrite(value));
    }
  }

  lemma {:induction false} ExpiryIsRecorded<V>(s: State<V>, calls: seq<Event<V>>, expired: set<nat>, i: nat)
    requires Recorded(s.ops, calls, expired) && Live(s.ops, i)
    ensures Recorded(Apply(s, Expire(i)).ops, calls, expired + {i})
  {
    assert RecordOf(s.ops[i], calls[i]);
  }

  lemma {:induction false} StepIsRecorded<V>(s: State<V>, calls: seq<Event<V>>, expired: set<nat>, e: Event<V>)
    requires Inv(s) && Enabled(s, e) && Recorded(s.ops, calls, expired)
    ensures Recorded(Apply(s, e).ops, calls + CallIn(e), expired + ExpiredIn(e))
  {
    match e
    case DoRead(cell) =>
      assert expired + ExpiredIn(e) == expired;
      ReadIsRecorded(s, calls, expired, cell);
    case DoWrite(value) =>
      assert expired + ExpiredIn(e) == expired;
      WriteIsRecorded(s, calls, expired, value);
    case Expire(i) =>
      assert calls + CallIn(e) == calls;
      ExpiryIsRecorded(s, calls, expired, i);
  }

  lemma {:induction false} StepKeepsInv<V>(s: State<V>, e: Event<V>)
    requires Inv(s) && Enabled(s, e)
    ensures Inv(Apply(s, e))
  {
    match e
    case DoRead(cell) => ReadKeepsInv(s, cell);
    case DoWrite(value) => WriteKeepsInv(s, value);
    case Expire(i) => ExpireKeepsInv(s, i);
  }

  // Every run records exactly its calls.
  lemma {:induction false} RunsAreRecorded<V>(s: State<V>, calls: seq<Event<V>>, expired: set<nat>,
                                             events: seq<Event<V>>)
    requires Inv(s) && Legal(s, events) && Recorded(s.ops, calls, expired)
    ensures Recorded(Exec(s, events).ops, calls + Calls(events), expired + Expired(events))
    decreases |events|
  {
    if events == [] {
      assert calls + Calls(events) == calls && expired + Expired(events) == expired;
    } else {
      var e, rest := events[0], events[1..];
      StepKeepsInv(s, e);
      StepIsRecorded(s, calls, expired, e);
      RunsAreRecorded(Apply(s, e), calls + CallIn(e), expired + ExpiredIn(e), rest);
      Regroup(calls, CallIn(e), Calls(rest), expired, ExpiredIn(e), Expired(rest));
    }
  }

  lemma Regroup<T>(a: seq<T>, b: seq<T>, c: seq<T>, x: set<nat>, y: set<nat>, z: set<nat>)
    ensures (a + b) + c == a + (b + c) && (x + y) + z == x + (y + z)
  {
  }

  // The values of the writes that did not time out, and the reads that did not, by their call number.
  function Puts<V>(calls: seq<Event<V>>, expired: set<nat>): seq<V> {
    if calls == [] then []
    else
      var n := |calls| - 1;
      Puts(calls[..n], expired) + if calls[n].DoWrite? && n !in expired then [calls[n].value] else []
  }

  function Gets<V>(calls: seq<Event<V>>, expired: set<nat>): (r: seq<nat>)
    ensures forall k :: 0 <= k < |r| ==> r[k] < |calls|
  {
    if calls == [] then []
    else
      var n := |calls| - 1;
      Gets(calls[..n], expired) + if calls[n].DoRead? && n !in expired then [n] else []
  }

  ghost predicate RecordedUpTo<V>(ops: seq<Op<V>>, calls: seq<Event<V>>, expired: set<nat>) {
    && |ops| == |calls|
    && (forall i :: 0 <= i < |ops| ==> RecordOf(ops[i], calls[i]))
    && (forall i :: 0 <= i < |ops| ==> (ops[i].state.Timeout? <==> i in expired))
  }

  lemma {:induction false} SurvivorsAreCalls<V>(ops: seq<Op<V>>, calls: seq<Event<V>>, expired: set<nat>)
    requires RecordedUpTo(ops, calls, expired)
    ensures Values(Surviving(ops, Write)) == Puts(calls, expired)
    ensures |Surviving(ops, Read)| == |Gets(calls, expired)|
    ensures forall k :: 0 <= k < |Gets(calls, expired)| ==> Surviving(ops, Read)[k] == ops[Gets(calls, expired)[k]]
    decreases |ops|
  {
    if ops != [] {
      var n := |ops| - 1;
      SurvivorsAreCalls(ops[..n], calls[..n], expired);
      assert RecordOf(ops[n], calls[n]);
      ValuesAppend(Surviving(ops[..n], Write), ops[n]);
    }
  }

  // Pairing, told from the calls: in every run the k-th read call that does not time out gets the value
  // of the k-th write call that does not, and is still waiting only if there is none. What the
  // surviving write calls have brought is what the reads got, then the buffer, then the blocked writes.
  ghost predicate CallsPaired<V>(s: State<V>, calls: seq<Event<V>>, expired: set<nat>) {
    var puts, gets := Puts(calls, expired), Gets(calls, expired);
    && |s.ops| == |calls|
    && (forall k :: 0 <= k < |gets| ==>
          var o := s.ops[gets[k]];
          && (o.state.Ready? ==> k < |puts| && o.value == puts[k])
          && (o.state.Init? ==> |puts| <= k)
          && !o.state.Timeout?)
    && puts == Values(Completed(s.ops, Read)) + s.buffer + Values(Blocked(s.ops, Write))
  }

  lemma {:induction false} CallsPairedAt<V>(s: State<V>, calls: seq<Event<V>>, expired: set<nat>)
    requires Paired(s) && RecordedUpTo(s.ops, calls, expired)
    ensures CallsPaired(s, calls, expired)
  {
    var got, gets := Surviving(s.ops, Read), Gets(calls, expired);
    var writes, puts := Surviving(s.ops, Write), Puts(calls, expired);
    SurvivorsAreCalls(s.ops, calls, expired);
    forall k | 0 <= k < |gets|
      ensures var o := s.ops[gets[k]];
              && (o.state.Ready? ==> k < |puts| && o.value == puts[k])
              && (o.state.Init? ==> |puts| <= k)
              && !o.state.Timeout?
    {
      assert got[k] == s.ops[gets[k]] && |writes| == |puts|;
      assert k < |writes| ==> puts[k] == Values(writes)[k] == writes[k].value;
    }
  }

  lemma {:induction false} PairingOfCalls<V>(cap: nat, events: seq<Event<V>>)
    requires 1 <= cap && Legal(Empty(cap), events)
    ensures var s := Exec(Empty(cap), events);
            Recorded(s.ops, Calls(events), Expired(events)) && CallsPaired(s, Calls(events), Expired(events))
  {
    RecordedFromEmpty(cap, events);
    Pairing(cap, events);
    CallsPairedAt(Exec(Empty(cap), events), Calls(events), Expired(events));
  }

  lemma {:induction false} RecordedFromEmpty<V>(cap: nat, events: seq<Event<V>>)
    requires 1 <= cap && Legal(Empty(cap), events)
    ensures Recorded(Exec(Empty(cap), events).ops, Calls(events), Expired(events))
  {
    RunsAreRecorded(Empty(cap), [], {}, events);
    FromNothing(Calls(events), Expired(events));
  }

  lemma FromNothing<T>(a: seq<T>, x: set<nat>)
    ensures [] + a == a && {} + x == x
  {
  }

  // ---------------------------------------------------------------- timers racing with a pop loop

  // The timer tries its compare-and-swap on some contexts, one after the other.
  function ExpireAll<V>(ops: seq<Op<V>>, due: seq<nat>): (r: seq<Op<V>>)
    ensures |r| == |ops|
    decreases |due|
  {
    if due == [] then ops
    else ExpireAll(if Live(ops, due[0]) then ops[due[0] := ops[due[0]].(state := Timeout)] else ops, due[1..])
  }

  // The pop loop with the timer at work on another thread: before the k-th compare-and-swap of the
  // loop the contexts race[k] are due. The operations then, and the queue from its first live entry.
  function PopRacing<V>(ops: seq<Op<V>>, queue: seq<nat>, race: seq<seq<nat>>): (r: (seq<Op<V>>, seq<nat>))
    ensures |r.0| == |ops|
    decreases |queue|
  {
    if queue == [] then (ops, [])
    else
      var ops' := if race == [] then ops else ExpireAll(ops, race[0]);
      if Live(ops', queue[0]) then (ops', queue)
      else PopRacing(ops', queue[1..], if race == [] then [] else race[1..])
  }

  // A read on a full buffer and a write on an empty one, with that loop.
  function RacingRead<V>(s: State<V>, cell: V, race: seq<seq<nat>>): State<V>
    requires s.buffer != [] && |s.buffer| == s.cap
  {
    var done := Op(Read, s.buffer[0], Ready);
    RaceHasOneOrder(s.ops, s.queue, race);
    var (ops, q) := PopRacing(s.ops, s.queue, race);
    if q == [] then
      s.(buffer := s.buffer[1..], queue := [], ops := ops + [done])
    else
      s.(buffer := s.buffer[1..] + [ops[q[0]].value], queue := q[1..],
         ops := ops[q[0] := ops[q[0]].(state := Ready)] + [done])
  }

  function RacingWrite<V>(s: State<V>, value: V, race: seq<seq<nat>>): State<V>
    requires s.buffer == []
  {
    var done := Op(Write, value, Ready);
    RaceHasOneOrder(s.ops, s.queue, race);
    var (ops, q) := PopRacing(s.ops, s.queue, race);
    if q == [] then
      s.(buffer := [value], queue := [], ops := ops + [done])
    else
      s.(queue := q[1..], ops := ops[q[0] := ops[q[0]].(value := value, state := Ready)] + [done])
  }

  lemma {:induction false} DeadStaysDead<V>(ops: seq<Op<V>>, due: seq<nat>, i: nat)
    requires !Live(ops, i)
    ensures !Live(ExpireAll(ops, due), i)
    decreases |due|
  {
    if due != [] {
      DeadStaysDead(if Live(ops, due[0]) then ops[due[0] := ops[due[0]].(state := Timeout)] else ops, due[1..], i);
    }
  }

  lemma {:induction false} ExpireAllAppend<V>(ops: seq<Op<V>>, a: seq<nat>, b: seq<nat>)
    ensures ExpireAll(ExpireAll(ops, a), b) == ExpireAll(ops, a + b)
    decreases |a|
  {
    if a == [] {
      assert a + b == b;
    } else {
      assert (a + b)[1..] == a[1..] + b;
      ExpireAllAppend(if Live(ops, a[0]) then ops[a[0] := ops[a[0]].(state := Timeout)] else ops, a[1..], b);
    }
  }

  // Whatever the race, it might as well have been over before the loop began.
  lemma {:induction false} RaceHasOneOrder<V>(ops: seq<Op<V>>, queue: seq<nat>, race: seq<seq<nat>>)
    ensures var (ops', q) := PopRacing(ops, queue, race);
            && q == PopDead(ops', queue)
            && (q != [] ==> Live(ops', q[0]))
            && exists due :: ops' == ExpireAll(ops, due)
    decreases |queue|
  {
    if queue == [] {
      assert ops == ExpireAll(ops, []);
    } else {
      var due := if race == [] then [] else race[0];
      var ops1 := ExpireAll(ops, due);
      if !Live(ops1, queue[0]) {
        var race1 := if race == [] then [] else race[1..];
        RaceHasOneOrder(ops1, queue[1..], race1);
        var ops2 := PopRacing(ops1, queue[1..], race1).0;
        var later :| ops2 == ExpireAll(ops1, later);
        DeadStaysDead(ops1, later, queue[0]);
        ExpireAllAppend(ops, due, later);
      }
    }
  }

  // Without timers the racing loop is the plain one.
  lemma {:induction false} NoRace<V>(ops: seq<Op<V>>, queue: seq<nat>)
    ensures PopRacing(ops, queue, []) == (ops, PopDead(ops, queue))
    decreases |queue|
  {
    if queue != [] && !Live(ops, queue[0]) {
      NoRace(ops, queue[1..]);
    }
  }

  predicate AllExpire<V>(events: seq<Event<V>>) {
    forall k :: 0 <= k < |events| ==> events[k].Expire?
  }

  // The timer's successful compare-and-swaps, as events of the protocol.
  lemma {:induction false} ExpireAllIsARun<V>(s: State<V>, due: seq<nat>) returns (events: seq<Event<V>>)
    ensures AllExpire(events) && Legal(s, events) && Exec(s, events) == s.(ops := ExpireAll(s.ops, due))
    decreases |due|
  {
    if due == [] {
      events := [];
    } else if Live(s.ops, due[0]) {
      var t := Apply(s, Expire(due[0]));
      var rest := ExpireAllIsARun(t, due[1..]);
      events := [Expire(due[0])] + rest;
      assert events[1..] == rest;
    } else {
      events := ExpireAllIsARun(s, due[1..]);
    }
  }

  // A racing operation is one of the protocol's own runs: some timeouts, then the atomic operation.
  // So everything proved of all runs holds with the timers running concurrently.
  lemma {:induction false} RacingReadIsARun<V>(s: State<V>, cell: V, race: seq<seq<nat>>)
    returns (events: seq<Event<V>>)
    requires s.buffer != [] && |s.buffer| == s.cap
    ensures AllExpire(events) && Legal(s, events)
    ensures RacingRead(s, cell, race) == Apply(Exec(s, events), DoRead(cell))
  {
    RaceHasOneOrder(s.ops, s.queue, race);
    var due :| PopRacing(s.ops, s.queue, race).0 == ExpireAll(s.ops, due);
    events := ExpireAllIsARun(s, due);
  }

  lemma {:induction false} RacingWriteIsARun<V>(s: State<V>, value: V, race: seq<seq<nat>>)
    returns (events: seq<Event<V>>)
    requires s.buffer == []
    ensures AllExpire(events) && Legal(s, events)
    ensures RacingWrite(s, value, race) == Apply(Exec(s, events), DoWrite(value))
  {
    RaceHasOneOrder(s.ops, s.queue, race);
    var due :| PopRacing(s.ops, s.queue, race).0 == ExpireAll(s.ops, due);
    events := ExpireAllIsARun(s, due);
  }
}
