/**
 The channel as it is laid out in memory: a byte buffer used as a ring of fixed-size
 blocks (`rx_`, `wx_`, `full_`) and a queue of wait contexts. Every operation is proved
 to be the corresponding step of `ChannelProtocol`, so what is proved there of every run
 holds of these objects.
 */
module ChannelMemory {
  import opened Basics
  import opened ChannelProtocol

  type Block = seq<byte>

  class WaitCtx {
    var state: CtxState
    var cell: Block        // the bytes buf_ points at
    ghost const op: nat    // the operation this context stands for

    constructor (cell: Block, ghost op: nat)
      ensures state == Init && this.cell == cell && this.op == op
    {
      this.state, this.cell, this.op := Init, cell, op;
    }

    method CompareAndSwap(expected: CtxState, desired: CtxState) returns (previous: CtxState)
      modifies this`state
      ensures previous == old(state)
      ensures state == if old(state) == expected then desired else old(state)
    {
      previous := state;
      if state == expected {
        state := desired;
      }
    }
  }

  ghost function Ids(queue: seq<WaitCtx>): (ids: seq<nat>)
    ensures |ids| == |queue|
    ensures forall k :: 0 <= k < |queue| ==> ids[k] == queue[k].op
  {
    seq(|queue|, k requires 0 <= k < |queue| => queue[k].op)
  }

  // The block index `i` places after `start` on a ring of `cap` blocks.
  function Slot(start: nat, i: nat, cap: nat): (slot: nat)
    requires start < cap && i <= cap
    ensures slot < cap
    ensures i < cap ==> (slot == start <==> i == 0)
  {
    if start + i < cap then start + i else start + i - cap
  }

  lemma SlotsDiffer(start: nat, i: nat, j: nat, cap: nat)
    requires start < cap && i < j < cap
    ensures Slot(start, i, cap) != Slot(start, j, cap)
  {
  }

  // The byte offset of a block, as a running sum.
  function Offset(slot: nat, blk: nat): nat {
    if slot == 0 then 0 else Offset(slot - 1, blk) + blk
  }

  lemma {:induction false} OffsetIsProduct(slot: nat, blk: nat)
    ensures Offset(slot, blk) == slot * blk
  {
    if slot != 0 {
      OffsetIsProduct(slot - 1, blk);
      assert (slot - 1) * blk + blk == slot * blk;
    }
  }

  lemma {:induction false} BlocksApart(a: nat, b: nat, blk: nat)
    requires a < b
    ensures Offset(a, blk) + blk <= Offset(b, blk)
  {
    if a + 1 < b {
      BlocksApart(a, b - 1, blk);
    }
  }

  ghost function RaceIds(race: seq<seq<WaitCtx>>): (ids: seq<seq<nat>>)
    ensures |ids| == |race|
    ensures forall k :: 0 <= k < |race| ==> ids[k] == Ids(race[k])
  {
    seq(|race|, k requires 0 <= k < |race| => Ids(race[k]))
  }

  lemma RaceStep(ops: seq<Op<Block>>, queue: seq<WaitCtx>, race: seq<seq<WaitCtx>>)
    requires queue != []
    ensures var due, left := if race == [] then [] else race[0], if race == [] then [] else race[1..];
            var ops' := ExpireAll(ops, Ids(due));
            PopRacing(ops, Ids(queue), RaceIds(race)) ==
            if Live(ops', queue[0].op) then (ops', Ids(queue)) else PopRacing(ops', Ids(queue[1..]), RaceIds(left))
    ensures Ids(queue)[0] == queue[0].op && Ids(queue)[1..] == Ids(queue[1..])
  {
    assert Ids(queue)[1..] == Ids(queue[1..]);
    if race != [] {
      assert RaceIds(race)[1..] == RaceIds(race[1..]);
    }
  }

  datatype ReadResult = Got(block: Block) | ReadSuspended(ctx: WaitCtx)
  datatype WriteResult = Written | WriteSuspended(ctx: WaitCtx)

  class ChannelImpl {
    const bufSize: nat
    const blkSize: nat
    const buf: array<byte>
    var rx: nat
    var wx: nat
    var full: bool
    var waitQueue: seq<WaitCtx>
    // the abstraction
    ghost const cap: nat
    ghost var first: nat           // rx in blocks
    ghost var next: nat            // wx in blocks
    ghost var contents: seq<Block>
    ghost var ops: seq<Op<Block>>
    ghost var contexts: set<WaitCtx>   // every context so far, waiting, popped or timed out

    ghost predicate RingValid()
      reads this, buf
    {
      && 1 <= cap && 1 <= blkSize
      && bufSize == Offset(cap, blkSize) == buf.Length
      && bufSize < UINT32_BOUND
      && first < cap && rx == Offset(first, blkSize)
      && next < cap && wx == Offset(next, blkSize)
      && |contents| <= cap
      && next == Slot(first, |contents|, cap)
      && (forall i :: 0 <= i < |contents| ==> BlockHeld(Slot(first, i, cap), contents[i]))
    }

    ghost predicate BlockHeld(slot: nat, b: Block)
      reads this, buf
    {
      && 0 <= Offset(slot, blkSize) && Offset(slot, blkSize) + blkSize <= buf.Length
      && b == buf[Offset(slot, blkSize)..Offset(slot, blkSize) + blkSize]
    }

    ghost function Spec(): State<Block>
      reads this
    {
      State(cap, contents, Ids(waitQueue), ops)
    }

    // Every context shows the value and the state of an operation of its own.
    ghost predicate QueueValid()
      reads this, contexts
    {
      && (forall c :: c in contexts ==> CtxValid(c))
      && (forall c, d :: c in contexts && d in contexts && c.op == d.op ==> c == d)
      && (forall k :: 0 <= k < |waitQueue| ==> waitQueue[k] in contexts)
      && (forall j, k :: 0 <= j < k < |waitQueue| ==> waitQueue[j].op < waitQueue[k].op)
    }

    ghost predicate CtxValid(ctx: WaitCtx)
      reads this, ctx
    {
      && |ctx.cell| == blkSize
      && ctx.op < |ops|
      && ops[ctx.op].value == ctx.cell && ops[ctx.op].state == ctx.state
    }

    // The fields agree with the abstraction ...
    ghost predicate Wired()
      reads this, buf, contexts
    {
      && RingValid()
      && (full <==> |contents| == cap)
      && QueueValid()
    }

    // ... and the abstraction is a reachable kind of channel state.
    ghost predicate Valid()
      reads this, buf, contexts
    {
      Wired() && Inv(Spec())
    }

    constructor (capacity: nat, blkSize: nat)
      requires 1 <= capacity && 1 <= blkSize && capacity * blkSize < UINT32_BOUND
      ensures Valid() && fresh(buf) && this.blkSize == blkSize && contexts == {}
      ensures Spec() == Empty(capacity)
    {
      OffsetIsProduct(capacity, blkSize);
      bufSize := capacity * blkSize;
      this.blkSize := blkSize;
      buf := new byte[capacity * blkSize];
      rx, wx, full, waitQueue := 0, 0, false, [];
      cap, first, next, contents, ops, contexts := capacity, 0, 0, [], [], {};
    }

    // The branch every operation starts with.
    lemma PositionsTellFill()
      requires RingValid()
      ensures rx != wx <==> 0 < |contents| < cap
    {
      if first < next { BlocksApart(first, next, blkSize); }
      if next < first { BlocksApart(next, first, blkSize); }
    }

    lemma AdvanceWraps(slot: nat)
      requires RingValid() && slot < cap
      ensures Offset(slot, blkSize) + blkSize <= bufSize
      ensures Offset(slot, blkSize) + blkSize == bufSize <==> slot + 1 == cap
      ensures slot + 1 < cap ==> Offset(slot, blkSize) + blkSize == Offset(slot + 1, blkSize)
    {
      BlocksApart(slot, cap, blkSize);
      if slot + 1 < cap { BlocksApart(slot + 1, cap, blkSize); }
    }

    // Seen from the second slot, the contents are those without the first block.
    lemma BlocksFromSecond()
      requires RingValid() && contents != []
      ensures BlockHeld(first, contents[0])
      ensures forall i :: 0 <= i < |contents| - 1 ==> BlockHeld(Slot(Slot(first, 1, cap), i, cap), contents[1..][i])
      ensures next == Slot(Slot(first, 1, cap), |contents| - 1, cap)
    {
      assert Slot(first, 0, cap) == first;
      forall i | 0 <= i < |contents| - 1 ensures BlockHeld(Slot(Slot(first, 1, cap), i, cap), contents[1..][i]) {
        assert BlockHeld(Slot(first, i + 1, cap), contents[i + 1]);
      }
    }

    // memcpy from buf_ + rx_, then advance rx_.
    method TakeBlock() returns (b: Block)
      requires RingValid() && contents != []
      modifies this`rx, this`first, this`contents
      ensures RingValid()
      ensures b == old(contents)[0] && contents == old(contents)[1..]
    {
      AdvanceWraps(first);
      BlocksFromSecond();
      b := buf[rx..rx + blkSize];
      rx := rx + blkSize;
      if rx == bufSize { rx := 0; }
      first := Slot(first, 1, cap);
      contents := contents[1..];
    }

    // memcpy(buf_ + wx_, b, blk_size_): the free block gets b, the contents stay where they are.
    method CopyIn(b: Block)
      requires RingValid() && |contents| < cap && |b| == blkSize
      modifies buf
      ensures RingValid() && BlockHeld(next, b)
    {
      AdvanceWraps(next);
      ghost var before := buf[..];
      forall j | 0 <= j < blkSize { buf[wx + j] := b[j]; }
      assert buf[wx..wx + blkSize] == b;
      OtherBlocksKept(before);
    }

    // Copy a block in at wx_, then advance wx_.
    method PutBlock(b: Block)
      requires RingValid() && |contents| < cap && |b| == blkSize
      modifies this`wx, this`next, this`contents, buf
      ensures RingValid()
      ensures contents == old(contents) + [b]
    {
      CopyIn(b);
      AdvanceWraps(next);
      wx := wx + blkSize;
      if wx == bufSize { wx := 0; }
      contents := contents + [b];
      next := Slot(first, |contents|, cap);
    }

    // Writing the block at wx_ leaves every block of the contents as it was.
    lemma OtherBlocksKept(before: seq<byte>)
      requires 1 <= cap && 1 <= blkSize && bufSize == Offset(cap, blkSize) == buf.Length == |before|
      requires first < cap && next < cap && wx == Offset(next, blkSize)
      requires |contents| < cap && next == Slot(first, |contents|, cap)
      requires forall j :: 0 <= j < |before| && !(wx <= j < wx + blkSize) ==> buf[j] == before[j]
      requires forall i :: 0 <= i < |contents| ==>
                 var lo := Offset(Slot(first, i, cap), blkSize);
                 0 <= lo && lo + blkSize <= |before| && contents[i] == before[lo..lo + blkSize]
      ensures forall i :: 0 <= i < |contents| ==> BlockHeld(Slot(first, i, cap), contents[i])
    {
      forall i | 0 <= i < |contents| ensures BlockHeld(Slot(first, i, cap), contents[i]) {
        var slot := Slot(first, i, cap);
        SlotsDiffer(first, i, |contents|, cap);
        BlocksApart(slot, cap, blkSize);
        if slot < next { BlocksApart(slot, next, blkSize); } else { BlocksApart(next, slot, blkSize); }
        var lo := Offset(slot, blkSize);
        assert buf[lo..lo + blkSize] == before[lo..lo + blkSize];
      }
    }

    // The timer's compare-and-swap on one context, waiting or not.
    method Fire(ctx: WaitCtx) returns (won: bool)
      requires QueueValid() && ctx in contexts
      modifies this`ops, ctx`state
      ensures QueueValid() && won == (old(ctx.state) == Init) == Live(old(ops), ctx.op)
      ensures ops == if won then old(ops)[ctx.op := old(ops)[ctx.op].(state := Timeout)] else old(ops)
      ensures ctx.state == if won then Timeout else old(ctx.state)
    {
      var previous := ctx.CompareAndSwap(Init, Timeout);
      won := previous == Init;
      if won {
        ops := ops[ctx.op := ops[ctx.op].(state := Timeout)];
      }
    }

    // One context after the other.
    method FireAll(due: seq<WaitCtx>)
      requires QueueValid() && forall k :: 0 <= k < |due| ==> due[k] in contexts
      modifies this`ops, contexts`state
      ensures QueueValid() && ops == ExpireAll(old(ops), Ids(due))
    {
      ghost var ids := Ids(due);
      for i := 0 to |due|
        invariant QueueValid()
        invariant ExpireAll(ops, ids[i..]) == ExpireAll(old(ops), ids)
      {
        assert ids[i..][0] == due[i].op && ids[i..][1..] == ids[i + 1..];
        var _ := Fire(due[i]);
      }
    }

    // Pop until a context that the compare-and-swap moves from Init to Ready. Before the k-th attempt
    // the timer has been at the contexts race[k].
    method PopLive(race: seq<seq<WaitCtx>>) returns (live: WaitCtx?)
      requires QueueValid() && RaceKnown(race)
      modifies this`waitQueue, this`ops, contexts`state
      ensures QueueValid()
      ensures var (ops', q) := PopRacing(old(ops), Ids(old(waitQueue)), RaceIds(race));
              if q == [] then
                live == null && waitQueue == [] && ops == ops'
              else
                && live != null && live in contexts && live.op == q[0] && Live(ops', q[0])
                && live.cell == ops'[q[0]].value
                && Ids(waitQueue) == q[1..]
                && ops == ops'[q[0] := ops'[q[0]].(state := Ready)]
    {
      var left := race;
      while waitQueue != []
        invariant QueueValid() && RaceKnown(left)
        invariant PopRacing(ops, Ids(waitQueue), RaceIds(left)) ==
                  PopRacing(old(ops), Ids(old(waitQueue)), RaceIds(race))
        decreases |waitQueue|
      {
        RaceStep(ops, waitQueue, left);
        var won;
        live, won := PopOne(if left == [] then [] else left[0]);
        if won {
          return;
        }
        left := if left == [] then [] else left[1..];
      }
      live := null;
    }

    // One turn of the loop: pop the first context, with the timer at `due`, and try to make it Ready.
    method PopOne(due: seq<WaitCtx>) returns (ctx: WaitCtx, won: bool)
      requires QueueValid() && waitQueue != [] && forall k :: 0 <= k < |due| ==> due[k] in contexts
      modifies this`waitQueue, this`ops, contexts`state
      ensures QueueValid() && ctx == old(waitQueue)[0] && waitQueue == old(waitQueue)[1..] && ctx in contexts
      ensures var ops' := ExpireAll(old(ops), Ids(due));
              && ctx.op < |ops'| && won == Live(ops', ctx.op) && ctx.cell == ops'[ctx.op].value
              && ops == if won then ops'[ctx.op := ops'[ctx.op].(state := Ready)] else ops'
    {
      ctx := waitQueue[0];
      waitQueue := waitQueue[1..];
      FireAll(due);
      var previous := ctx.CompareAndSwap(Init, Ready);
      won := previous == Init;
      if won {
        ops := ops[ctx.op := ops[ctx.op].(state := Ready)];
      }
    }

    ghost predicate RaceKnown(race: seq<seq<WaitCtx>>)
      reads this
    {
      forall k, j :: 0 <= k < |race| && 0 <= j < |race[k]| ==> race[k][j] in contexts
    }

    // The blocked path: a fresh context at the end of the queue.
    method Suspend(kind: Kind, cell: Block) returns (ctx: WaitCtx)
      requires Wired() && |cell| == blkSize
      modifies this`waitQueue, this`ops, this`contexts
      ensures Wired() && fresh(ctx) && ctx.state == Init && waitQueue == old(waitQueue) + [ctx]
      ensures ctx.op == |old(ops)|
      ensures contexts == old(contexts) + {ctx}
      ensures Spec() ==
              old(Spec()).(queue := old(Spec()).queue + [|old(ops)|], ops := old(ops) + [Op(kind, cell, Init)])
    {
      ctx := new WaitCtx(cell, |ops|);
      waitQueue := waitQueue + [ctx];
      ops := ops + [Op(kind, cell, Init)];
      contexts := contexts + {ctx};
      assert Ids(waitQueue) == Ids(old(waitQueue)) + [|old(ops)|];
    }

    // The oldest live writer, if there is one, fills the block that a read on a full ring has freed.
    method Refill(race: seq<seq<WaitCtx>>)
      requires RingValid() && QueueValid() && RaceKnown(race) && full && |contents| + 1 == cap
      modifies this`waitQueue, this`wx, this`next, this`contents, this`full, this`ops, buf, contexts`state
      ensures Wired() && contexts == old(contexts)
      ensures var (ops', q) := PopRacing(old(ops), Ids(old(waitQueue)), RaceIds(race));
              if q == [] then
                contents == old(contents) && waitQueue == [] && ops == ops'
              else
                && Live(ops', q[0])
                && contents == old(contents) + [ops'[q[0]].value]
                && Ids(waitQueue) == q[1..]
                && ops == ops'[q[0] := ops'[q[0]].(state := Ready)]
    {
      var w := PopLive(race);
      if w != null {
        PutBlock(w.cell);
      } else {
        full := false;
      }
    }

    // Read on a full ring: take the first block and let the oldest live writer refill it.
    method ReadFull(race: seq<seq<WaitCtx>>, ghost cell: Block) returns (b: Block)
      requires Wired() && RaceKnown(race) && |contents| == cap
      modifies this`rx, this`first, this`waitQueue, this`wx, this`next, this`contents, this`full, this`ops
      modifies buf, contexts`state
      ensures Wired() && b == old(contents)[0] && contexts == old(contexts)
      ensures Spec() == RacingRead(old(Spec()), cell, RaceIds(race))
      ensures |ops| == |old(ops)| + 1 && ops[|old(ops)|] == Op(Kind.Read, b, Ready)
    {
      b := TakeBlock();
      Refill(race);
      ops := ops + [Op(Kind.Read, b, Ready)];
    }

    // Write on an empty ring: hand the value to the oldest live reader, or start filling.
    method WriteEmpty(value: Block, race: seq<seq<WaitCtx>>)
      requires Wired() && RaceKnown(race) && contents == [] && |value| == blkSize
      modifies this`waitQueue, this`wx, this`next, this`contents, this`full, this`ops
      modifies buf, contexts`state, contexts`cell
      ensures Wired() && contexts == old(contexts)
      ensures Spec() == RacingWrite(old(Spec()), value, RaceIds(race))
      ensures |ops| == |old(ops)| + 1 && ops[|old(ops)|] == Op(Kind.Write, value, Ready)
    {
      var reader := PopLive(race);
      if reader != null {
        HandTo(reader, value);
      } else {
        PutAndMark(value);
      }
    }

    // memcpy to the reader's cell.
    method HandTo(reader: WaitCtx, value: Block)
      requires Wired() && reader in contexts && |value| == blkSize
      modifies this`ops, reader`cell
      ensures Wired()
      ensures ops == old(ops)[reader.op := old(ops)[reader.op].(value := value)] + [Op(Kind.Write, value, Ready)]
    {
      reader.cell := value;
      ops := ops[reader.op := ops[reader.op].(value := value)] + [Op(Kind.Write, value, Ready)];
    }

    // Append to the ring, noting when it becomes full.
    method PutAndMark(value: Block)
      requires Wired() && |contents| < cap && |value| == blkSize
      modifies this`wx, this`next, this`contents, this`full, this`ops, buf
      ensures Wired()
      ensures contents == old(contents) + [value] && ops == old(ops) + [Op(Kind.Write, value, Ready)]
    {
      PutBlock(value);
      PositionsTellFill();
      if wx == rx { full := true; }
      ops := ops + [Op(Kind.Write, value, Ready)];
    }

    // The body of ChannelImpl::Read.
    method ReadWired(cell: Block, race: seq<seq<WaitCtx>>) returns (r: ReadResult)
      requires Wired() && RaceKnown(race) && |cell| == blkSize
      modifies this, buf, contexts`state
      ensures Wired()
      ensures |old(contents)| == cap ==> Spec() == RacingRead(old(Spec()), cell, RaceIds(race))
      ensures |old(contents)| < cap ==> Spec() == ReadStep(old(Spec()), cell)
      ensures |ops| == |old(ops)| + 1
      ensures r.Got? ==> ops[|old(ops)|] == Op(Kind.Read, r.block, Ready)
      ensures r.ReadSuspended? ==> ops[|old(ops)|] == Op(Kind.Read, cell, Init) && r.ctx.op == |old(ops)|
      ensures r.Got? <==> old(contents) != []
      ensures r.Got? ==> r.block == old(contents)[0] && contexts == old(contexts)
      ensures r.ReadSuspended? ==>
                && fresh(r.ctx) && r.ctx.state == Init
                && contexts == old(contexts) + {r.ctx} && waitQueue == old(waitQueue) + [r.ctx]
    {
      PositionsTellFill();
      if rx != wx {
        var b := TakeBlock();
        ops := ops + [Op(Kind.Read, b, Ready)];
        r := Got(b);
      } else if !full {
        var ctx := Suspend(Kind.Read, cell);
        r := ReadSuspended(ctx);
      } else {
        var b := ReadFull(race, cell);
        r := Got(b);
      }
    }

    // The body of ChannelImpl::Write.
    method WriteWired(value: Block, race: seq<seq<WaitCtx>>) returns (r: WriteResult)
      requires Wired() && RaceKnown(race) && |value| == blkSize
      modifies this, buf, contexts
      ensures Wired()
      ensures old(contents) == [] ==> Spec() == RacingWrite(old(Spec()), value, RaceIds(race))
      ensures old(contents) != [] ==> Spec() == WriteStep(old(Spec()), value)
      ensures |ops| == |old(ops)| + 1
      ensures ops[|old(ops)|] == Op(Kind.Write, value, if r.Written? then Ready else Init)
      ensures r.WriteSuspended? ==> r.ctx.op == |old(ops)|
      ensures r.Written? <==> |old(contents)| < cap
      ensures r.Written? ==> contexts == old(contexts)
      ensures r.WriteSuspended? ==>
                && fresh(r.ctx) && r.ctx.state == Init
                && contexts == old(contexts) + {r.ctx} && waitQueue == old(waitQueue) + [r.ctx]
    {
      PositionsTellFill();
      if wx != rx {
        PutAndMark(value);
        r := Written;
      } else if !full {
        WriteEmpty(value, race);
        r := Written;
      } else {
        var ctx := Suspend(Kind.Write, value);
        r := WriteSuspended(ctx);
      }
    }

    // ChannelImpl::Read, with timers at work during its pop loop: some timeouts of the protocol and
    // then its read step; without timers, the read step alone. A reader that has to wait is
    // suspended with a fresh context. Every context, popped or not, keeps showing the value and the
    // state of its operation.
    method Read(cell: Block, race: seq<seq<WaitCtx>>) returns (r: ReadResult, ghost timeouts: seq<Event<Block>>)
      requires Valid() && RaceKnown(race) && |cell| == blkSize
      modifies this, buf, contexts`state
      ensures Valid() && AllExpire(timeouts) && Legal(old(Spec()), timeouts)
      ensures Spec() == Apply(Exec(old(Spec()), timeouts), DoRead(cell))
      ensures |ops| == |old(ops)| + 1
      ensures r.Got? ==> ops[|old(ops)|] == Op(Kind.Read, r.block, Ready)
      ensures r.ReadSuspended? ==> ops[|old(ops)|] == Op(Kind.Read, cell, Init) && r.ctx.op == |old(ops)|
      ensures |old(contents)| == cap ==> Spec() == RacingRead(old(Spec()), cell, RaceIds(race))
      ensures race == [] ==> Spec() == Apply(old(Spec()), DoRead(cell))
      ensures r.Got? <==> old(contents) != []
      ensures r.Got? ==> r.block == old(contents)[0] && contexts == old(contexts)
      ensures r.ReadSuspended? ==>
                && fresh(r.ctx) && r.ctx.state == Init
                && contexts == old(contexts) + {r.ctx} && waitQueue == old(waitQueue) + [r.ctx]
    {
      timeouts := LinearRead(Spec(), cell, RaceIds(race));
      r := ReadWired(cell, race);
    }

    // ChannelImpl::Write, likewise.
    method Write(value: Block, race: seq<seq<WaitCtx>>) returns (r: WriteResult, ghost timeouts: seq<Event<Block>>)
      requires Valid() && RaceKnown(race) && |value| == blkSize
      modifies this, buf, contexts
      ensures Valid() && AllExpire(timeouts) && Legal(old(Spec()), timeouts)
      ensures Spec() == Apply(Exec(old(Spec()), timeouts), DoWrite(value))
      ensures |ops| == |old(ops)| + 1
      ensures ops[|old(ops)|] == Op(Kind.Write, value, if r.Written? then Ready else Init)
      ensures r.WriteSuspended? ==> r.ctx.op == |old(ops)|
      ensures old(contents) == [] ==> Spec() == RacingWrite(old(Spec()), value, RaceIds(race))
      ensures race == [] ==> Spec() == Apply(old(Spec()), DoWrite(value))
      ensures r.Written? <==> |old(contents)| < cap
      ensures r.Written? ==> contexts == old(contexts)
      ensures r.WriteSuspended? ==>
                && fresh(r.ctx) && r.ctx.state == Init
                && contexts == old(contexts) + {r.ctx} && waitQueue == old(waitQueue) + [r.ctx]
    {
      timeouts := LinearWrite(Spec(), value, RaceIds(race));
      r := WriteWired(value, race);
    }

    // What a reader that had to wait finds when it runs again: its own memory if the timer woke it,
    // else what its context holds; and if a peer completed it, that is the value of the surviving
    // write of the same rank.
    method FinishRead(ctx: WaitCtx, timedOut: bool, p: Block) returns (b: Block)
      requires Valid() && ctx in contexts
      ensures timedOut ==> b == p
      ensures !timedOut ==> ctx.op < |ops| && b == ops[ctx.op].value
      ensures !timedOut && ctx.state == Ready && ops[ctx.op].kind == Kind.Read ==>
                var k := ReadRank(ops, ctx.op);
                k < |Surviving(ops, Kind.Write)| && b == Surviving(ops, Kind.Write)[k].value
    {
      if !timedOut && ctx.state == Ready && ops[ctx.op].kind == Kind.Read {
        CompletedReadHasItsWrite(Spec(), ctx.op);
      }
      b := if timedOut then p else ctx.cell;
    }

    // The timer's compare-and-swap on any context of the channel, queued or popped.
    method ExpireCtx(ctx: WaitCtx) returns (won: bool)
      requires Valid() && ctx in contexts
      modifies this`ops, ctx`state
      ensures Valid()
      ensures won == (old(ctx.state) == Init)
      ensures won ==> Spec() == Apply(old(Spec()), Expire(ctx.op))
      ensures !won ==> Spec() == old(Spec()) && ctx.state == old(ctx.state)
    {
      won := Fire(ctx);
      if won {
        ExpireKeepsInv(old(Spec()), ctx.op);
      }
    }
  }

  // The read and the write with their racing pop loops, as runs of the protocol that keep its invariant.
  lemma LinearRead(s: State<Block>, cell: Block, race: seq<seq<nat>>) returns (timeouts: seq<Event<Block>>)
    requires Inv(s)
    ensures AllExpire(timeouts) && Legal(s, timeouts) && Inv(Apply(Exec(s, timeouts), DoRead(cell)))
    ensures |s.buffer| == s.cap ==> RacingRead(s, cell, race) == Apply(Exec(s, timeouts), DoRead(cell))
    ensures |s.buffer| < s.cap ==> timeouts == []
    ensures race == [] ==> Apply(Exec(s, timeouts), DoRead(cell)) == ReadStep(s, cell)
  {
    timeouts := [];
    if |s.buffer| == s.cap {
      timeouts := RacingReadIsARun(s, cell, race);
      NoRace(s.ops, s.queue);
    }
    RunsKeepInv(s, timeouts);
    ReadKeepsInv(Exec(s, timeouts), cell);
  }

  lemma LinearWrite(s: State<Block>, value: Block, race: seq<seq<nat>>) returns (timeouts: seq<Event<Block>>)
    requires Inv(s)
    ensures AllExpire(timeouts) && Legal(s, timeouts) && Inv(Apply(Exec(s, timeouts), DoWrite(value)))
    ensures s.buffer == [] ==> RacingWrite(s, value, race) == Apply(Exec(s, timeouts), DoWrite(value))
    ensures s.buffer != [] ==> timeouts == []
    ensures race == [] ==> Apply(Exec(s, timeouts), DoWrite(value)) == WriteStep(s, value)
  {
    timeouts := [];
    if s.buffer == [] {
      timeouts := RacingWriteIsARun(s, value, race);
      NoRace(s.ops, s.queue);
    }
    RunsKeepInv(s, timeouts);
    WriteKeepsInv(Exec(s, timeouts), value);
  }
}
