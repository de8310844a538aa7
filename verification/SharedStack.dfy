/**
 Coroutines run on eight shared stacks. A stack keeps the image of the coroutine that ran
 on it last; only when another coroutine needs the stack is that image copied out to the
 owner's private buffer, and it is copied back when the owner runs again.

 The claim is that nobody can tell: each coroutine finds its frames as if it had a stack of
 its own. A context jump is modelled as what the running coroutine may do to its stack: rewrite
 all of it, then yield and keep some part of it, or finish.
 */
module SharedStack {
  import opened Basics

  const STACKS: nat := 8
  const MAIN: nat := 0             // main_co_, the first coroutine of the pool
  const POOL_SIZE: nat := 256

  // FixedBuffer<kSmallBuffer>: `cur` bytes of `data` are in use; the rest is stale.
  datatype FixedBuffer = FixedBuffer(data: seq<byte>, cur: nat) {
    predicate Valid() {
      |data| == BUFFER_SIZE && cur <= BUFFER_SIZE
    }

    function Reset(): FixedBuffer {
      this.(cur := 0)
    }

    // Copies only if the bytes fit with room to spare; otherwise nothing happens.
    function Append(bytes: seq<byte>): (r: FixedBuffer)
      requires Valid()
      ensures r.Valid()
      ensures cur + |bytes| < BUFFER_SIZE ==> r.cur == cur + |bytes| && r.data[..r.cur] == data[..cur] + bytes
      ensures BUFFER_SIZE <= cur + |bytes| ==> r == this
    {
      if BUFFER_SIZE - cur > |bytes| then
        FixedBuffer(data[..cur] + bytes + data[cur + |bytes|..], cur + |bytes|)
      else
        this
    }
  }

  // What SaveStack leaves in a private buffer, and what copying it back leaves on a stack of
  // `|mem|` bytes: the copy is BUFFER_SIZE bytes long, here cut off at the top of the stack.
  function Save(buffer: FixedBuffer, image: seq<byte>): (r: FixedBuffer)
    requires buffer.Valid()
    ensures r.Valid()
    ensures |image| < BUFFER_SIZE ==> r.data[..|image|] == image
  {
    buffer.Reset().Append(image)
  }

  function Restore(mem: seq<byte>, ctx: nat, data: seq<byte>): (r: seq<byte>)
    requires ctx <= |mem| && |data| == BUFFER_SIZE
    ensures |r| == |mem|
    ensures r[..ctx] == mem[..ctx]
    ensures |mem| - ctx <= BUFFER_SIZE ==> r[ctx..] == data[..|mem| - ctx]
    ensures BUFFER_SIZE < |mem| - ctx ==>
              r[ctx..ctx + BUFFER_SIZE] == data && r[ctx + BUFFER_SIZE..] == mem[ctx + BUFFER_SIZE..]
  {
    if |mem| - ctx <= BUFFER_SIZE then mem[..ctx] + data[..|mem| - ctx]
    else mem[..ctx] + data + mem[ctx + BUFFER_SIZE..]
  }

  ghost predicate SurvivesEviction(n: nat) {
    forall image: seq<byte>, buffer: FixedBuffer, mem: seq<byte> ::
      |image| == n && buffer.Valid() && n <= |mem| ==>
        Restore(mem, |mem| - n, Save(buffer, image).data)[|mem| - n..] == image
  }

  // Saving and restoring is faithful for every image exactly below the buffer size: a larger
  // image is silently not saved, and stale bytes come back instead.
  lemma EvictionLimit(n: nat)
    ensures SurvivesEviction(n) <==> n < BUFFER_SIZE
  {
    if n >= BUFFER_SIZE {
      var image := seq(n, _ => 1 as byte);
      var buffer := FixedBuffer(seq(BUFFER_SIZE, _ => 0 as byte), 0);
      assert Save(buffer, image).data == buffer.data;
      var back := Restore(image, 0, buffer.data);
      assert back[0] == 0 && image[0] == 1;
      assert back[|image| - n..] != image;
    }
  }

  datatype Stack = Stack(mem: Option<seq<byte>>, owner: Option<nat>)

  datatype Coroutine = Coroutine(stackId: nat, ctx: Option<nat>, saved: FixedBuffer)

  // What the resumed coroutine does: the whole stack afterwards, and the region [ctx, top) it keeps.
  datatype Jump = Yields(mem: seq<byte>, ctx: nat) | Finishes(mem: seq<byte>) {
    predicate Fits(stackSize: nat) {
      |mem| == stackSize && (Yields? ==> ctx <= stackSize)
    }

    predicate Small() {
      Yields? && ctx <= |mem| ==> |mem| - ctx < BUFFER_SIZE
    }

    function Image(): seq<byte>
      requires Yields? && ctx <= |mem|
    {
      mem[ctx..]
    }
  }

  // Private stacks: the reference. A suspended coroutine is its image.
  function PrivateResume(images: map<nat, seq<byte>>, id: nat, jump: Jump): map<nat, seq<byte>>
    requires jump.Fits(|jump.mem|)
  {
    if jump.Yields? then images[id := jump.Image()] else images - {id}
  }

  // A step of the loop: start a new coroutine, or resume one that is suspended.
  datatype Step = Go(jump: Jump) | Wake(id: nat, jump: Jump)

  // What came of it: the id of a clean start, the frames a resumed coroutine found, or nothing
  // (no coroutine left in the pool, or nobody suspended under that id).
  datatype Sighting = Started(id: nat) | Saw(view: seq<byte>) | Skipped

  // The trace is one that private stacks would have produced.
  ghost predicate Indistinguishable(images: map<nat, seq<byte>>, script: seq<Step>, trace: seq<Sighting>)
    decreases |script|
  {
    && |trace| == |script|
    && (script == [] ||
        match (script[0], trace[0])
        case (Go(jump), Started(id)) =>
          && id !in images && jump.Fits(|jump.mem|)
          && Indistinguishable(PrivateResume(images, id, jump), script[1..], trace[1..])
        case (Wake(id, jump), Saw(view)) =>
          && id in images && view == images[id] && jump.Fits(|jump.mem|)
          && Indistinguishable(PrivateResume(images, id, jump), script[1..], trace[1..])
        case (Go(_), Skipped) =>
          && (forall id :: 1 <= id < POOL_SIZE ==> id in images)
          && Indistinguishable(images, script[1..], trace[1..])
        case (Wake(id, _), Skipped) =>
          && id !in images
          && Indistinguishable(images, script[1..], trace[1..])
        case _ => false)
  }

  predicate Distinct(ids: seq<nat>) {
    forall j, k :: 0 <= j < k < |ids| ==> ids[j] != ids[k]
  }

  // Taking the last of distinct ids leaves the others, distinct and without it.
  lemma LastOfDistinct(ids: seq<nat>)
    requires ids != [] && Distinct(ids)
    ensures var last, rest := ids[|ids| - 1], ids[..|ids| - 1];
            && rest + [last] == ids && Distinct(rest) && last in ids && last !in rest
            && forall i :: i in ids <==> i in rest || i == last
  {
    assert ids == ids[..|ids| - 1] + [ids[|ids| - 1]];
  }

  lemma OneMoreDistinct(ids: seq<nat>, id: nat)
    requires Distinct(ids) && id !in ids
    ensures Distinct(ids + [id]) && forall i :: i in ids + [id] <==> i in ids || i == id
  {
  }

  class SchedulerImpl {
    const stackSize: nat
    var stacks: seq<Stack>
    // Copoll
    var pool: seq<Coroutine>
    var nextId: nat
    var idle: seq<nat>
    // the image each suspended coroutine left at its last yield
    ghost var images: map<nat, seq<byte>>

    // The pool with coroutine `run` checked out: it is being switched in or is running.
    ghost predicate PoolValid(run: nat)
      reads this
    {
      && |pool| == POOL_SIZE && 1 <= nextId <= POOL_SIZE && run < nextId
      && (forall i :: 0 <= i < POOL_SIZE ==> pool[i].saved.Valid())
      && (forall i :: 0 <= i < nextId ==> pool[i].stackId == i % STACKS)
      && (forall i :: nextId <= i < POOL_SIZE ==> pool[i].ctx == None)
      && Distinct(idle)
      // live and idle coroutines partition the ids handed out so far
      && (forall i :: i in idle ==> i < nextId && i != MAIN && i != run && i !in images)
      && (forall i :: i in images ==> i < nextId && i != MAIN)
      && (forall i :: 0 <= i < nextId ==> i == MAIN || i == run || i in images || i in idle)
    }

    ghost predicate StacksValid(run: nat)
      reads this
    {
      && |stacks| == STACKS
      && (forall s :: 0 <= s < STACKS && stacks[s].mem.Some? ==> |stacks[s].mem.value| == stackSize)
      && (forall s :: 0 <= s < STACKS && stacks[s].owner.Some? ==>
            var c := stacks[s].owner.value;
            stacks[s].mem.Some? && c != MAIN && c % STACKS == s && (c == run || c in images))
    }

    // A suspended coroutine's image is on its stack iff it owns the stack, else in its buffer.
    ghost predicate ImageKept(c: nat)
      requires |stacks| == STACKS && c < |pool| && c in images
      reads this
    {
      var s := stacks[c % STACKS];
      && pool[c].ctx.Some? && pool[c].ctx.value <= stackSize && |images[c]| == stackSize - pool[c].ctx.value
      && s.mem.Some?
      && if s.owner == Some(c) then |s.mem.value| == stackSize && s.mem.value[pool[c].ctx.value..] == images[c]
         else |images[c]| < BUFFER_SIZE && |pool[c].saved.data| == BUFFER_SIZE ==>
                pool[c].saved.data[..|images[c]|] == images[c]
    }

    ghost predicate ValidBut(run: nat)
      reads this
    {
      && PoolValid(run) && StacksValid(run)
      && (forall c :: c in images && c != run ==> ImageKept(c))
    }

    // Between resumptions: only main_co_ is checked out.
    ghost predicate Valid()
      reads this
    {
      ValidBut(MAIN)
    }

    // Copoll plus the stacks; main_co_ takes the first id.
    constructor (stackSize: nat)
      ensures Valid() && images == map[] && this.stackSize == stackSize && nextId == 1 && idle == []
    {
      this.stackSize := stackSize;
      stacks := seq(STACKS, _ => Stack(None, None));
      pool := seq(POOL_SIZE, _ => Coroutine(0, None, FixedBuffer(seq(BUFFER_SIZE, _ => 0), 0)));
      nextId, idle := 1, [];
      images := map[];
    }

    // Copoll::Pop: the most recently recycled coroutine, or the next unused one; never a live one.
    // Its stack is id mod 8, in this life as in every earlier one.
    method Pop() returns (id: nat)
      requires Valid() && (idle != [] || nextId < POOL_SIZE)
      modifies this`pool, this`nextId, this`idle
      ensures ValidBut(id) && id !in images && id != MAIN && pool[id].ctx == None
      ensures old(idle) != [] ==> idle + [id] == old(idle) && nextId == old(nextId) && pool[id].saved.cur == 0
      ensures old(idle) == [] ==> idle == [] && id == old(nextId) && nextId == id + 1
      ensures pool[id].stackId == id % STACKS
    {
      if idle == [] {
        id := PopUnused();
      } else {
        id := PopIdle();
        pool := pool[id := pool[id].(ctx := None, saved := pool[id].saved.Reset())];
      }
    }

    // The next id that was never handed out.
    method PopUnused() returns (id: nat)
      requires Valid() && idle == [] && nextId < POOL_SIZE
      modifies this`pool, this`nextId
      ensures ValidBut(id) && id !in images && id != MAIN && pool[id].ctx == None
      ensures id == old(nextId) && nextId == id + 1 && pool[id].stackId == id % STACKS
    {
      id := nextId;
      pool := pool[id := pool[id].(stackId := id % STACKS)];
      nextId := nextId + 1;
    }

    // Take the last id off the idle list.
    method PopIdle() returns (id: nat)
      requires Valid() && idle != []
      modifies this`idle
      ensures ValidBut(id) && id !in images && id != MAIN && idle + [id] == old(idle)
    {
      LastOfDistinct(idle);
      id := idle[|idle| - 1];
      idle := idle[..|idle| - 1];
    }

    // The image is in the private buffer, wherever else it is: its owner may be evicted.
    ghost predicate ImageKeptOff(c: nat)
      requires |stacks| == STACKS && c < |pool| && c in images
      reads this
    {
      && pool[c].ctx.Some? && pool[c].ctx.value <= stackSize && |images[c]| == stackSize - pool[c].ctx.value
      && (|images[c]| < BUFFER_SIZE && |pool[c].saved.data| == BUFFER_SIZE ==>
            pool[c].saved.data[..|images[c]|] == images[c])
    }

    // SaveStack: the owner's frames go to its private buffer.
    method SaveStack(sid: nat, id: nat)
      requires ValidBut(id) && sid < STACKS && stacks[sid].owner.Some? && stacks[sid].owner != Some(id)
      modifies this`pool
      ensures ValidBut(id) && pool[id] == old(pool)[id]
      ensures forall c :: c in images && c != id && c % STACKS == sid ==> ImageKeptOff(c)
    {
      var c := stacks[sid].owner.value;
      assert ImageKept(c);
      var image := stacks[sid].mem.value[pool[c].ctx.value..];
      pool := pool[c := pool[c].(saved := Save(pool[c].saved, image))];
      forall d | d in images && d != id ensures ImageKept(d) && (d % STACKS == sid ==> ImageKeptOff(d)) {
        assert old(ImageKept(d));
      }
    }

    // SaveStack for the stack's owner, then the stack changes hands.
    method TakeOver(sid: nat, id: nat)
      requires ValidBut(id) && id != MAIN && sid == id % STACKS
      requires stacks[sid].mem.Some? && stacks[sid].owner != Some(id)
      modifies this`pool, this`stacks
      ensures ValidBut(id) && pool[id] == old(pool)[id]
      ensures stacks == old(stacks)[sid := old(stacks)[sid].(owner := Some(id))]
    {
      if stacks[sid].owner.Some? {
        SaveStack(sid, id);
      }
      stacks := stacks[sid := stacks[sid].(owner := Some(id))];
      forall c | c in images && c != id ensures ImageKept(c) {
        assert ImageKeptOff(c) || c % STACKS != sid;
      }
    }

    // The first half of Resume: make the stack the coroutine's own and put its frames on it.
    // A coroutine without a context starts afresh and has nothing to see.
    method SwitchIn(id: nat) returns (view: Option<seq<byte>>)
      requires ValidBut(id) && id != MAIN && (if id in images then ImageKept(id) else pool[id].ctx == None)
      modifies this`pool, this`stacks
      ensures ValidBut(id) && stacks[id % STACKS].owner == Some(id)
      ensures id !in images ==> view == None
      ensures id in images ==> view.Some? && |view.value| == |images[id]|
      ensures id in images && (old(stacks)[id % STACKS].owner == Some(id) || |images[id]| < BUFFER_SIZE) ==>
                view == Some(images[id])
    {
      var sid := pool[id].stackId;
      if stacks[sid].mem == None {
        stacks := stacks[sid := Stack(Some(seq(stackSize, _ => 0)), Some(id))];
      }
      if pool[id].ctx == None {
        if stacks[sid].owner != Some(id) {
          TakeOver(sid, id);
        }
        view := None;
      } else {
        var ctx := pool[id].ctx.value;
        if stacks[sid].owner != Some(id) {
          CopyBack(sid, id, ctx);
        }
        view := Some(stacks[sid].mem.value[ctx..]);
      }
    }

    // Rewriting the stack that the running coroutine owns touches nobody's image.
    method PutOnStack(sid: nat, id: nat, mem: seq<byte>)
      requires ValidBut(id) && sid == id % STACKS && stacks[sid].owner == Some(id) && |mem| == stackSize
      modifies this`stacks
      ensures ValidBut(id) && stacks == old(stacks)[sid := Stack(Some(mem), Some(id))]
    {
      stacks := stacks[sid := Stack(Some(mem), Some(id))];
      forall c | c in images && c != id ensures ImageKept(c) {
        assert old(ImageKept(c));
      }
    }

    // Evict the owner and copy the private buffer of the coroutine back to its stack.
    method CopyBack(sid: nat, id: nat, ctx: nat)
      requires ValidBut(id) && id != MAIN && sid == id % STACKS
      requires stacks[sid].mem.Some? && stacks[sid].owner != Some(id)
      requires pool[id].ctx == Some(ctx) && ctx <= stackSize
      modifies this`pool, this`stacks
      ensures ValidBut(id) && stacks[sid].owner == Some(id) && stacks[sid].mem.Some?
      ensures stackSize - ctx < BUFFER_SIZE ==>
                stacks[sid].mem.value[ctx..] == old(pool)[id].saved.data[..stackSize - ctx]
    {
      TakeOver(sid, id);
      var mem := Restore(stacks[sid].mem.value, ctx, pool[id].saved.data);
      PutOnStack(sid, id, mem);
    }

    // `from.priv` set: the coroutine yielded and keeps the stack until somebody needs it.
    method YieldBack(id: nat, jump: Jump)
      requires ValidBut(id) && id != MAIN && stacks[id % STACKS].owner == Some(id)
      requires jump.Fits(stackSize) && jump.Yields?
      modifies this`stacks, this`pool, this`images
      ensures Valid() && images == PrivateResume(old(images), id, jump)
    {
      var sid := pool[id].stackId;
      stacks := stacks[sid := Stack(Some(jump.mem), Some(id))];
      pool := pool[id := pool[id].(ctx := Some(jump.ctx))];
      images := PrivateResume(images, id, jump);
      forall c | c in images ensures ImageKept(c) {
        assert c != id ==> c in old(images) && old(ImageKept(c));
      }
    }

    // Copoll::Push.
    method Push(id: nat)
      requires ValidBut(id) && id != MAIN && id !in images && stacks[id % STACKS].owner != Some(id)
      modifies this`idle
      ensures Valid() && idle == old(idle) + [id]
    {
      OneMoreDistinct(idle, id);
      idle := idle + [id];
    }

    // Recycle: the coroutine finished; the stack is free and the coroutine goes back to the pool.
    method Recycle(id: nat, jump: Jump)
      requires ValidBut(id) && id != MAIN && stacks[id % STACKS].owner == Some(id)
      requires jump.Fits(stackSize) && jump.Finishes?
      modifies this`stacks, this`idle, this`images
      ensures Valid() && images == PrivateResume(old(images), id, jump) && idle == old(idle) + [id]
    {
      var sid := pool[id].stackId;
      stacks := stacks[sid := Stack(Some(jump.mem), None)];
      images := PrivateResume(images, id, jump);
      forall c | c in images ensures ImageKept(c) {
        assert c != id && c in old(images) && old(ImageKept(c));
      }
      Push(id);
    }

    // The rest of Resume: the jump, and what the scheduler does when it comes back.
    method SwitchOut(id: nat, jump: Jump)
      requires ValidBut(id) && id != MAIN && stacks[id % STACKS].owner == Some(id) && jump.Fits(stackSize)
      modifies this
      ensures Valid() && images == PrivateResume(old(images), id, jump)
      ensures nextId == old(nextId) && idle == if jump.Yields? then old(idle) else old(idle) + [id]
    {
      if jump.Yields? {
        YieldBack(id, jump);
      } else {
        Recycle(id, jump);
      }
    }

    // Resume a suspended coroutine. It sees the image of its last yield if that is still on the
    // stack or was small enough to be saved, whatever ran on the stack in between.
    method Resume(id: nat, jump: Jump) returns (view: seq<byte>)
      requires Valid() && id in images && jump.Fits(stackSize)
      modifies this
      ensures Valid() && images == PrivateResume(old(images), id, jump)
      ensures old(stacks)[id % STACKS].owner == Some(id) || |old(images)[id]| < BUFFER_SIZE ==> view == old(images)[id]
    {
      assert ImageKept(id);
      var seen := SwitchIn(id);
      SwitchOut(id, jump);
      view := seen.value;
    }

    // Resume(NewCoroutine(func)): a coroutine that was not live, with a clean start.
    method Start(jump: Jump) returns (id: nat)
      requires Valid() && (idle != [] || nextId < POOL_SIZE) && jump.Fits(stackSize)
      modifies this
      ensures Valid() && id !in old(images) && id != MAIN
      ensures images == PrivateResume(old(images), id, jump)
    {
      id := Pop();
      var _ := SwitchIn(id);
      SwitchOut(id, jump);
    }

    // Any script of starts and wake-ups, over any number of coroutines: the shared stacks cannot
    // be told apart from private ones as long as every yielded region fits the save buffer.
    method Run(script: seq<Step>) returns (trace: seq<Sighting>)
      requires Valid() && (forall c :: c in images ==> |images[c]| < BUFFER_SIZE)
      requires forall k :: 0 <= k < |script| ==> script[k].jump.Fits(stackSize) && script[k].jump.Small()
      modifies this
      ensures Valid() && Indistinguishable(old(images), script, trace)
      decreases |script|
    {
      if script == [] {
        return [];
      }
      var seen;
      match script[0] {
        case Go(jump) =>
          if idle == [] && nextId == POOL_SIZE {
            seen := Skipped;
          } else {
            var id := Start(jump);
            seen := Started(id);
          }
        case Wake(id, jump) =>
          if id < nextId && id != MAIN && id !in idle {
            var view := Resume(id, jump);
            seen := Saw(view);
          } else {
            seen := Skipped;
          }
      }
      var rest := Run(script[1..]);
      trace := [seen] + rest;
    }
  }
}
