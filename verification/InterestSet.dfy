/**
 The epoll interest set of one scheduler against the per-socket bookkeeping (`SockCtx`):
 which coroutine waits for reading and which for writing on each descriptor.
 */
module InterestSet {
  import opened Basics

  const NONE: nat := 0xFFFF_FFFF     // -1 as uint32

  datatype Slot = Slot(coId: nat, schedId: nat)

  const EMPTY_SLOT: Slot := Slot(NONE, NONE)

  datatype SockCtx = SockCtx(readEv: Slot, writeEv: Slot) {
    predicate HasRead() { readEv.coId != NONE }
    predicate HasReadOn(schedId: nat) { schedId == readEv.schedId && readEv.coId != NONE }
    predicate HasWrite() { writeEv.coId != NONE }
    predicate HasWriteOn(schedId: nat) { schedId == writeEv.schedId && writeEv.coId != NONE }
    predicate HasEvent() { HasRead() || HasWrite() }
  }

  // The kernel's registration: EPOLLIN and EPOLLOUT, always edge-triggered.
  datatype Mask = Mask(input: bool, output: bool)

  datatype Ctl = Add(mask: Mask) | Mod(mask: Mask) | Del

  datatype IoEvent = EvRead | EvWrite

  datatype Call =
    | CallAddRead(fd: int, coId: nat) | CallAddWrite(fd: int, coId: nat)
    | CallDelRead(fd: int) | CallDelWrite(fd: int) | CallDelEvent(fd: int)

  // What a sequence of calls leaves in the slots of one descriptor: an event that is there already is
  // kept, and calls for another descriptor, or for a negative one, change nothing.
  function AfterCall(c: SockCtx, schedId: nat, fd: int, call: Call): SockCtx {
    if fd < 0 || call.fd != fd then c
    else
      match call
      case CallAddRead(_, coId) => if c.HasRead() then c else c.(readEv := Slot(coId, schedId))
      case CallAddWrite(_, coId) => if c.HasWrite() then c else c.(writeEv := Slot(coId, schedId))
      case CallDelRead(_) => c.(readEv := EMPTY_SLOT)
      case CallDelWrite(_) => c.(writeEv := EMPTY_SLOT)
      case CallDelEvent(_) => SockCtx(EMPTY_SLOT, EMPTY_SLOT)
  }

  function AfterCalls(c: SockCtx, schedId: nat, fd: int, calls: seq<Call>): SockCtx {
    if calls == [] then c
    else AfterCall(AfterCalls(c, schedId, fd, calls[..|calls| - 1]), schedId, fd, calls[|calls| - 1])
  }

  predicate ProperIds(calls: seq<Call>) {
    forall k :: 0 <= k < |calls| && (calls[k].CallAddRead? || calls[k].CallAddWrite?) ==> calls[k].coId < NONE
  }

  // Reads are asked for, and given up, by these calls.
  predicate AddsRead(call: Call, fd: int) { call.CallAddRead? && call.fd == fd }
  predicate DropsRead(call: Call, fd: int) { (call.CallDelRead? || call.CallDelEvent?) && call.fd == fd }
  predicate AddsWrite(call: Call, fd: int) { call.CallAddWrite? && call.fd == fd }
  predicate DropsWrite(call: Call, fd: int) { (call.CallDelWrite? || call.CallDelEvent?) && call.fd == fd }

  // Call k asks for it and no later one gives it up.
  predicate ReadHeldBy(calls: seq<Call>, fd: int, k: nat) {
    && k < |calls| && AddsRead(calls[k], fd)
    && (forall j :: k < j < |calls| ==> !DropsRead(calls[j], fd))
  }

  predicate WriteHeldBy(calls: seq<Call>, fd: int, k: nat) {
    && k < |calls| && AddsWrite(calls[k], fd)
    && (forall j :: k < j < |calls| ==> !DropsWrite(calls[j], fd))
  }

  // One call more: what held before still does unless the call takes it back, and the call may hold.
  lemma {:induction false} HeldStep(calls: seq<Call>, fd: int)
    requires calls != []
    ensures var n := |calls| - 1;
            && (forall k: nat :: k < n ==>
                  (ReadHeldBy(calls, fd, k) <==> ReadHeldBy(calls[..n], fd, k) && !DropsRead(calls[n], fd)))
            && (forall k: nat :: k < n ==>
                  (WriteHeldBy(calls, fd, k) <==> WriteHeldBy(calls[..n], fd, k) && !DropsWrite(calls[n], fd)))
            && (ReadHeldBy(calls, fd, n) <==> AddsRead(calls[n], fd))
            && (WriteHeldBy(calls, fd, n) <==> AddsWrite(calls[n], fd))
  {
    var n := |calls| - 1;
    var before := calls[..n];
    forall k: nat | k < n
      ensures ReadHeldBy(calls, fd, k) <==> ReadHeldBy(before, fd, k) && !DropsRead(calls[n], fd)
      ensures WriteHeldBy(calls, fd, k) <==> WriteHeldBy(before, fd, k) && !DropsWrite(calls[n], fd)
    {
      assert before[k] == calls[k];
      assert forall j :: k < j < n ==> before[j] == calls[j];
    }
  }

  // On a fresh descriptor: reading is registered if and only if some call asked for it that no
  // later call took back, and likewise for writing.
  lemma {:induction false} RegisteredExactly(schedId: nat, fd: int, calls: seq<Call>)
    requires 0 <= fd && ProperIds(calls)
    ensures var c := AfterCalls(SockCtx(EMPTY_SLOT, EMPTY_SLOT), schedId, fd, calls);
            && (c.HasRead() <==> exists k :: ReadHeldBy(calls, fd, k))
            && (c.HasWrite() <==> exists k :: WriteHeldBy(calls, fd, k))
    decreases |calls|
  {
    if calls != [] {
      var n := |calls| - 1;
      RegisteredExactly(schedId, fd, calls[..n]);
      HeldStep(calls, fd);
      assert forall k: nat :: (ReadHeldBy(calls, fd, k) ==> k <= n) && (ReadHeldBy(calls[..n], fd, k) ==> k < n);
      assert forall k: nat :: (WriteHeldBy(calls, fd, k) ==> k <= n) && (WriteHeldBy(calls[..n], fd, k) ==> k < n);
    }
  }

  // The coroutine that gets the event is the first that asked and was not taken back: k here.
  lemma {:induction false} FirstAskerIsServed(schedId: nat, fd: int, calls: seq<Call>, k: nat)
    requires 0 <= fd && ProperIds(calls)
    ensures ReadHeldBy(calls, fd, k) && (forall j :: 0 <= j < k ==> !ReadHeldBy(calls, fd, j)) ==>
              AfterCalls(SockCtx(EMPTY_SLOT, EMPTY_SLOT), schedId, fd, calls).readEv == Slot(calls[k].coId, schedId)
    ensures WriteHeldBy(calls, fd, k) && (forall j :: 0 <= j < k ==> !WriteHeldBy(calls, fd, j)) ==>
              AfterCalls(SockCtx(EMPTY_SLOT, EMPTY_SLOT), schedId, fd, calls).writeEv == Slot(calls[k].coId, schedId)
    decreases |calls|
  {
    if calls != [] {
      var n := |calls| - 1;
      HeldStep(calls, fd);
      RegisteredExactly(schedId, fd, calls[..n]);
      RegisteredExactly(schedId, fd, calls);
      FirstAskerIsServed(schedId, fd, calls[..n], k);
      assert forall j: nat :: (ReadHeldBy(calls[..n], fd, j) ==> j < n) && (WriteHeldBy(calls[..n], fd, j) ==> j < n);
    }
  }

  class Epoll {
    const schedId: nat
    var kernel: map<int, Mask>
    var rejected: nat               // epoll_ctl calls the kernel refused
    var sockets: map<int, SockCtx>

    constructor (schedId: nat, wakeUpFd: int)
      requires schedId != NONE && 0 <= wakeUpFd
      ensures Agrees() && rejected == 0 && this.schedId == schedId
      ensures Ctx(wakeUpFd) == SockCtx(Slot(0, schedId), EMPTY_SLOT)
      ensures forall fd :: fd != wakeUpFd ==> Ctx(fd) == SockCtx(EMPTY_SLOT, EMPTY_SLOT)
    {
      this.schedId := schedId;
      kernel, rejected, sockets := map[], 0, map[];
      new;
      var _ := AddEvRead(wakeUpFd, 0);
    }

    // get_sock_ctx: an entry that was never touched has no events.
    function Ctx(fd: int): SockCtx
      reads this`sockets
    {
      if fd in sockets then sockets[fd] else SockCtx(EMPTY_SLOT, EMPTY_SLOT)
    }

    // A filled slot belongs to this scheduler, an empty one to nobody.
    ghost predicate SlotSound(slot: Slot) {
      slot.schedId == if slot.coId != NONE then schedId else NONE
    }

    // The registered mask is exactly the pair of slots; no registration, no events.
    ghost predicate AgreesOn(fd: int)
      reads this
    {
      var c := Ctx(fd);
      && SlotSound(c.readEv) && SlotSound(c.writeEv)
      && (fd in kernel <==> c.HasEvent())
      && (fd in kernel ==> kernel[fd] == Mask(c.HasRead(), c.HasWrite()))
    }

    ghost predicate Agrees()
      reads this
    {
      forall fd :: AgreesOn(fd)
    }

    // epoll_ctl: ADD needs an absent descriptor, MOD and DEL a present one.
    method EpollCtl(fd: int, ctl: Ctl) returns (ok: bool)
      modifies this`kernel, this`rejected
      ensures ok == (if ctl.Add? then fd !in old(kernel) else fd in old(kernel))
      ensures rejected == old(rejected) + if ok then 0 else 1
      ensures kernel == if !ok then old(kernel)
                        else if ctl.Del? then old(kernel) - {fd} else old(kernel)[fd := ctl.mask]
    {
      ok := if ctl.Add? then fd !in kernel else fd in kernel;
      if !ok {
        rejected := rejected + 1;
      } else if ctl.Del? {
        kernel := kernel - {fd};
      } else {
        kernel := kernel[fd := ctl.mask];
      }
    }

    // The bookkeeping stays in step unless the coroutine id is the one value that means "nobody".
    method AddEvRead(fd: int, coId: nat) returns (ok: bool)
      requires Agrees() && schedId != NONE && coId < UINT32_BOUND
      modifies this
      ensures rejected == old(rejected)
      ensures ok <==> 0 <= fd
      ensures forall other :: other != fd ==> Ctx(other) == old(Ctx(other)) && AgreesOn(other)
      ensures Ctx(fd) == if fd < 0 || old(Ctx(fd)).HasRead() then old(Ctx(fd))
                         else old(Ctx(fd)).(readEv := Slot(coId, schedId))
      ensures AgreesOn(fd) <==> fd < 0 || old(Ctx(fd)).HasRead() || coId != NONE
    {
      if fd < 0 { return false; }
      var c := Ctx(fd);
      assert AgreesOn(fd);
      if c.HasRead() { return true; }
      var hasWrite := c.HasWriteOn(schedId);
      ok := EpollCtl(fd, if hasWrite then Mod(Mask(true, true)) else Add(Mask(true, false)));
      if ok {
        sockets := sockets[fd := c.(readEv := Slot(coId, schedId))];
      }
      forall other | other != fd ensures AgreesOn(other) { assert old(AgreesOn(other)); }
    }

    method AddEvWrite(fd: int, coId: nat) returns (ok: bool)
      requires Agrees() && schedId != NONE && coId < UINT32_BOUND
      modifies this
      ensures rejected == old(rejected)
      ensures ok <==> 0 <= fd
      ensures forall other :: other != fd ==> Ctx(other) == old(Ctx(other)) && AgreesOn(other)
      ensures Ctx(fd) == if fd < 0 || old(Ctx(fd)).HasWrite() then old(Ctx(fd))
                         else old(Ctx(fd)).(writeEv := Slot(coId, schedId))
      ensures AgreesOn(fd) <==> fd < 0 || old(Ctx(fd)).HasWrite() || coId != NONE
    {
      if fd < 0 { return false; }
      var c := Ctx(fd);
      assert AgreesOn(fd);
      if c.HasWrite() { return true; }
      var hasRead := c.HasReadOn(schedId);
      ok := EpollCtl(fd, if hasRead then Mod(Mask(true, true)) else Add(Mask(false, true)));
      if ok {
        sockets := sockets[fd := c.(writeEv := Slot(coId, schedId))];
      }
      forall other | other != fd ensures AgreesOn(other) { assert old(AgreesOn(other)); }
    }

    method DelEvRead(fd: int)
      requires Agrees()
      modifies this
      ensures Agrees() && rejected == old(rejected)
      ensures forall other :: other != fd ==> Ctx(other) == old(Ctx(other))
      ensures Ctx(fd) == if fd < 0 then old(Ctx(fd)) else old(Ctx(fd)).(readEv := EMPTY_SLOT)
    {
      if fd < 0 { return; }
      var c := Ctx(fd);
      assert AgreesOn(fd);
      if !c.HasRead() { return; }
      sockets := sockets[fd := c.(readEv := EMPTY_SLOT)];
      var _ := EpollCtl(fd, if !c.HasWrite() then Del else Mod(Mask(false, true)));
      forall other | other != fd ensures AgreesOn(other) { assert old(AgreesOn(other)); }
    }

    method DelEvWrite(fd: int)
      requires Agrees()
      modifies this
      ensures Agrees() && rejected == old(rejected)
      ensures forall other :: other != fd ==> Ctx(other) == old(Ctx(other))
      ensures Ctx(fd) == if fd < 0 then old(Ctx(fd)) else old(Ctx(fd)).(writeEv := EMPTY_SLOT)
    {
      if fd < 0 { return; }
      var c := Ctx(fd);
      assert AgreesOn(fd);
      if !c.HasWrite() { return; }
      sockets := sockets[fd := c.(writeEv := EMPTY_SLOT)];
      var _ := EpollCtl(fd, if !c.HasRead() then Del else Mod(Mask(true, false)));
      forall other | other != fd ensures AgreesOn(other) { assert old(AgreesOn(other)); }
    }

    method DelEvent(fd: int)
      requires Agrees()
      modifies this
      ensures Agrees() && rejected == old(rejected)
      ensures forall other :: other != fd ==> Ctx(other) == old(Ctx(other))
      ensures Ctx(fd) == if fd < 0 then old(Ctx(fd)) else SockCtx(EMPTY_SLOT, EMPTY_SLOT)
    {
      if fd < 0 { return; }
      var c := Ctx(fd);
      assert AgreesOn(fd);
      if c.HasEvent() {
        sockets := sockets[fd := SockCtx(EMPTY_SLOT, EMPTY_SLOT)];
        var _ := EpollCtl(fd, Del);
        forall other | other != fd ensures AgreesOn(other) { assert old(AgreesOn(other)); }
      }
    }

    // SchedulerImpl::DelIoEvent(fd, event): deleting the read event falls through to the write event,
    // so the other direction survives exactly when it was the write event that was to go, or when
    // there was nothing else to lose.
    method DelIoEvent(fd: int, event: IoEvent)
      requires Agrees()
      modifies this
      ensures Agrees() && rejected == old(rejected)
      ensures forall other :: other != fd ==> Ctx(other) == old(Ctx(other))
      ensures 0 <= fd ==> (event == EvRead ==> !Ctx(fd).HasRead()) && !Ctx(fd).HasWrite()
      ensures event == EvWrite ==> Ctx(fd).readEv == old(Ctx(fd)).readEv
      ensures event == EvRead ==> (Ctx(fd).writeEv == old(Ctx(fd)).writeEv <==> fd < 0 || !old(Ctx(fd)).HasWrite())
    {
      assert AgreesOn(fd);
      if event == EvRead {
        DelEvRead(fd);
      }
      DelEvWrite(fd);
    }

    // Any sequence of calls: the kernel never refuses one, the slots are those the calls leave, and
    // the kernel's registrations are exactly the slots.
    method Run(calls: seq<Call>)
      requires Agrees() && schedId != NONE && ProperIds(calls)
      modifies this
      ensures Agrees() && rejected == old(rejected)
      ensures forall fd :: Ctx(fd) == AfterCalls(old(Ctx(fd)), schedId, fd, calls)
    {
      for i := 0 to |calls|
        invariant Agrees() && rejected == old(rejected)
        invariant forall fd :: Ctx(fd) == AfterCalls(old(Ctx(fd)), schedId, fd, calls[..i])
      {
        assert calls[..i + 1][..i] == calls[..i];
        Step(calls[i]);
      }
      assert calls[..|calls|] == calls;
    }

    // One call of the sequence.
    method Step(call: Call)
      requires Agrees() && schedId != NONE && ProperIds([call])
      modifies this
      ensures Agrees() && rejected == old(rejected)
      ensures forall fd :: Ctx(fd) == AfterCall(old(Ctx(fd)), schedId, fd, call)
    {
      assert [call][0] == call;
      match call {
        case CallAddRead(fd, coId) => var _ := AddEvRead(fd, coId);
        case CallAddWrite(fd, coId) => var _ := AddEvWrite(fd, coId);
        case CallDelRead(fd) => DelEvRead(fd);
        case CallDelWrite(fd) => DelEvWrite(fd);
        case CallDelEvent(fd) => DelEvent(fd);
      }
    }
  }

  // Two coroutines wait on a socket, one to read and one to write. The reader gives up its event, and
  // the writer's is gone with it.
  method WriteEventIsLost() returns (epoll: Epoll, before: SockCtx)
    ensures fresh(epoll) && before == SockCtx(Slot(1, 0), Slot(2, 0))
    ensures !epoll.Ctx(7).HasWrite() && 7 !in epoll.kernel
  {
    epoll := new Epoll(0, 3);
    var _ := epoll.AddEvRead(7, 1);
    assert forall fd :: epoll.AgreesOn(fd);
    var _ := epoll.AddEvWrite(7, 2);
    assert forall fd :: epoll.AgreesOn(fd);
    before := epoll.Ctx(7);
    epoll.DelIoEvent(7, EvRead);
    assert epoll.AgreesOn(7);
  }
}
