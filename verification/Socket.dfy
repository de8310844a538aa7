/**
 The partial-transfer loops `recvn` and `send`, against a kernel that hands over any number
 of bytes at a time, interrupts, and makes the caller wait, in any order.
 */
module Sockets {
  import opened Basics

  // What the kernel does at one call.
  datatype KernelTurn =
    | Transfer(most: nat)        // up to `most` bytes go through
    | EndOfFile                  // the call reports 0
    | WouldBlock(ready: bool)    // EAGAIN; the wait ends with the socket ready, or times out
    | Interrupted                // EINTR
    | Broken                     // any other error

  datatype Direction = In | Out

  // `StillWaiting`: the kernel has not given the call an end yet.
  datatype Outcome = Returned(value: int) | StillWaiting

  function Min(a: nat, b: nat): nat {
    if a < b then a else b
  }

  predicate Fails(turn: KernelTurn) {
    turn.Broken? || turn == WouldBlock(false)
  }

  // A failure ends every call; a receive also ends when nothing is reported.
  predicate Ends(turn: KernelTurn, dir: Direction) {
    Fails(turn) || (dir == In && (turn.EndOfFile? || turn == Transfer(0)))
  }

  // The bytes the kernel has room for before the first turn that ends the call.
  function Room(turns: seq<KernelTurn>, dir: Direction): nat {
    if turns == [] || Ends(turns[0], dir) then 0
    else (if turns[0].Transfer? then turns[0].most else 0) + Room(turns[1..], dir)
  }

  // The transfers before that turn: each of them moves at least one byte, however many it could.
  function Transfers(turns: seq<KernelTurn>): (n: nat)
    ensures n <= Room(turns, In)
  {
    if turns == [] || Ends(turns[0], In) then 0
    else (if turns[0].Transfer? then 1 else 0) + Transfers(turns[1..])
  }

  // The turns that are left when n bytes have gone through.
  function Rest(turns: seq<KernelTurn>, n: nat): seq<KernelTurn> {
    if turns == [] then []
    else if turns[0].Transfer? then
      if n <= turns[0].most then turns[1..] else Rest(turns[1..], n - turns[0].most)
    else Rest(turns[1..], n)
  }

  lemma {:induction false} RestKeepsTransfers(turns: seq<KernelTurn>, n: nat)
    requires 0 < n <= Transfers(turns)
    ensures Transfers(turns) <= Transfers(Rest(turns, n)) + n
  {
    if turns[0].Transfer? {
      if turns[0].most < n && n - turns[0].most <= Transfers(turns[1..]) {
        RestKeepsTransfers(turns[1..], n - turns[0].most);
      }
    } else {
      RestKeepsTransfers(turns[1..], n);
    }
  }

  // The bytes that turns could move.
  function Sum(turns: seq<KernelTurn>): nat {
    if turns == [] then 0
    else Sum(turns[..|turns| - 1]) + if turns[|turns| - 1].Transfer? then turns[|turns| - 1].most else 0
  }

  // Turn k tells a receiver that there is nothing: the end of the file, or a transfer of no bytes
  // because the kernel moves none or all that has arrived was moved before.
  predicate TellsZero(turns: seq<KernelTurn>, k: nat, arrived: nat)
    requires k < |turns|
  {
    turns[k].EndOfFile? || (turns[k].Transfer? && (turns[k].most == 0 || arrived <= Sum(turns[..k])))
  }

  // A receive of n bytes goes on after k turns: they are not through, nothing has failed, and nobody has
  // told it that there is nothing.
  predicate GoesOn(turns: seq<KernelTurn>, k: nat, arrived: nat, n: nat)
    requires k <= |turns|
  {
    && (n <= arrived ==> Sum(turns[..k]) < n)
    && forall j :: 0 <= j < k ==> !Fails(turns[j]) && !TellsZero(turns, j, arrived)
  }

  // It ends at turn k, by a failure or by being told that there is nothing.
  predicate FailsAt(turns: seq<KernelTurn>, k: nat, arrived: nat, n: nat) {
    k < |turns| && GoesOn(turns, k, arrived, n) && Fails(turns[k])
  }

  predicate ZeroAt(turns: seq<KernelTurn>, k: nat, arrived: nat, n: nat) {
    k < |turns| && GoesOn(turns, k, arrived, n) && TellsZero(turns, k, arrived)
  }

  lemma {:induction false} SumGrows(turns: seq<KernelTurn>, i: nat, j: nat)
    requires i <= j <= |turns|
    ensures Sum(turns[..i]) <= Sum(turns[..j])
    decreases j
  {
    if i < j {
      SumGrows(turns, i, j - 1);
      assert turns[..j][..j - 1] == turns[..j - 1];
    }
  }

  lemma SumStep(turns: seq<KernelTurn>, k: nat)
    requires k < |turns|
    ensures Sum(turns[..k + 1]) == Sum(turns[..k]) + if turns[k].Transfer? then turns[k].most else 0
  {
    assert turns[..k + 1][..k] == turns[..k];
  }

  // Only one thing can happen first.
  lemma OneEnd(turns: seq<KernelTurn>, k: nat, arrived: nat, n: nat)
    requires k < |turns| && GoesOn(turns, k, arrived, n)
    ensures Fails(turns[k]) ==> forall j :: !ZeroAt(turns, j, arrived, n)
    ensures TellsZero(turns, k, arrived) ==> forall j :: !FailsAt(turns, j, arrived, n)
    ensures n <= arrived && n <= Sum(turns[..k + 1]) ==>
              forall j :: !ZeroAt(turns, j, arrived, n) && !FailsAt(turns, j, arrived, n)
    ensures Fails(turns[k]) || TellsZero(turns, k, arrived) ==> !GoesOn(turns, |turns|, arrived, n)
    ensures n <= arrived && n <= Sum(turns[..k + 1]) ==> !GoesOn(turns, |turns|, arrived, n)
  {
    SumStep(turns, k);
    SumGrows(turns, k + 1, |turns|);
    forall j | k < j <= |turns| ensures Sum(turns[..k + 1]) <= Sum(turns[..j]) {
      SumGrows(turns, k + 1, j);
    }
  }

  // The kernel reports on a call, even of no bytes, before it fails.
  predicate Reports(turns: seq<KernelTurn>) {
    turns != [] && !Fails(turns[0]) && (turns[0].Transfer? || turns[0].EndOfFile? || Reports(turns[1..]))
  }

  // The kernel takes n bytes before it fails.
  predicate Accepts(turns: seq<KernelTurn>, n: nat) {
    if n == 0 then Reports(turns) else n <= Room(turns, Out)
  }

  predicate SomeFails(turns: seq<KernelTurn>) {
    turns != [] && (Fails(turns[0]) || SomeFails(turns[1..]))
  }

  // ---------------------------------------------------------------- a receive, turn by turn

  datatype End = Done | Nothing | Failed | Waiting

  // How a receive of n bytes ends, how many bytes it moves, and which turns are left.
  datatype Receipt = Receipt(end: End, moved: nat, rest: seq<KernelTurn>)

  function Receive(turns: seq<KernelTurn>, arrived: nat, n: nat): (r: Receipt)
    ensures r.moved <= n && r.moved <= arrived
  {
    if turns == [] then Receipt(Waiting, 0, [])
    else
      match turns[0]
      case Transfer(most) =>
        var got := Min(Min(most, n), arrived);
        if got == n then Receipt(Done, got, turns[1..])
        else if got == 0 then Receipt(Nothing, 0, turns[1..])
        else
          var later := Receive(turns[1..], arrived - got, n - got);
          later.(moved := got + later.moved)
      case EndOfFile => Receipt(if n == 0 then Done else Nothing, 0, turns[1..])
      case WouldBlock(ready) => if ready then Receive(turns[1..], arrived, n) else Receipt(Failed, 0, turns[1..])
      case Interrupted => Receive(turns[1..], arrived, n)
      case Broken => Receipt(Failed, 0, turns[1..])
  }

  // It moves what was asked for, has arrived and gets through, and is done exactly when that is all.
  lemma {:induction false} ReceiveMoves(turns: seq<KernelTurn>, arrived: nat, n: nat)
    requires 0 < n
    ensures var r := Receive(turns, arrived, n);
            && r.moved == Min(n, Min(arrived, Room(turns, In)))
            && (r.end == Done <==> r.moved == n)
            && (r.end == Done ==> r.rest == Rest(turns, n))
  {
    if turns != [] {
      match turns[0]
      case Transfer(most) =>
        var got := Min(Min(most, n), arrived);
        if 0 < got < n { ReceiveMoves(turns[1..], arrived - got, n - got); }
      case EndOfFile =>
      case WouldBlock(ready) => if ready { ReceiveMoves(turns[1..], arrived, n); }
      case Interrupted => ReceiveMoves(turns[1..], arrived, n);
      case Broken =>
    }
  }

  // A receive of no bytes is done as soon as the kernel reports on it.
  lemma {:induction false} ReceiveNoBytes(turns: seq<KernelTurn>, arrived: nat)
    ensures var r := Receive(turns, arrived, 0);
            && (r.end == Done <==> Reports(turns))
            && (r.end == Failed <==> !Reports(turns) && SomeFails(turns))
            && r.end != Nothing
  {
    if turns != [] && !Fails(turns[0]) {
      ReceiveNoBytes(turns[1..], arrived);
    }
  }

  // What ends it, seen from turn k on, when it has gone on so far.
  lemma {:induction false} ReceiveFrom(turns: seq<KernelTurn>, k: nat, arrived: nat, n: nat)
    requires k <= |turns| && 0 < n && GoesOn(turns, k, arrived, n)
    ensures var m := MovedBy(turns, k, arrived);
            && m < n
            && match Receive(turns[k..], arrived - m, n - m).end
               case Failed => exists j :: FailsAt(turns, j, arrived, n)
               case Nothing => exists j :: ZeroAt(turns, j, arrived, n)
               case Waiting => GoesOn(turns, |turns|, arrived, n)
               case Done => exists j :: DoneAt(turns, j, arrived, n)
    decreases |turns| - k
  {
    if k < |turns| {
      ReceiveTurn(turns, k, arrived, n);
      if Fails(turns[k]) {
        assert FailsAt(turns, k, arrived, n);
      } else if TellsZero(turns, k, arrived) {
        assert ZeroAt(turns, k, arrived, n);
      } else if n <= arrived && n <= Sum(turns[..k + 1]) {
        assert DoneAt(turns, k, arrived, n);
      } else {
        ReceiveFrom(turns, k + 1, arrived, n);
      }
    }
  }

  // The bytes moved by the first k turns, if the receive goes on so far.
  function MovedBy(turns: seq<KernelTurn>, k: nat, arrived: nat): (m: nat)
    requires k <= |turns|
    ensures m <= arrived
  {
    Min(arrived, Sum(turns[..k]))
  }

  // One turn more: it ends the receive, or leaves it to the next.
  lemma {:induction false} ReceiveTurn(turns: seq<KernelTurn>, k: nat, arrived: nat, n: nat)
    requires k < |turns| && 0 < n && GoesOn(turns, k, arrived, n)
    ensures var m, m' := MovedBy(turns, k, arrived), MovedBy(turns, k + 1, arrived);
            && m < n
            && var end := Receive(turns[k..], arrived - m, n - m).end;
               if Fails(turns[k]) then end == Failed
               else if TellsZero(turns, k, arrived) then end == Nothing
               else if n <= arrived && n <= Sum(turns[..k + 1]) then end == Done
               else && m' < n && GoesOn(turns, k + 1, arrived, n)
                    && end == Receive(turns[k + 1..], arrived - m', n - m').end
  {
    SumStep(turns, k);
    assert turns[k..][0] == turns[k] && turns[k..][1..] == turns[k + 1..];
  }

  predicate DoneAt(turns: seq<KernelTurn>, k: nat, arrived: nat, n: nat) {
    k < |turns| && GoesOn(turns, k, arrived, n) && n <= arrived && n <= Sum(turns[..k + 1])
  }

  // The end, exactly: a failure comes first, or being told that there is nothing, or neither yet.
  lemma {:induction false} ReceiveEnds(turns: seq<KernelTurn>, arrived: nat, n: nat)
    requires 0 < n
    ensures var end := Receive(turns, arrived, n).end;
            && (end == Failed <==> exists k :: FailsAt(turns, k, arrived, n))
            && (end == Nothing <==> exists k :: ZeroAt(turns, k, arrived, n))
            && (end == Waiting <==> GoesOn(turns, |turns|, arrived, n))
  {
    assert turns[..0] == [] && turns[0..] == turns;
    ReceiveFrom(turns, 0, arrived, n);
    forall k | FailsAt(turns, k, arrived, n) || ZeroAt(turns, k, arrived, n) || DoneAt(turns, k, arrived, n)
      ensures FailsAt(turns, k, arrived, n) ==>
                forall j :: !ZeroAt(turns, j, arrived, n) && !DoneAt(turns, j, arrived, n)
      ensures ZeroAt(turns, k, arrived, n) ==>
                forall j :: !FailsAt(turns, j, arrived, n) && !DoneAt(turns, j, arrived, n)
      ensures !GoesOn(turns, |turns|, arrived, n)
    {
      OneEnd(turns, k, arrived, n);
      forall j | DoneAt(turns, j, arrived, n) ensures DoneAt(turns, k, arrived, n) {
        OneEnd(turns, j, arrived, n);
      }
    }
  }

  lemma AppendNext(out: seq<byte>, data: seq<byte>, done: nat, more: nat)
    requires done + more <= |data|
    ensures (out + data[..done]) + data[done..done + more] == out + data[..done + more]
  {
    assert data[..done + more] == data[..done] + data[done..done + more];
  }

  lemma MoveFront(buf: seq<byte>, incoming: seq<byte>, got: nat)
    requires got <= |incoming|
    ensures (buf + incoming[..got]) + incoming[got..] == buf + incoming
  {
  }

  class Socket {
    var incoming: seq<byte>           // what the peer sent and nobody has read yet
    var outgoing: seq<byte>           // what the kernel has accepted from us
    var turns: seq<KernelTurn>        // the kernel's behaviour from here on

    constructor (incoming: seq<byte>, turns: seq<KernelTurn>)
      ensures this.incoming == incoming && outgoing == [] && this.turns == turns
    {
      this.incoming, outgoing, this.turns := incoming, [], turns;
    }

    // The buffer is always the front of the stream, as much of it as was asked for, has arrived and
    // got through. So n comes back exactly when the kernel lets n bytes through before it ends the
    // call, and then they are the next n bytes of the stream.
    method Recvn(n: nat) returns (r: Outcome, buf: seq<byte>)
      modifies this`incoming, this`turns
      ensures buf + incoming == old(incoming)
      ensures 0 < n ==> |buf| == Min(n, Min(|old(incoming)|, Room(old(turns), In)))
      ensures 0 < n ==> (r == Returned(n) <==> |buf| == n)
      ensures r == Returned(n) ==> buf == old(incoming)[..n] && incoming == old(incoming)[n..]
      ensures 0 < n && r == Returned(n) ==> turns == Rest(old(turns), n)
      ensures r.Returned? ==> r.value == n || r.value == 0 || r.value == -1
      // for n bytes: a failure first, being told that there is nothing first, or neither yet
      ensures 0 < n ==> (r == Returned(-1) <==> exists k :: FailsAt(old(turns), k, |old(incoming)|, n))
      ensures 0 < n ==> (r == Returned(0) <==> exists k :: ZeroAt(old(turns), k, |old(incoming)|, n))
      ensures 0 < n ==> (r.StillWaiting? <==> GoesOn(old(turns), |old(turns)|, |old(incoming)|, n))
      ensures n == 0 ==> buf == [] && (r == Returned(0) <==> Reports(old(turns)))
      ensures n == 0 ==> (r == Returned(-1) <==> !Reports(old(turns)) && SomeFails(old(turns)))
    {
      ghost var whole := Receive(turns, |incoming|, n);
      if n == 0 {
        ReceiveNoBytes(turns, |incoming|);
      } else {
        ReceiveMoves(turns, |incoming|, n);
        ReceiveEnds(turns, |incoming|, n);
      }
      buf := [];
      var remain: nat := n;
      while turns != []
        invariant remain + |buf| == n && buf + incoming == old(incoming)
        invariant 0 < n ==> 0 < remain
        invariant var later := Receive(turns, |incoming|, remain);
                  later.end == whole.end && |buf| + later.moved == whole.moved && later.rest == whole.rest
        decreases |turns|
      {
        var turn := turns[0];
        turns := turns[1..];
        match turn {
          case Transfer(most) =>
            var got := Min(Min(most, remain), |incoming|);
            MoveFront(buf, incoming, got);
            buf := buf + incoming[..got];
            incoming := incoming[got..];
            if got == remain { return Returned(n), buf; }
            if got == 0 { return Returned(0), buf; }
            remain := remain - got;
          case EndOfFile =>
            return Returned(if remain == 0 then n else 0), buf;
          case WouldBlock(ready) =>
            if !ready { return Returned(-1), buf; }
          case Interrupted =>
          case Broken =>
            return Returned(-1), buf;
        }
      }
      r := StillWaiting;
    }

    // The kernel accepts the bytes in order, as many as it has room for before it fails; `send`
    // returns n exactly when that is all of them, and -1 exactly when it fails before.
    method Send(data: seq<byte>) returns (r: Outcome)
      modifies this`outgoing, this`turns
      ensures outgoing == old(outgoing) + data[..Min(|data|, Room(old(turns), Out))]
      ensures r == Returned(|data|) <==> Accepts(old(turns), |data|)
      ensures r == Returned(-1) <==> !Accepts(old(turns), |data|) && SomeFails(old(turns))
      ensures r.Returned? ==> r.value == |data| || r.value == -1
    {
      var done: nat := 0;
      var remain: nat := |data|;
      assert data[..0] == [];
      while turns != []
        invariant done + remain == |data| && (data != [] ==> 0 < remain)
        invariant outgoing == old(outgoing) + data[..done]
        invariant data != [] ==> Room(old(turns), Out) == done + Room(turns, Out)
        invariant data == [] ==> (Reports(turns) <==> Reports(old(turns)))
        invariant SomeFails(turns) <==> SomeFails(old(turns))
        decreases |turns|
      {
        var turn := turns[0];
        turns := turns[1..];
        match turn {
          case Transfer(most) =>
            var sent := Min(most, remain);
            outgoing := outgoing + data[done..done + sent];
            AppendNext(old(outgoing), data, done, sent);
            done := done + sent;
            if sent == remain {
              assert data[..done] == data;
              return Returned(|data|);
            }
            remain := remain - sent;
          case EndOfFile =>
            if remain == 0 { return Returned(|data|); }
          case WouldBlock(ready) =>
            if !ready { return Returned(-1); }
          case Interrupted =>
          case Broken =>
            return Returned(-1);
        }
      }
      r := StillWaiting;
    }
  }
}
