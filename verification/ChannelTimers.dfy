/**
 Timers and channels together: the wait contexts that a collection of timeouts runs over are those
 of coroutines blocked on channels. For any one channel the collection is a run of its own timeouts.
 */
module ChannelTimers {
  import opened Basics
  import opened ChannelProtocol
  import T = Timers

  // `place` tells which of the timers' contexts are this channel's, queued or popped, and which
  // operation each stands for.
  ghost predicate Tied<V>(w: T.World, s: State<V>, place: map<T.Ctx, nat>) {
    && (forall x :: x in place ==> x in w.ctx && place[x] < |s.ops| && s.ops[place[x]].state == w.ctx[x])
    && (forall x, y :: x in place && y in place && place[x] == place[y] ==> x == y)
  }

  // The operation of this channel that a coroutine waits on, if there is one.
  function WaitsOn(w: T.World, c: T.Co, place: map<T.Ctx, nat>): seq<nat> {
    if c in w.waitCtx && w.waitCtx[c] in place then [place[w.waitCtx[c]]] else []
  }

  function DueOps(w: T.World, due: seq<T.Entry>, place: map<T.Ctx, nat>): seq<nat> {
    if due == [] then []
    else DueOps(w, due[..|due| - 1], place) + WaitsOn(w, due[|due| - 1].co, place)
  }

  lemma FireIsExpire<V>(w: T.World, s: State<V>, place: map<T.Ctx, nat>, c: T.Co)
    requires w.Valid() && Tied(w, s, place)
    ensures Tied(T.Fire(w, c), s.(ops := ExpireAll(s.ops, WaitsOn(w, c, place))), place)
  {
    var op := WaitsOn(w, c, place);
    if op != [] {
      assert op[1..] == [];
    }
  }

  lemma {:induction false} FireAllIsExpireAll<V>(w: T.World, s: State<V>, place: map<T.Ctx, nat>, due: seq<T.Entry>)
    requires w.Valid() && Tied(w, s, place)
    ensures Tied(T.FireAll(w, due), s.(ops := ExpireAll(s.ops, DueOps(w, due, place))), place)
    decreases |due|
  {
    if due != [] {
      var n := |due| - 1;
      var before := DueOps(w, due[..n], place);
      FireAllIsExpireAll(w, s, place, due[..n]);
      var w', s' := T.FireAll(w, due[..n]), s.(ops := ExpireAll(s.ops, before));
      FireIsExpire(w', s', place, due[n].co);
      assert WaitsOn(w', due[n].co, place) == WaitsOn(w, due[n].co, place);
      ExpireAllAppend(s.ops, before, WaitsOn(w, due[n].co, place));
    }
  }

  // A collection pass, seen by one channel: legal timeouts, of exactly the waiting operations whose
  // coroutines are due, after which the contexts still show what the channel's operations are. So
  // all that holds of every run of the channel holds with real timers.
  lemma CollectionIsARun<V>(w: T.World, s: State<V>, place: map<T.Ctx, nat>, due: seq<T.Entry>)
    returns (events: seq<Event<V>>)
    requires w.Valid() && Tied(w, s, place)
    ensures AllExpire(events) && Legal(s, events)
    ensures Exec(s, events) == s.(ops := ExpireAll(s.ops, DueOps(w, due, place)))
    ensures Tied(T.FireAll(w, due), Exec(s, events), place)
  {
    FireAllIsExpireAll(w, s, place, due);
    events := ExpireAllIsARun(s, DueOps(w, due, place));
  }

  // What that does to each operation: it times out exactly if it was waiting and its coroutine is due.
  lemma {:induction false} ExpireAllExactly<V>(ops: seq<Op<V>>, due: seq<nat>, i: nat)
    requires i < |ops|
    ensures ExpireAll(ops, due)[i] == if i in due && ops[i].state == Init then ops[i].(state := Timeout) else ops[i]
    decreases |due|
  {
    if due != [] {
      var next := if Live(ops, due[0]) then ops[due[0] := ops[due[0]].(state := Timeout)] else ops;
      ExpireAllExactly(next, due[1..], i);
      assert i in due <==> i == due[0] || i in due[1..];
    }
  }
}
