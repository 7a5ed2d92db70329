/**
 The epoch tracker: writes and deletes draw generations from one counter, a
 delete counts the writes in flight when it registers, and every later write is
 handed the guards of the deletes registered at that moment.
 */
module EpochTracker {

  // ----- The tracker as a value -----

  datatype Registered<G> = Registered(guard: G, pending: int)

  datatype Tracker<G> = Tracker(epoch: nat, largest: nat, writes: int, deletes: map<nat, Registered<G>>)

  function New<G>(): Tracker<G>
  {
    Tracker(0, 0, 0, map[])
  }

  /** The write's generation is the new epoch. */
  function Started<G>(t: Tracker<G>): Tracker<G>
  {
    t.(epoch := t.epoch + 1, writes := t.writes + 1)
  }

  /** A write that is newer than the largest delete has nothing to signal. */
  function Ended<G>(t: Tracker<G>, gen: nat): Tracker<G>
  {
    t.(writes := t.writes - 1,
       deletes := if gen <= t.largest then
                    map d | d in t.deletes :: if gen > d then t.deletes[d] else t.deletes[d].(pending := t.deletes[d].pending - 1)
                  else t.deletes)
  }

  /** The delete's generation is the new epoch, and it waits for the writes in flight. */
  function Waited<G>(t: Tracker<G>, guard: G): Tracker<G>
  {
    t.(epoch := t.epoch + 1, largest := t.epoch + 1, deletes := t.deletes[t.epoch + 1 := Registered(guard, t.writes)])
  }

  function Unregistered<G>(t: Tracker<G>, gen: nat): Tracker<G>
  {
    t.(deletes := t.deletes - {gen})
  }

  /** `order` lists the generations of the registered deletes, each once. */
  ghost predicate Lists<T>(order: seq<nat>, deletes: map<nat, T>)
  {
    && (forall d :: d in order <==> d in deletes)
    && (forall i, j | 0 <= i < j < |order| :: order[i] != order[j])
  }

  // ----- The tracker as an object -----

  class DeleteState<G> {
    const guard: G
    var pending: int

    constructor (guard: G, pending: int)
      ensures this.guard == guard && this.pending == pending
    {
      this.guard, this.pending := guard, pending;
    }

    /** Signals that an earlier write has finished. */
    method Signal()
      modifies this
      ensures pending == old(pending) - 1
    {
      pending := pending - 1;
    }
  }

  class EpochTracker<G> {
    var epoch: nat
    var largest: nat
    var writes: int
    var deletes: map<nat, DeleteState<G>>

    /** No two registered deletes share their state. */
    ghost predicate Valid()
      reads this
    {
      forall a, b | a in deletes && b in deletes && deletes[a] == deletes[b] :: a == b
    }

    ghost function View(): Tracker<G>
      reads this, deletes.Values
    {
      Tracker(epoch, largest, writes, map d | d in deletes :: Registered(deletes[d].guard, deletes[d].pending))
    }

    constructor ()
      ensures Valid() && View() == New() && deletes == map[]
    {
      epoch, largest, writes, deletes := 0, 0, 0, map[];
    }

    method StartWrite() returns (guards: seq<G>, gen: nat, ghost order: seq<nat>)
      requires Valid()
      modifies this
      ensures Valid() && View() == Started(old(View())) && deletes == old(deletes)
      ensures gen == epoch
      ensures Lists(order, deletes) && |guards| == |order|
      ensures forall i | 0 <= i < |order| :: guards[i] == deletes[order[i]].guard
    {
      epoch := epoch + 1;
      gen := epoch;
      writes := writes + 1;
      guards, order := [], [];
      var todo := deletes.Keys;
      while todo != {}
        invariant todo <= deletes.Keys && |guards| == |order|
        invariant forall d :: d in order <==> d in deletes && d !in todo
        invariant forall i, j | 0 <= i < j < |order| :: order[i] != order[j]
        invariant forall i | 0 <= i < |order| :: guards[i] == deletes[order[i]].guard
      {
        var d :| d in todo;
        guards, order, todo := guards + [deletes[d].guard], order + [d], todo - {d};
      }
    }

    /** Signals every delete that the write came before. */
    method SignalDeletes(gen: nat)
      requires Valid()
      modifies deletes.Values
      ensures forall d | d in deletes ::
                deletes[d].pending == if gen > d then old(deletes[d].pending) else old(deletes[d].pending) - 1
    {
      var todo := deletes.Keys;
      while todo != {}
        invariant todo <= deletes.Keys
        invariant forall d | d in deletes ::
                    deletes[d].pending == if d in todo || gen > d then old(deletes[d].pending) else old(deletes[d].pending) - 1
      {
        var d :| d in todo;
        if gen <= d {
          deletes[d].Signal();
        }
        todo := todo - {d};
      }
    }

    method EndWrite(gen: nat)
      requires Valid()
      modifies this, deletes.Values
      ensures Valid() && View() == Ended(old(View()), gen) && deletes == old(deletes)
    {
      if gen <= largest {
        SignalDeletes(gen);
      }
      writes := writes - 1;
    }

    /** The guard comes with the latch that its waiters block on. */
    method WaitDelete(guard: G, latch: Latch) returns (waiter: Waiter<G>)
      requires Valid()
      modifies this
      ensures Valid() && View() == Waited(old(View()), guard)
      ensures fresh(waiter) && waiter.gen == epoch && waiter.latch == latch && waiter.tracker == this
      ensures fresh(waiter.state) && deletes == old(deletes)[epoch := waiter.state]
    {
      var state := new DeleteState(guard, writes);
      epoch := epoch + 1;
      largest := epoch;
      deletes := deletes[epoch := state];
      waiter := new Waiter(epoch, latch, state, this);
    }
  }

  /** What writes wait on after they were handed a guard. */
  class Latch {
    var done: bool

    constructor ()
      ensures !done
    {
      done := false;
    }

    method Release()
      modifies this
      ensures done
    {
      done := true;
    }
  }

  class Waiter<G> {
    const gen: nat
    const latch: Latch
    const state: DeleteState<G>
    const tracker: EpochTracker<G>

    constructor (gen: nat, latch: Latch, state: DeleteState<G>, tracker: EpochTracker<G>)
      ensures this.gen == gen && this.latch == latch && this.state == state && this.tracker == tracker
    {
      this.gen, this.latch, this.state, this.tracker := gen, latch, state, tracker;
    }

    /** The delete leaves the tracker, then its guard is released. */
    method Done()
      requires tracker.Valid()
      modifies tracker, latch
      ensures tracker.Valid() && tracker.View() == Unregistered(old(tracker.View()), gen)
      ensures tracker.deletes == old(tracker.deletes) - {gen} && latch.done
    {
      tracker.deletes := tracker.deletes - {gen};
      latch.Release();
    }
  }
}
