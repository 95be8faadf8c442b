/** The epoch tracker (tsdb/epoch_tracker.go): writes and deletes of one shard take generations
    from a shared counter, and every registered delete counts the writes it still waits for.

    The operations of this module work on values; the transition system in EpochProtocol steps
    with them.  The class in module EpochTracker performs them on mutable state and is proved to agree. */
module EpochState {

  datatype DeleteState<G> = DeleteState(guard: G, pending: int)

  datatype Tracker<G> = Tracker(epoch: nat, largest: nat, writes: int, deletes: map<nat, DeleteState<G>>)

  function NewTracker<G>(): Tracker<G> { Tracker(0, 0, 0, map[]) }

  /** The write's generation is the new epoch. */
  function StartWrite<G>(t: Tracker<G>): Tracker<G>
  {
    t.(epoch := t.epoch + 1, writes := t.writes + 1)
  }

  function Decrement<G>(d: DeleteState<G>): DeleteState<G> { d.(pending := d.pending - 1) }

  function EndWrite<G>(t: Tracker<G>, gen: nat): Tracker<G>
  {
    var deletes :=
      if gen <= t.largest
      then map d | d in t.deletes :: if gen > d then t.deletes[d] else Decrement(t.deletes[d])
      else t.deletes;
    t.(writes := t.writes - 1, deletes := deletes)
  }

  /** The delete's generation is the new epoch. */
  function WaitDelete<G>(t: Tracker<G>, guard: G): Tracker<G>
  {
    var gen := t.epoch + 1;
    t.(epoch := gen, largest := gen, deletes := t.deletes[gen := DeleteState(guard, t.writes)])
  }

  /** First half of Done: the registration goes away; releasing the guard is a separate step. */
  function Deregister<G>(t: Tracker<G>, gen: nat): Tracker<G>
  {
    t.(deletes := t.deletes - {gen})
  }

  /** `order` lists the members of `s`, each once: an order in which a Go map may be ranged over. */
  ghost predicate Lists(order: seq<nat>, s: set<nat>)
  {
    && (forall d :: d in order <==> d in s)
    && forall i, j :: 0 <= i < j < |order| ==> order[i] != order[j]
  }

  lemma ListsNone()
    ensures Lists([], {})
  {
  }

  lemma ListsMore(order: seq<nat>, s: set<nat>, d: nat)
    requires Lists(order, s) && d !in s
    ensures Lists(order + [d], s + {d})
  {
    var more := order + [d];
    forall e ensures e in more <==> e in s + {d} {}
  }
}

/** The tracker as the mutable object it is; each method is one critical section of its mutex. */
module EpochTracker {
  import opened EpochState

  /** A condition variable's sleepers, and what they wait for: a delete's count of earlier writes. */
  class PendingDelete<G> {
    const guard: G
    var pending: int
    var asleep: set<nat>

    /** Nobody sleeps when there is nothing to wait for. */
    predicate NobodyLeft()
      reads this
    {
      pending <= 0 ==> asleep == {}
    }

    constructor (guard: G, pending: int)
      ensures this.guard == guard && this.pending == pending && asleep == {}
    {
      this.guard, this.pending, asleep := guard, pending, {};
    }

    /** One earlier write has finished; the last one wakes everybody. */
    method Done()
      modifies this
      ensures pending == old(pending) - 1 && asleep == if pending == 0 then {} else old(asleep)
      ensures old(NobodyLeft()) ==> NobodyLeft()
    {
      pending := pending - 1;
      if pending == 0 {
        asleep := {};
      }
    }

    /** One round of the loop in Wait: whoever finds writes pending goes to sleep, anybody else goes on. */
    method Check(waiter: nat) returns (passed: bool)
      modifies this`asleep
      ensures passed <==> pending <= 0
      ensures asleep == if passed then old(asleep) else old(asleep) + {waiter}
      ensures old(NobodyLeft()) ==> NobodyLeft()
    {
      passed := pending <= 0;
      if !passed {
        asleep := asleep + {waiter};
      }
    }
  }

  /** The done flag of a guard with its sleepers. */
  class Latch {
    var done: bool
    var asleep: set<nat>

    predicate NobodyLeft()
      reads this
    {
      done ==> asleep == {}
    }

    constructor ()
      ensures !done && asleep == {}
    {
      done, asleep := false, {};
    }

    /** guard.Done */
    method Done()
      modifies this
      ensures done && NobodyLeft()
    {
      done, asleep := true, {};
    }

    /** One round of the loop in guard.Wait. */
    method Check(waiter: nat) returns (passed: bool)
      modifies this`asleep
      ensures passed <==> done
      ensures asleep == if passed then old(asleep) else old(asleep) + {waiter}
      ensures old(NobodyLeft()) ==> NobodyLeft()
    {
      passed := done;
      if !passed {
        asleep := asleep + {waiter};
      }
    }
  }

  ghost predicate Distinct<G>(deletes: map<nat, PendingDelete<G>>)
  {
    forall c, d :: c in deletes && d in deletes && c != d ==> deletes[c] != deletes[d]
  }

  ghost function Objects<G>(deletes: map<nat, PendingDelete<G>>): set<PendingDelete<G>>
  {
    set d | d in deletes :: deletes[d]
  }

  /** The loop of EndWrite: every delete of this generation or a later one has one write fewer to wait for. */
  method DoneWithAll<G>(deletes: map<nat, PendingDelete<G>>, gen: nat)
    requires Distinct(deletes)
    modifies Objects(deletes)
    ensures forall d :: d in deletes ==>
      && deletes[d].pending == old(deletes[d].pending) - (if gen > d then 0 else 1)
      && (old(deletes[d].NobodyLeft()) ==> deletes[d].NobodyLeft())
  {
    var rest := deletes.Keys;
    while rest != {}
      invariant rest <= deletes.Keys
      invariant forall d :: d in deletes && (d in rest || gen > d) ==>
        deletes[d].pending == old(deletes[d].pending) && deletes[d].asleep == old(deletes[d].asleep)
      invariant forall d :: d in deletes && d !in rest && gen <= d ==>
        && deletes[d].pending == old(deletes[d].pending) - 1
        && (old(deletes[d].NobodyLeft()) ==> deletes[d].NobodyLeft())
      decreases |rest|
    {
      var d :| d in rest;
      rest := rest - {d};
      if gen > d {
        continue;
      }
      deletes[d].Done();
    }
  }

  /** The guards, as ranging over the map gives them. */
  method GuardsOf<G>(deletes: map<nat, PendingDelete<G>>) returns (guards: seq<G>)
    ensures exists order: seq<nat> :: Lists(order, deletes.Keys) && |guards| == |order|
              && forall i :: 0 <= i < |order| ==> order[i] in deletes && guards[i] == deletes[order[i]].guard
  {
    hide Lists;
    guards := [];
    ghost var order := [];
    var rest := deletes.Keys;
    ListsNone();
    assert deletes.Keys - rest == {};
    while rest != {}
      invariant rest <= deletes.Keys && Lists(order, deletes.Keys - rest) && |guards| == |order|
      invariant forall i :: 0 <= i < |order| ==> order[i] in deletes && guards[i] == deletes[order[i]].guard
      decreases |rest|
    {
      var d :| d in rest;
      ListsMore(order, deletes.Keys - rest, d);
      assert deletes.Keys - rest + {d} == deletes.Keys - (rest - {d});
      rest := rest - {d};
      guards := guards + [deletes[d].guard];
      order := order + [d];
    }
    assert deletes.Keys - rest == deletes.Keys;
  }

  class EpochTracker<G> {
    var epoch: nat
    var largest: nat
    var writes: int
    var deletes: map<nat, PendingDelete<G>>

    /** Each registration owns its counter. */
    ghost predicate Valid()
      reads this
    {
      Distinct(deletes)
    }

    ghost function States(): set<PendingDelete<G>>
      reads this
    {
      Objects(deletes)
    }

    ghost function Abs(): Tracker<G>
      reads this, States()
    {
      Tracker(epoch, largest, writes, map d | d in deletes :: DeleteState(deletes[d].guard, deletes[d].pending))
    }

    constructor ()
      ensures Valid() && Abs() == EpochState.NewTracker()
    {
      epoch, largest, writes, deletes := 0, 0, 0, map[];
    }

    /** Returns the guards of all registered deletes, in some order, and the write's generation. */
    method StartWrite() returns (guards: seq<G>, gen: nat)
      requires Valid()
      modifies this
      ensures Valid() && deletes == old(deletes)
      ensures Abs() == EpochState.StartWrite(old(Abs()))
      ensures gen == epoch
      ensures exists order: seq<nat> :: Lists(order, deletes.Keys) && |guards| == |order|
                && forall i :: 0 <= i < |order| ==> order[i] in deletes && guards[i] == deletes[order[i]].guard
    {
      epoch, writes := epoch + 1, writes + 1;
      gen := epoch;
      guards := GuardsOf(deletes);
    }

    method EndWrite(gen: nat)
      requires Valid()
      modifies this, States()
      ensures Valid() && deletes == old(deletes)
      ensures Abs() == EpochState.EndWrite(old(Abs()), gen)
      ensures forall d :: d in deletes && old(deletes[d].NobodyLeft()) ==> deletes[d].NobodyLeft()
    {
      hide Distinct;
      if gen <= largest {
        DoneWithAll(deletes, gen);
      }
      writes := writes - 1;
      assert Abs().deletes == EpochState.EndWrite(old(Abs()), gen).deletes;
    }

    /** Registers the delete and returns its generation and the counter it waits on. */
    method WaitDelete(guard: G) returns (gen: nat, state: PendingDelete<G>)
      requires Valid()
      modifies this
      ensures Valid() && fresh(state) && gen == epoch && deletes == old(deletes)[gen := state]
      ensures Abs() == EpochState.WaitDelete(old(Abs()), guard)
    {
      state := new PendingDelete(guard, writes);
      epoch := epoch + 1;
      gen := epoch;
      largest := gen;
      deletes := deletes[gen := state];
    }

    method Deregister(gen: nat)
      requires Valid()
      modifies this
      ensures Valid() && deletes == old(deletes) - {gen}
      ensures Abs() == EpochState.Deregister(old(Abs()), gen)
    {
      deletes := deletes - {gen};
    }
  }
}
