/** Sleeping and waking under the epoch tracker (the condition variables of tsdb/epoch_tracker.go and tsdb/guard.go).

    EpochProtocol lets a participant proceed whenever its wait is over.  Here a participant that finds its wait not over
    goes to sleep, and only a broadcast wakes it: a delete when its counter comes to exactly zero, a write when the
    guard it waits on is released.  Proved over all runs: whoever sleeps has reason to, so no wake-up is lost, and
    nothing proved of EpochProtocol is. */
module EpochWaking {
  import opened Arithmetic
  import opened Collections
  import P = EpochProtocol

  datatype State = State(base: P.State, writersAsleep: set<nat>, deletersAsleep: set<nat>)

  datatype Step = Do(step: P.Step) | DozeWriter(w: nat) | DozeDeleter(d: nat)

  function Actor(step: P.Step): P.Participant
  {
    match step
    case Enter(w, _) => P.TheWriter(w)
    case Pass(w) => P.TheWriter(w)
    case Begin(w) => P.TheWriter(w)
    case End(w) => P.TheWriter(w)
    case Register(d) => P.TheDeleter(d)
    case StopWaiting(d) => P.TheDeleter(d)
    case Remove(d) => P.TheDeleter(d)
    case Release(d) => P.TheDeleter(d)
  }

  predicate Asleep(s: State, p: P.Participant)
  {
    match p case TheWriter(w) => w in s.writersAsleep case TheDeleter(d) => d in s.deletersAsleep
  }

  /** The condition epochDeleteState.Wait loops on. */
  predicate DeleterBlocked(b: P.State, d: nat)
  {
    && d < |b.deleters| && b.deleters[d].Waiting? && b.deleters[d].gen in b.tracker.deletes
    && b.tracker.deletes[b.deleters[d].gen].pending > 0
  }

  /** The condition guard.Wait loops on. */
  predicate WriterBlocked(c: P.Config, b: P.State, w: nat)
  {
    && w < |b.writers| && b.writers[w].Checking? && b.writers[w].guards != []
    && !P.Passable(c, b, w, b.writers[w].guards[0])
  }

  ghost predicate Enabled(c: P.Config, s: State, step: Step)
  {
    match step
    case Do(base) => P.Enabled(c, s.base, base) && !Asleep(s, Actor(base))
    case DozeWriter(w) => w !in s.writersAsleep && WriterBlocked(c, s.base, w)
    case DozeDeleter(d) => d !in s.deletersAsleep && DeleterBlocked(s.base, d)
  }

  /** done of epochDeleteState broadcasts when the decrement leaves exactly zero. */
  predicate CounterBroadcast(b: P.State, b': P.State, d: nat)
  {
    && d < |b.deleters| && b.deleters[d].Waiting?
    && var g := b.deleters[d].gen;
    && g in b.tracker.deletes && g in b'.tracker.deletes
    && b'.tracker.deletes[g].pending == b.tracker.deletes[g].pending - 1 == 0
  }

  /** Done of a guard broadcasts to the writers waiting on it. */
  predicate GuardBroadcast(b: P.State, step: P.Step, w: nat)
  {
    step.Release? && w < |b.writers| && b.writers[w].Checking? && b.writers[w].guards != [] && b.writers[w].guards[0] == step.d
  }

  ghost function Apply(c: P.Config, s: State, step: Step): State
    requires Enabled(c, s, step)
  {
    match step
    case Do(base) =>
      var b' := P.Apply(c, s.base, base);
      State(b', set w | w in s.writersAsleep && !GuardBroadcast(s.base, base, w),
            set d | d in s.deletersAsleep && !(base.End? && CounterBroadcast(s.base, b', d)))
    case DozeWriter(w) => s.(writersAsleep := s.writersAsleep + {w})
    case DozeDeleter(d) => s.(deletersAsleep := s.deletersAsleep + {d})
  }

  // ---- whoever sleeps has reason to ---------------------------------------------------------------------------

  ghost predicate Inv(c: P.Config, s: State)
  {
    && P.Inv(c, s.base)
    && (forall w :: w in s.writersAsleep ==> WriterBlocked(c, s.base, w))
    && forall d :: d in s.deletersAsleep ==> DeleterBlocked(s.base, d)
  }

  predicate Init(c: P.Config, s: State) { P.Init(c, s.base) && s.writersAsleep == {} && s.deletersAsleep == {} }

  lemma InitEstablishesInv(c: P.Config, s: State)
    requires Init(c, s)
    ensures Inv(c, s)
  {
    P.InitEstablishesInv(c, s.base);
  }

  /** Only the actor changes phase. */
  lemma OthersStay(c: P.Config, b: P.State, step: P.Step)
    requires P.Enabled(c, b, step)
    ensures var b' := P.Apply(c, b, step);
      && |b'.writers| == |b.writers| && |b'.deleters| == |b.deleters|
      && (forall w: nat :: w < |b.writers| && Actor(step) != P.TheWriter(w) ==> b'.writers[w] == b.writers[w])
      && (forall d: nat :: d < |b.deleters| && Actor(step) != P.TheDeleter(d) ==> b'.deleters[d] == b.deleters[d])
  {
  }

  /** A registration that is not the actor's stays, and its counter changes by at most one, by EndWrite only. */
  lemma OthersCounters(c: P.Config, b: P.State, step: P.Step, d: nat)
    requires P.Inv(c, b) && P.Enabled(c, b, step) && DeleterBlocked(b, d) && Actor(step) != P.TheDeleter(d)
    ensures var b', g := P.Apply(c, b, step), b.deleters[d].gen;
      && g in b'.tracker.deletes
      && (b'.tracker.deletes[g].pending == b.tracker.deletes[g].pending
          || (step.End? && b'.tracker.deletes[g].pending == b.tracker.deletes[g].pending - 1))
  {
    hide P.CountersMean, P.WritesHonourGuards, P.WaitsGoDown, P.DeletesAreAlone, P.CountBefore;
  }

  lemma DeleterStaysBlocked(c: P.Config, b: P.State, step: P.Step, d: nat)
    requires P.Inv(c, b) && P.Enabled(c, b, step) && DeleterBlocked(b, d) && Actor(step) != P.TheDeleter(d)
    requires !(step.End? && CounterBroadcast(b, P.Apply(c, b, step), d))
    ensures DeleterBlocked(P.Apply(c, b, step), d)
  {
    hide P.Inv, P.Enabled, P.Apply;
    OthersStay(c, b, step);
    OthersCounters(c, b, step, d);
  }

  /** A guard is done only once it is released. */
  lemma OnlyReleaseFinishes(c: P.Config, b: P.State, step: P.Step, d: nat)
    requires P.Enabled(c, b, step) && d < |b.deleters| && !b.deleters[d].Finished? && step != P.Release(d)
    ensures !P.Apply(c, b, step).deleters[d].Finished?
  {
  }

  lemma WriterStaysBlocked(c: P.Config, b: P.State, step: P.Step, w: nat)
    requires P.Inv(c, b) && P.Enabled(c, b, step) && WriterBlocked(c, b, w) && Actor(step) != P.TheWriter(w)
    requires !GuardBroadcast(b, step, w)
    ensures WriterBlocked(c, P.Apply(c, b, step), w)
  {
    hide P.Enabled, P.Apply, P.Conflict, P.TableMatches, P.GenerationsDiffer, P.CountersMean, P.WritesHonourGuards, P.DeletesAreAlone;
    OthersStay(c, b, step);
    var d := b.writers[w].guards[0];
    assert P.IsOlder(b, d, b.writers[w].gen);
    OnlyReleaseFinishes(c, b, step, d);
  }

  lemma StepKeepsInv(c: P.Config, s: State, step: Step)
    requires Inv(c, s) && Enabled(c, s, step)
    ensures Inv(c, Apply(c, s, step))
  {
    hide P.Inv, P.Enabled, P.Apply, WriterBlocked, DeleterBlocked, CounterBroadcast, GuardBroadcast;
    if step.Do? {
      var base, s' := step.step, Apply(c, s, step);
      P.StepKeepsInv(c, s.base, base);
      forall w | w in s'.writersAsleep ensures WriterBlocked(c, s'.base, w) { WriterStaysBlocked(c, s.base, base, w); }
      forall d | d in s'.deletersAsleep ensures DeleterBlocked(s'.base, d) { DeleterStaysBlocked(c, s.base, base, d); }
    }
  }

  // ---- runs ----------------------------------------------------------------------------------------------------

  ghost predicate IsRun(c: P.Config, s: State, steps: seq<Step>)
    decreases |steps|
  {
    steps == [] || (Enabled(c, s, steps[0]) && IsRun(c, Apply(c, s, steps[0]), steps[1..]))
  }

  ghost function After(c: P.Config, s: State, steps: seq<Step>): State
    requires IsRun(c, s, steps)
    decreases |steps|
  {
    if steps == [] then s else After(c, Apply(c, s, steps[0]), steps[1..])
  }

  /** The steps that are not falling asleep. */
  function Awake(steps: seq<Step>): seq<P.Step>
  {
    if steps == [] then [] else (if steps[0].Do? then [steps[0].step] else []) + Awake(steps[1..])
  }

  /** Leaving out the sleep, a run is a run of the protocol: what holds there holds here. */
  lemma {:induction false} RunRefines(c: P.Config, s: State, steps: seq<Step>)
    requires IsRun(c, s, steps)
    ensures P.IsRun(c, s.base, Awake(steps)) && P.After(c, s.base, Awake(steps)) == After(c, s, steps).base
    decreases |steps|
  {
    hide P.Enabled, P.Apply;
    if steps != [] {
      RunRefines(c, Apply(c, s, steps[0]), steps[1..]);
      if steps[0].Do? {
        assert Awake(steps)[1..] == Awake(steps[1..]);
      } else {
        assert Awake(steps) == Awake(steps[1..]);
      }
    }
  }

  lemma {:induction false} RunKeepsInv(c: P.Config, s: State, steps: seq<Step>)
    requires Inv(c, s) && IsRun(c, s, steps)
    ensures Inv(c, After(c, s, steps))
    decreases |steps|
  {
    if steps != [] {
      StepKeepsInv(c, s, steps[0]);
      RunKeepsInv(c, Apply(c, s, steps[0]), steps[1..]);
    }
  }

  /** No wake-up is lost: in every reachable state whoever sleeps is waiting for something that has not happened. */
  lemma NoLostWakeup(c: P.Config, init: State, steps: seq<Step>, p: P.Participant)
    requires Init(c, init) && IsRun(c, init, steps) && Asleep(After(c, init, steps), p)
    ensures !P.CanStep(c, After(c, init, steps).base, p)
  {
    InitEstablishesInv(c, init);
    RunKeepsInv(c, init, steps);
    SleepersCannotStep(c, After(c, init, steps), p);
  }

  lemma SleepersCannotStep(c: P.Config, s: State, p: P.Participant)
    requires Inv(c, s) && Asleep(s, p)
    ensures !P.CanStep(c, s.base, p)
  {
    hide P.Inv;
  }

  /** Somebody who is awake can step while anybody is unfinished. */
  lemma NoDeadlock(c: P.Config, s: State, p: P.Participant) returns (q: P.Participant)
    requires Inv(c, s) && P.Unfinished(s.base, p)
    ensures P.CanStep(c, s.base, q) && !Asleep(s, q)
  {
    hide P.Inv, P.CanStep;
    q := P.NoDeadlock(c, s.base, p);
    if Asleep(s, q) {
      SleepersCannotStep(c, s, q);
      assert false;
    }
  }

  // ---- termination ------------------------------------------------------------------------------------------------

  function Participants(s: State): nat { |s.base.writers| + |s.base.deleters| }

  /** Awake participants, and work left in the protocol, which counts for more. */
  function Work(s: State): int
  {
    (Participants(s) + 1) * P.Work(s.base) + Participants(s) - |s.writersAsleep| - |s.deletersAsleep|
  }

  lemma FewSleepers(c: P.Config, s: State)
    requires Inv(c, s)
    ensures |s.writersAsleep| + |s.deletersAsleep| <= Participants(s)
  {
    hide P.Inv;
    SizeBelow(|s.base.writers|);
    SizeBelow(|s.base.deleters|);
    Subset(s.writersAsleep, Below(|s.base.writers|));
    Subset(s.deletersAsleep, Below(|s.base.deleters|));
  }

  lemma StepReducesWork(c: P.Config, s: State, step: Step)
    requires Inv(c, s) && Enabled(c, s, step)
    ensures Work(Apply(c, s, step)) < Work(s)
  {
    hide P.Inv, P.Enabled, P.Apply, P.Work, WriterBlocked, DeleterBlocked, CounterBroadcast, GuardBroadcast;
    FewSleepers(c, s);
    if step.Do? {
      P.StepReducesWork(c, s.base, step.step);
      OthersStay(c, s.base, step.step);
      var s' := Apply(c, s, step);
      Outweighs(Participants(s), P.Work(s.base), P.Work(s'.base),
                |s.writersAsleep| + |s.deletersAsleep|, |s'.writersAsleep| + |s'.deletersAsleep|);
    }
  }

  /** One unit of work less makes up for everybody waking. */
  lemma Outweighs(k: nat, work: nat, less: nat, asleep: nat, asleep': nat)
    requires less < work && asleep <= k
    ensures (k + 1) * less + k - asleep' < (k + 1) * work + k - asleep
  {
    Monotone(less, work - 1, k + 1);
    assert (work - 1) * (k + 1) == (k + 1) * work - (k + 1) && less * (k + 1) == (k + 1) * less;
  }

  /** Every run is finite. */
  lemma {:induction false} RunsAreBounded(c: P.Config, s: State, steps: seq<Step>)
    requires Inv(c, s) && IsRun(c, s, steps)
    ensures |steps| <= Work(s)
    decreases |steps|
  {
    hide Work, Enabled, Apply;
    if steps != [] {
      StepReducesWork(c, s, steps[0]);
      StepKeepsInv(c, s, steps[0]);
      RunsAreBounded(c, Apply(c, s, steps[0]), steps[1..]);
    } else {
      WorkIsLeft(c, s);
    }
  }

  lemma WorkIsLeft(c: P.Config, s: State)
    requires Inv(c, s)
    ensures Work(s) >= 0
  {
    hide P.Work, P.Inv;
    FewSleepers(c, s);
    Monotone(0, P.Work(s.base), Participants(s) + 1);
  }

  /** A run that cannot be extended has finished every writer and every deleter, and nobody sleeps. */
  lemma MaximalRunsFinishEverybody(c: P.Config, init: State, steps: seq<Step>, p: P.Participant)
    requires Init(c, init) && IsRun(c, init, steps)
    requires forall step :: !Enabled(c, After(c, init, steps), step)
    ensures |steps| <= Work(init) && !P.Unfinished(After(c, init, steps).base, p) && !Asleep(After(c, init, steps), p)
  {
    InitEstablishesInv(c, init);
    RunKeepsInv(c, init, steps);
    RunsAreBounded(c, init, steps);
    var s := After(c, init, steps);
    if P.Unfinished(s.base, p) {
      var q := NoDeadlock(c, s, p);
      var step := SomeStep(c, s, q);
      assert false;
    }
    if Asleep(s, p) { SleepersUnfinished(c, s, p); }
  }

  lemma SleepersUnfinished(c: P.Config, s: State, p: P.Participant)
    requires Inv(c, s) && Asleep(s, p)
    ensures P.Unfinished(s.base, p)
  {
    hide P.Inv;
  }

  lemma SomeStep(c: P.Config, s: State, q: P.Participant) returns (step: Step)
    requires P.CanStep(c, s.base, q) && !Asleep(s, q)
    ensures Enabled(c, s, step)
  {
    match q
    case TheWriter(w) =>
      if P.Enabled(c, s.base, P.Pass(w)) {
        step := Do(P.Pass(w));
      } else if P.Enabled(c, s.base, P.Begin(w)) {
        step := Do(P.Begin(w));
      } else if P.Enabled(c, s.base, P.End(w)) {
        step := Do(P.End(w));
      } else {
        var order :| P.Enabled(c, s.base, P.Enter(w, order));
        step := Do(P.Enter(w, order));
      }
    case TheDeleter(d) =>
      if P.Enabled(c, s.base, P.Register(d)) {
        step := Do(P.Register(d));
      } else if P.Enabled(c, s.base, P.StopWaiting(d)) {
        step := Do(P.StopWaiting(d));
      } else if P.Enabled(c, s.base, P.Remove(d)) {
        step := Do(P.Remove(d));
      } else {
        step := Do(P.Release(d));
      }
  }
}
