/** Writers and deleters of one shard running concurrently under the epoch tracker
    (tsdb/epoch_tracker.go, tsdb/guard.go, and their use in tsdb/store.go).

    Any number of writers and deleters interleave; one step is one critical section.
    A writer enters, goes past the guards it was handed one by one, writes, and ends.
    A deleter registers, waits for the writes before it, deletes, deregisters, and releases
    its guard.  Proved over all runs: a deleter never deletes while a writer it guards
    against writes, the counters mean what they say, and every run is finite and ends with
    everybody finished. */
module EpochProtocol {
  import opened EpochState
  import Guard

  datatype WritePhase =
    | Ready
    | Checking(gen: nat, guards: seq<nat>)
    | Writing(gen: nat)
    | Ended(gen: nat)

  datatype DeletePhase =
    | Unregistered
    | Waiting(gen: nat)
    | Deleting(gen: nat)
    | Releasing(gen: nat)
    | Finished(gen: nat)

  /** What each writer writes and what each deleter guards; fixed for a run. */
  datatype Config = Config(points: seq<seq<Guard.Point>>, guards: seq<Guard.Guard>)

  /** A deleter creates its own guard, so its index stands for the guard object too;
      the guard's done flag is set exactly in phase Finished. */
  datatype State = State(tracker: Tracker<nat>, writers: seq<WritePhase>, deleters: seq<DeletePhase>)

  /** The delete's guard matches the write's points. */
  predicate Conflict(c: Config, w: nat, d: nat)
  {
    w < |c.points| && d < |c.guards| && Guard.MatchesAny(c.guards[d], c.points[w])
  }

  datatype Step =
    | Enter(w: nat, order: seq<nat>)
    | Pass(w: nat)
    | Begin(w: nat)
    | End(w: nat)
    | Register(d: nat)
    | StopWaiting(d: nat)
    | Remove(d: nat)
    | Release(d: nat)

  predicate Init(c: Config, s: State)
  {
    && |c.points| == |s.writers| && |c.guards| == |s.deleters|
    && s.tracker == NewTracker()
    && (forall w :: 0 <= w < |s.writers| ==> s.writers[w].Ready?)
    && forall d :: 0 <= d < |s.deleters| ==> s.deleters[d].Unregistered?
  }

  /** Any writes and deletes can start. */
  lemma EveryConfigStarts(c: Config) returns (s: State)
    ensures Init(c, s) && |s.writers| == |c.points| && |s.deleters| == |c.guards|
  {
    s := State(NewTracker(), seq(|c.points|, _ => Ready), seq(|c.guards|, _ => Unregistered));
  }

  // ---- steps ---------------------------------------------------------------------------------

  /** guard.Wait returns at once on a guard that does not concern the points, else when it is done. */
  predicate Passable(c: Config, s: State, w: nat, d: nat)
    requires w < |s.writers|
  {
    d < |s.deleters| && (!Conflict(c, w, d) || s.deleters[d].Finished?)
  }

  ghost predicate Enabled(c: Config, s: State, step: Step)
  {
    match step
    case Enter(w, order) => w < |s.writers| && s.writers[w].Ready? && Lists(order, s.tracker.deletes.Keys)
    case Pass(w) =>
      && w < |s.writers| && s.writers[w].Checking? && s.writers[w].guards != []
      && Passable(c, s, w, s.writers[w].guards[0])
    case Begin(w) => w < |s.writers| && s.writers[w].Checking? && s.writers[w].guards == []
    case End(w) => w < |s.writers| && s.writers[w].Writing?
    case Register(d) => d < |s.deleters| && s.deleters[d].Unregistered?
    case StopWaiting(d) =>
      && d < |s.deleters| && s.deleters[d].Waiting?
      && s.deleters[d].gen in s.tracker.deletes
      && s.tracker.deletes[s.deleters[d].gen].pending <= 0
    case Remove(d) => d < |s.deleters| && s.deleters[d].Deleting?
    case Release(d) => d < |s.deleters| && s.deleters[d].Releasing?
  }

  ghost function Apply(c: Config, s: State, step: Step): State
    requires Enabled(c, s, step)
  {
    match step
    case Enter(w, order) =>
      var guards := seq(|order|, i requires 0 <= i < |order| => s.tracker.deletes[order[i]].guard);
      WithWriter(s, w, Checking(s.tracker.epoch + 1, guards)).(tracker := StartWrite(s.tracker))
    case Pass(w) => WithWriter(s, w, s.writers[w].(guards := s.writers[w].guards[1..]))
    case Begin(w) => WithWriter(s, w, Writing(s.writers[w].gen))
    case End(w) =>
      var gen := s.writers[w].gen;
      WithWriter(s, w, Ended(gen)).(tracker := EndWrite(s.tracker, gen))
    case Register(d) =>
      WithDeleter(s, d, Waiting(s.tracker.epoch + 1)).(tracker := WaitDelete(s.tracker, d))
    case StopWaiting(d) => WithDeleter(s, d, Deleting(s.deleters[d].gen))
    case Remove(d) =>
      var gen := s.deleters[d].gen;
      WithDeleter(s, d, Releasing(gen)).(tracker := Deregister(s.tracker, gen))
    case Release(d) => WithDeleter(s, d, Finished(s.deleters[d].gen))
  }

  function WithWriter(s: State, w: nat, phase: WritePhase): State
    requires w < |s.writers|
  {
    s.(writers := s.writers[w := phase])
  }

  function WithDeleter(s: State, d: nat, phase: DeletePhase): State
    requires d < |s.deleters|
  {
    s.(deleters := s.deleters[d := phase])
  }

  // ---- counting open writes ----------------------------------------------------------------------

  predicate Open(w: WritePhase) { w.Checking? || w.Writing? }

  predicate OpenBefore(w: WritePhase, gen: nat) { Open(w) && w.gen < gen }

  /** Number of open writes with a generation below `gen`. */
  function CountBefore(ws: seq<WritePhase>, gen: nat): nat
  {
    if ws == [] then 0
    else CountBefore(ws[..|ws| - 1], gen) + if OpenBefore(ws[|ws| - 1], gen) then 1 else 0
  }

  lemma {:induction false} CountUpdate(ws: seq<WritePhase>, i: nat, w: WritePhase, gen: nat)
    requires i < |ws|
    ensures CountBefore(ws[i := w], gen)
         == CountBefore(ws, gen) - (if OpenBefore(ws[i], gen) then 1 else 0) + (if OpenBefore(w, gen) then 1 else 0)
  {
    var n := |ws| - 1;
    if i == n {
      assert ws[i := w][..n] == ws[..n];
    } else {
      assert ws[i := w][..n] == ws[..n][i := w];
      CountUpdate(ws[..n], i, w, gen);
    }
  }

  lemma {:induction false} CountAgrees(ws: seq<WritePhase>, g: nat, h: nat)
    requires forall i :: 0 <= i < |ws| ==> (OpenBefore(ws[i], g) <==> OpenBefore(ws[i], h))
    ensures CountBefore(ws, g) == CountBefore(ws, h)
  {
    if ws != [] {
      var n := |ws| - 1;
      assert OpenBefore(ws[n], g) <==> OpenBefore(ws[n], h);
      CountAgrees(ws[..n], g, h);
    }
  }

  lemma {:induction false} CountZero(ws: seq<WritePhase>, gen: nat)
    ensures CountBefore(ws, gen) == 0 <==> forall i :: 0 <= i < |ws| ==> !OpenBefore(ws[i], gen)
  {
    if ws != [] {
      var n := |ws| - 1;
      CountZero(ws[..n], gen);
      assert forall i :: 0 <= i < n ==> ws[..n][i] == ws[i];
    }
  }

  // ---- the invariant -----------------------------------------------------------------------------

  predicate Registered(d: DeletePhase) { d.Waiting? || d.Deleting? }

  /** The tracker holds exactly the registrations of the waiting and deleting deleters. */
  ghost predicate TableMatches(s: State)
  {
    && (forall d :: 0 <= d < |s.deleters| && Registered(s.deleters[d]) ==>
        && s.deleters[d].gen in s.tracker.deletes
        && s.tracker.deletes[s.deleters[d].gen].guard == d)
    && (forall g :: g in s.tracker.deletes ==>
        var d := s.tracker.deletes[g].guard;
        d < |s.deleters| && Registered(s.deleters[d]) && s.deleters[d].gen == g)
  }

  /** Generations come from the epoch, and no write shares one with a registered delete. */
  ghost predicate GenerationsDiffer(s: State)
  {
    && (forall w :: 0 <= w < |s.writers| && !s.writers[w].Ready? ==>
        s.writers[w].gen <= s.tracker.epoch && s.writers[w].gen !in s.tracker.deletes)
    && (forall d :: 0 <= d < |s.deleters| && !s.deleters[d].Unregistered? ==>
        s.deleters[d].gen <= s.tracker.epoch)
  }

  /** `writes` counts the open writes, and every `pending` those before its delete. */
  ghost predicate CountersMean(s: State)
  {
    && s.tracker.writes == CountBefore(s.writers, s.tracker.epoch + 1)
    && (forall g :: g in s.tracker.deletes ==> s.tracker.deletes[g].pending == CountBefore(s.writers, g))
    && (forall g :: g in s.tracker.deletes ==> g <= s.tracker.largest <= s.tracker.epoch)
  }

  /** A write still has before it, or has waited out, every conflicting delete older than itself. */
  ghost predicate WritesHonourGuards(c: Config, s: State)
  {
    forall w: nat, d: nat :: w < |s.writers| && d < |s.deleters| && Registered(s.deleters[d]) && Conflict(c, w, d)
      ==>
      && (s.writers[w].Checking? && s.deleters[d].gen < s.writers[w].gen ==>
          d in s.writers[w].guards)
      && (s.writers[w].Writing? ==> s.writers[w].gen < s.deleters[d].gen)
  }

  /** Guards a write checks belong to older deletes. */
  ghost predicate WaitsGoDown(s: State)
  {
    forall w: nat, i: nat :: w < |s.writers| && s.writers[w].Checking? && i < |s.writers[w].guards| ==>
      IsOlder(s, s.writers[w].guards[i], s.writers[w].gen)
  }

  predicate IsOlder(s: State, d: nat, gen: nat)
  {
    d < |s.deleters| && !s.deleters[d].Unregistered? && s.deleters[d].gen < gen
  }

  ghost predicate DeletesAreAlone(s: State)
  {
    forall w: nat, d: nat :: w < |s.writers| && d < |s.deleters| && s.deleters[d].Deleting? ==>
      !OpenBefore(s.writers[w], s.deleters[d].gen)
  }

  ghost predicate Inv(c: Config, s: State)
  {
    && TableMatches(s) && GenerationsDiffer(s) && CountersMean(s)
    && WritesHonourGuards(c, s) && WaitsGoDown(s) && DeletesAreAlone(s)
  }

  lemma InitEstablishesInv(c: Config, s: State)
    requires Init(c, s)
    ensures Inv(c, s)
  {
    CountZero(s.writers, 1);
  }

  lemma EnterKeepsCounters(c: Config, s: State, w: nat, order: seq<nat>)
    requires Inv(c, s) && Enabled(c, s, Enter(w, order))
    ensures CountersMean(Apply(c, s, Enter(w, order)))
  {
    var s' := Apply(c, s, Enter(w, order));
    var e := s.tracker.epoch;
    CountAgrees(s.writers, e + 1, e + 2);
    CountUpdate(s.writers, w, s'.writers[w], e + 2);
    forall g | g in s.tracker.deletes
      ensures CountBefore(s'.writers, g) == CountBefore(s.writers, g)
    {
      CountUpdate(s.writers, w, s'.writers[w], g);
    }
  }

  /** The guards handed to a write are those of all registered deletes, and they are all older. */
  lemma EnterSeesEveryDelete(c: Config, s: State, w: nat, order: seq<nat>)
    requires Inv(c, s) && Enabled(c, s, Enter(w, order))
    ensures var gs := Apply(c, s, Enter(w, order)).writers[w].guards;
      && (forall d: nat :: d < |s.deleters| && Registered(s.deleters[d]) ==> d in gs)
      && (forall i :: 0 <= i < |gs| ==> IsOlder(s, gs[i], s.tracker.epoch + 1))
      && (forall i, j :: 0 <= i < j < |gs| ==> gs[i] != gs[j])
  {
    var gs := Apply(c, s, Enter(w, order)).writers[w].guards;
    forall d: nat | d < |s.deleters| && Registered(s.deleters[d])
      ensures d in gs
    {
      var i :| 0 <= i < |order| && order[i] == s.deleters[d].gen;
      assert gs[i] == d;
    }
    forall i | 0 <= i < |gs|
      ensures s.tracker.deletes[order[i]].guard == gs[i] && IsOlder(s, gs[i], s.tracker.epoch + 1)
    {
      assert order[i] in s.tracker.deletes;
    }
  }

  lemma EnterKeepsInv(c: Config, s: State, w: nat, order: seq<nat>)
    requires Inv(c, s) && Enabled(c, s, Enter(w, order))
    ensures Inv(c, Apply(c, s, Enter(w, order)))
  {
    EnterKeepsCounters(c, s, w, order);
    EnterSeesEveryDelete(c, s, w, order);
  }

  lemma PassKeepsInv(c: Config, s: State, w: nat)
    requires Inv(c, s) && Enabled(c, s, Pass(w))
    ensures Inv(c, Apply(c, s, Pass(w)))
  {
    hide CountBefore;
    SameCounts(s, w, s.writers[w].(guards := s.writers[w].guards[1..]));
  }

  lemma BeginKeepsInv(c: Config, s: State, w: nat)
    requires Inv(c, s) && Enabled(c, s, Begin(w))
    ensures Inv(c, Apply(c, s, Begin(w)))
  {
    hide CountBefore;
    SameCounts(s, w, Writing(s.writers[w].gen));
    forall d | 0 <= d < |s.deleters| && Registered(s.deleters[d]) && Conflict(c, w, d)
      ensures s.writers[w].gen < s.deleters[d].gen
    {
      assert s.deleters[d].gen in s.tracker.deletes;
    }
  }

  /** A change of phase that keeps a writer open under the same generation changes no count. */
  lemma SameCounts(s: State, w: nat, phase: WritePhase)
    requires w < |s.writers| && Open(s.writers[w])
    requires (phase.Checking? || phase.Writing?) && phase.gen == s.writers[w].gen
    ensures forall g :: CountBefore(WithWriter(s, w, phase).writers, g) == CountBefore(s.writers, g)
  {
    forall g
      ensures CountBefore(WithWriter(s, w, phase).writers, g) == CountBefore(s.writers, g)
    {
      CountUpdate(s.writers, w, phase, g);
    }
  }

  /** The shortcut of EndWrite is exact: a generation above `largest` is above every registered delete. */
  lemma EndKeepsCounters(c: Config, s: State, w: nat)
    requires Inv(c, s) && Enabled(c, s, End(w))
    ensures CountersMean(Apply(c, s, End(w)))
  {
    hide WritesHonourGuards, WaitsGoDown, DeletesAreAlone, TableMatches, CountBefore;
    var s' := Apply(c, s, End(w));
    CountUpdate(s.writers, w, s'.writers[w], s.tracker.epoch + 1);
    forall g | g in s.tracker.deletes
      ensures s'.tracker.deletes[g].pending == CountBefore(s'.writers, g)
    {
      CountUpdate(s.writers, w, s'.writers[w], g);
    }
  }

  lemma EndKeepsInv(c: Config, s: State, w: nat)
    requires Inv(c, s) && Enabled(c, s, End(w))
    ensures Inv(c, Apply(c, s, End(w)))
  {
    EndKeepsCounters(c, s, w);
    EndKeepsTable(c, s, w);
    EndKeepsOrder(c, s, w);
  }

  lemma EndKeepsTable(c: Config, s: State, w: nat)
    requires Inv(c, s) && Enabled(c, s, End(w))
    ensures TableMatches(Apply(c, s, End(w))) && GenerationsDiffer(Apply(c, s, End(w)))
  {
    hide CountersMean, WritesHonourGuards, WaitsGoDown, DeletesAreAlone, CountBefore;
    assert Apply(c, s, End(w)).tracker.deletes.Keys == s.tracker.deletes.Keys;
  }

  lemma EndKeepsOrder(c: Config, s: State, w: nat)
    requires Inv(c, s) && Enabled(c, s, End(w))
    ensures WritesHonourGuards(c, Apply(c, s, End(w))) && WaitsGoDown(Apply(c, s, End(w))) && DeletesAreAlone(Apply(c, s, End(w)))
  {
    hide CountersMean, TableMatches, GenerationsDiffer, CountBefore, EndWrite, Conflict;
  }

  lemma RegisterKeepsInv(c: Config, s: State, d: nat)
    requires Inv(c, s) && Enabled(c, s, Register(d))
    ensures Inv(c, Apply(c, s, Register(d)))
  {
    RegisterKeepsCounters(c, s, d);
    RegisterKeepsTable(c, s, d);
    RegisterKeepsOrder(c, s, d);
  }

  lemma RegisterKeepsCounters(c: Config, s: State, d: nat)
    requires Inv(c, s) && Enabled(c, s, Register(d))
    ensures CountersMean(Apply(c, s, Register(d)))
  {
    hide WritesHonourGuards, WaitsGoDown, DeletesAreAlone;
    var e := s.tracker.epoch;
    CountAgrees(s.writers, e + 1, e + 2);
  }

  lemma RegisterKeepsTable(c: Config, s: State, d: nat)
    requires Inv(c, s) && Enabled(c, s, Register(d))
    ensures TableMatches(Apply(c, s, Register(d))) && GenerationsDiffer(Apply(c, s, Register(d)))
  {
    hide WritesHonourGuards, WaitsGoDown, DeletesAreAlone, CountBefore;
  }

  lemma RegisterKeepsOrder(c: Config, s: State, d: nat)
    requires Inv(c, s) && Enabled(c, s, Register(d))
    ensures WritesHonourGuards(c, Apply(c, s, Register(d))) && WaitsGoDown(Apply(c, s, Register(d)))
    ensures DeletesAreAlone(Apply(c, s, Register(d)))
  {
    hide CountersMean, TableMatches, CountBefore, Conflict;
  }

  lemma StopWaitingKeepsInv(c: Config, s: State, d: nat)
    requires Inv(c, s) && Enabled(c, s, StopWaiting(d))
    ensures Inv(c, Apply(c, s, StopWaiting(d)))
  {
    CountZero(s.writers, s.deleters[d].gen);
  }

  lemma RemoveKeepsInv(c: Config, s: State, d: nat)
    requires Inv(c, s) && Enabled(c, s, Remove(d))
    ensures Inv(c, Apply(c, s, Remove(d)))
  {
  }

  lemma ReleaseKeepsInv(c: Config, s: State, d: nat)
    requires Inv(c, s) && Enabled(c, s, Release(d))
    ensures Inv(c, Apply(c, s, Release(d)))
  {
  }

  lemma StepKeepsInv(c: Config, s: State, step: Step)
    requires Inv(c, s) && Enabled(c, s, step)
    ensures Inv(c, Apply(c, s, step))
  {
    match step
    case Enter(w, order) => EnterKeepsInv(c, s, w, order);
    case Pass(w) => PassKeepsInv(c, s, w);
    case Begin(w) => BeginKeepsInv(c, s, w);
    case End(w) => EndKeepsInv(c, s, w);
    case Register(d) => RegisterKeepsInv(c, s, d);
    case StopWaiting(d) => StopWaitingKeepsInv(c, s, d);
    case Remove(d) => RemoveKeepsInv(c, s, d);
    case Release(d) => ReleaseKeepsInv(c, s, d);
  }

  // ---- runs ----------------------------------------------------------------------------------------

  ghost predicate IsRun(c: Config, s: State, steps: seq<Step>)
    decreases |steps|
  {
    steps == [] || (Enabled(c, s, steps[0]) && IsRun(c, Apply(c, s, steps[0]), steps[1..]))
  }

  ghost function After(c: Config, s: State, steps: seq<Step>): State
    requires IsRun(c, s, steps)
    decreases |steps|
  {
    if steps == [] then s else After(c, Apply(c, s, steps[0]), steps[1..])
  }

  lemma {:induction false} RunKeepsInv(c: Config, s: State, steps: seq<Step>)
    requires Inv(c, s) && IsRun(c, s, steps)
    ensures Inv(c, After(c, s, steps))
    decreases |steps|
  {
    if steps != [] {
      StepKeepsInv(c, s, steps[0]);
      RunKeepsInv(c, Apply(c, s, steps[0]), steps[1..]);
    }
  }

  /** Mutual exclusion, over all runs of any number of writers and deleters. */
  lemma MutualExclusion(c: Config, init: State, steps: seq<Step>, w: nat, d: nat)
    requires Init(c, init) && IsRun(c, init, steps)
    requires w < |After(c, init, steps).writers| && d < |After(c, init, steps).deleters|
    requires After(c, init, steps).writers[w].Writing? && After(c, init, steps).deleters[d].Deleting?
    ensures !Conflict(c, w, d)
  {
    InitEstablishesInv(c, init);
    RunKeepsInv(c, init, steps);
    var s := After(c, init, steps);
    assert !OpenBefore(s.writers[w], s.deleters[d].gen);
    assert s.writers[w].gen != s.deleters[d].gen;
  }

  /** The counters mean what their names say in every reachable state, so none is ever negative. */
  lemma CountersInEveryRun(c: Config, init: State, steps: seq<Step>, gen: nat)
    requires Init(c, init) && IsRun(c, init, steps)
    ensures var s := After(c, init, steps);
      && s.tracker.writes == CountBefore(s.writers, s.tracker.epoch + 1) >= 0
      && (gen in s.tracker.deletes ==>
          && gen <= s.tracker.largest
          && s.tracker.deletes[gen].pending == CountBefore(s.writers, gen) >= 0)
  {
    InitEstablishesInv(c, init);
    RunKeepsInv(c, init, steps);
  }

  // ---- progress -------------------------------------------------------------------------------------

  datatype Participant = TheWriter(w: nat) | TheDeleter(d: nat)

  /** Entered but not finished; such a participant has a generation. */
  predicate Active(s: State, p: Participant)
  {
    match p
    case TheWriter(w) => w < |s.writers| && Open(s.writers[w])
    case TheDeleter(d) => d < |s.deleters| && !s.deleters[d].Unregistered? && !s.deleters[d].Finished?
  }

  function Generation(s: State, p: Participant): nat
    requires Active(s, p)
  {
    match p case TheWriter(w) => s.writers[w].gen case TheDeleter(d) => s.deleters[d].gen
  }

  ghost predicate CanStep(c: Config, s: State, p: Participant)
  {
    match p
    case TheWriter(w) =>
      || Enabled(c, s, Pass(w)) || Enabled(c, s, Begin(w)) || Enabled(c, s, End(w))
      || exists order :: Enabled(c, s, Enter(w, order))
    case TheDeleter(d) =>
      Enabled(c, s, Register(d)) || Enabled(c, s, StopWaiting(d)) || Enabled(c, s, Remove(d)) || Enabled(c, s, Release(d))
  }

  /** Waits only go to smaller generations, so nobody blocks the active participant of least generation. */
  lemma LeastGenerationCanStep(c: Config, s: State, p: Participant)
    requires Inv(c, s) && Active(s, p)
    requires forall q :: Active(s, q) ==> Generation(s, p) <= Generation(s, q)
    ensures CanStep(c, s, p)
  {
    match p
    case TheWriter(w) =>
      if s.writers[w].Checking? && s.writers[w].guards != [] {
        var d := s.writers[w].guards[0];
        assert IsOlder(s, s.writers[w].guards[0], s.writers[w].gen);
        if !s.deleters[d].Finished? {
          assert Active(s, TheDeleter(d));
        }
      }
    case TheDeleter(d) =>
      if s.deleters[d].Waiting? {
        var gen := s.deleters[d].gen;
        forall i | 0 <= i < |s.writers|
          ensures !OpenBefore(s.writers[i], gen)
        {
          if Open(s.writers[i]) { assert Active(s, TheWriter(i)); }
        }
        CountZero(s.writers, gen);
      }
  }

  /** A writer is at a guard that matches its points and is not done; or a write that started before the deleter is open. */
  ghost predicate HeldUp(c: Config, s: State, p: Participant)
  {
    match p
    case TheWriter(w) =>
      && w < |s.writers| && s.writers[w].Checking? && s.writers[w].guards != []
      && var d := s.writers[w].guards[0];
         d < |s.deleters| && d < |c.guards| && w < |c.points| && Guard.MatchesAny(c.guards[d], c.points[w]) && !s.deleters[d].Finished?
    case TheDeleter(d) =>
      && d < |s.deleters| && s.deleters[d].Waiting?
      && exists i :: 0 <= i < |s.writers| && Open(s.writers[i]) && s.writers[i].gen < s.deleters[d].gen
  }

  /** Nobody waits who need not: unrelated writes and deletes never hold each other up. */
  lemma WaitsExactly(c: Config, s: State, p: Participant)
    requires Inv(c, s) && Unfinished(s, p)
    ensures CanStep(c, s, p) <==> !HeldUp(c, s, p)
  {
    match p
    case TheWriter(w) =>
      if s.writers[w].Checking? && s.writers[w].guards != [] {
        assert IsOlder(s, s.writers[w].guards[0], s.writers[w].gen);
      } else if s.writers[w].Ready? {
        var order := SomeOrder(s.tracker.deletes.Keys);
        assert Enabled(c, s, Enter(w, order));
      }
    case TheDeleter(d) =>
      if s.deleters[d].Waiting? { CountZero(s.writers, s.deleters[d].gen); }
  }

  lemma {:induction false} SomeOrder(s: set<nat>) returns (order: seq<nat>)
    ensures Lists(order, s)
    decreases |s|
  {
    order := [];
    if s != {} {
      var d :| d in s;
      var rest := SomeOrder(s - {d});
      order := rest + [d];
    }
  }

  lemma {:induction false} LeastActive(s: State, p: Participant) returns (least: Participant)
    requires Active(s, p)
    ensures Active(s, least) && forall q :: Active(s, q) ==> Generation(s, least) <= Generation(s, q)
    decreases Generation(s, p)
  {
    if q :| Active(s, q) && Generation(s, q) < Generation(s, p) {
      least := LeastActive(s, q);
    } else {
      least := p;
    }
  }

  predicate Unfinished(s: State, p: Participant)
  {
    match p
    case TheWriter(w) => w < |s.writers| && !s.writers[w].Ended?
    case TheDeleter(d) => d < |s.deleters| && !s.deleters[d].Finished?
  }

  /** No deadlock: while anybody is unfinished, somebody can step. */
  lemma NoDeadlock(c: Config, s: State, p: Participant) returns (q: Participant)
    requires Inv(c, s) && Unfinished(s, p)
    ensures CanStep(c, s, q)
  {
    if Active(s, p) {
      q := LeastActive(s, p);
      LeastGenerationCanStep(c, s, q);
    } else {
      q := p;
      if p.TheWriter? {
        var order := SomeOrder(s.tracker.deletes.Keys);
        assert Enabled(c, s, Enter(p.w, order));
      }
    }
  }

  // ---- termination ------------------------------------------------------------------------------------

  /** Steps a writer has left when there are n deleters in all. */
  function WriterWork(w: WritePhase, n: nat): nat
  {
    match w
    case Ready => n + 3
    case Checking(_, guards) => |guards| + 2
    case Writing(_) => 1
    case Ended(_) => 0
  }

  function DeleterWork(d: DeletePhase): nat
  {
    match d
    case Unregistered => 4
    case Waiting(_) => 3
    case Deleting(_) => 2
    case Releasing(_) => 1
    case Finished(_) => 0
  }

  function WritersWork(ws: seq<WritePhase>, n: nat): nat
  {
    if ws == [] then 0 else WritersWork(ws[..|ws| - 1], n) + WriterWork(ws[|ws| - 1], n)
  }

  function DeletersWork(ds: seq<DeletePhase>): nat
  {
    if ds == [] then 0 else DeletersWork(ds[..|ds| - 1]) + DeleterWork(ds[|ds| - 1])
  }

  function Work(s: State): nat { WritersWork(s.writers, |s.deleters|) + DeletersWork(s.deleters) }

  lemma {:induction false} WritersWorkUpdate(ws: seq<WritePhase>, i: nat, w: WritePhase, n: nat)
    requires i < |ws|
    ensures WritersWork(ws[i := w], n) == WritersWork(ws, n) - WriterWork(ws[i], n) + WriterWork(w, n)
  {
    var k := |ws| - 1;
    if i == k {
      assert ws[i := w][..k] == ws[..k];
    } else {
      assert ws[i := w][..k] == ws[..k][i := w];
      WritersWorkUpdate(ws[..k], i, w, n);
    }
  }

  lemma {:induction false} DeletersWorkUpdate(ds: seq<DeletePhase>, i: nat, d: DeletePhase)
    requires i < |ds|
    ensures DeletersWork(ds[i := d]) == DeletersWork(ds) - DeleterWork(ds[i]) + DeleterWork(d)
  {
    var k := |ds| - 1;
    if i == k {
      assert ds[i := d][..k] == ds[..k];
    } else {
      assert ds[i := d][..k] == ds[..k][i := d];
      DeletersWorkUpdate(ds[..k], i, d);
    }
  }

  /** Distinct numbers below n: at most n of them. */
  lemma {:induction false} AtMost(xs: seq<nat>, n: nat)
    requires forall i :: 0 <= i < |xs| ==> xs[i] < n
    requires forall i, j :: 0 <= i < j < |xs| ==> xs[i] != xs[j]
    ensures |xs| <= n
  {
    if xs != [] {
      assert xs[0] < n;
      if i :| 0 <= i < |xs| && xs[i] == n - 1 {
        AtMost(xs[..i] + xs[i + 1..], n - 1);
      } else {
        AtMost(xs, n - 1);
      }
    }
  }

  lemma StepReducesWork(c: Config, s: State, step: Step)
    requires Inv(c, s) && Enabled(c, s, step)
    ensures Work(Apply(c, s, step)) < Work(s)
  {
    hide TableMatches, GenerationsDiffer, CountersMean, WritesHonourGuards, WaitsGoDown, DeletesAreAlone;
    var s' := Apply(c, s, step);
    var n := |s.deleters|;
    match step
    case Enter(w, order) =>
      EnterSeesEveryDelete(c, s, w, order);
      AtMost(s'.writers[w].guards, n);
      WritersWorkUpdate(s.writers, w, s'.writers[w], n);
    case Pass(w) => WritersWorkUpdate(s.writers, w, s'.writers[w], n);
    case Begin(w) => WritersWorkUpdate(s.writers, w, s'.writers[w], n);
    case End(w) => WritersWorkUpdate(s.writers, w, s'.writers[w], n);
    case Register(d) => DeletersWorkUpdate(s.deleters, d, s'.deleters[d]);
    case StopWaiting(d) => DeletersWorkUpdate(s.deleters, d, s'.deleters[d]);
    case Remove(d) => DeletersWorkUpdate(s.deleters, d, s'.deleters[d]);
    case Release(d) => DeletersWorkUpdate(s.deleters, d, s'.deleters[d]);
  }

  /** Every run is finite: its length is bounded by the work present at its start. */
  lemma {:induction false} RunsAreBounded(c: Config, s: State, steps: seq<Step>)
    requires Inv(c, s) && IsRun(c, s, steps)
    ensures |steps| + Work(After(c, s, steps)) <= Work(s)
    decreases |steps|
  {
    if steps != [] {
      StepReducesWork(c, s, steps[0]);
      StepKeepsInv(c, s, steps[0]);
      RunsAreBounded(c, Apply(c, s, steps[0]), steps[1..]);
    }
  }

  /** A run that cannot be extended has finished every writer and every deleter. */
  lemma MaximalRunsFinishEverybody(c: Config, init: State, steps: seq<Step>, p: Participant)
    requires Init(c, init) && IsRun(c, init, steps)
    requires forall q :: !CanStep(c, After(c, init, steps), q)
    ensures |steps| <= Work(init) && !Unfinished(After(c, init, steps), p)
  {
    InitEstablishesInv(c, init);
    RunKeepsInv(c, init, steps);
    RunsAreBounded(c, init, steps);
    if Unfinished(After(c, init, steps), p) {
      var q := NoDeadlock(c, After(c, init, steps), p);
    }
  }
}
