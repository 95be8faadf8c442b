/** Writing one shard to its owners (coordinator/points_writer.go, writeToShard): the points go to every
    owner at once, and acknowledgements are counted against the consistency level.

    Answers arrive in any order; a timeout or the writer closing may come in between. */
module Quorum {
  import opened Arithmetic
  import opened Collections

  datatype Error = ShardNotFound | FieldTypeConflict | OtherError(code: nat)

  /** Other is any level value the switch does not name; it behaves as All. */
  datatype Level = Any | One | Quorum | All | Other

  /** How many owners must acknowledge. */
  function Required(level: Level, owners: nat): (n: nat)
    ensures owners > 0 ==> 1 <= n <= owners
  {
    match level
    case Any => 1
    case One => 1
    case Quorum => owners / 2 + 1
    case _ => owners
  }

  // ---- one owner ------------------------------------------------------------------------------------

  /** What happened at an owner.  On the local node a missing shard is created and the write tried again;
      on a remote node a failed write may be queued for hinted handoff. */
  datatype Attempt =
    | Local(write: Option<Error>, create: Option<Error>, retry: Option<Error>)
    | Remote(write: Option<Error>, handoff: Option<Error>)

  predicate IsRetryable(e: Error) { e != FieldTypeConflict }

  /** The answer the owner's goroutine sends; no error is an acknowledgement. */
  function Reply(level: Level, a: Attempt): Option<Error>
  {
    match a
    case Local(write, create, retry) =>
      if write == Some(ShardNotFound) then (if create.Some? then create else retry) else write
    case Remote(write, handoff) =>
      if write.Some? && IsRetryable(write.value) then
        if handoff.Some? then handoff
        else if level == Any then None
        else write
      else write
  }

  /** The owner itself took the points. */
  predicate Stored(a: Attempt)
  {
    match a
    case Local(write, create, retry) => write.None? || (write == Some(ShardNotFound) && create.None? && retry.None?)
    case Remote(write, _) => write.None?
  }

  /** Except at level Any, an acknowledgement means that the owner has the points. */
  lemma AcknowledgedIsStored(level: Level, a: Attempt)
    ensures Stored(a) ==> Reply(level, a).None?
    ensures level != Any ==> (Reply(level, a).None? <==> Stored(a))
    ensures level == Any ==>
      (Reply(level, a).None? <==> Stored(a) || (a.Remote? && a.write.Some? && IsRetryable(a.write.value) && a.handoff.None?))
  {
  }

  /** An error sent is that of the last thing tried; a write that is only queued keeps its own. */
  lemma ReplyIsLastError(level: Level, a: Attempt)
    requires Reply(level, a).Some?
    ensures a.Local? ==>
      Reply(level, a) == if a.write != Some(ShardNotFound) then a.write else if a.create.Some? then a.create else a.retry
    ensures a.Remote? ==>
      Reply(level, a) == if a.write != Some(FieldTypeConflict) && a.handoff.Some? then a.handoff else a.write
  {
  }

  // ---- counting answers -----------------------------------------------------------------------------------

  datatype Event = Closing | Timeout | Answer(owner: nat, err: Option<Error>)

  datatype Verdict = Ok | TimedOut | WriteFailed | PartialWrite | Failed(first: Error)

  /** Number of acknowledgements among some answers. */
  function Acks(events: seq<Event>): (n: nat)
    ensures n <= |events|
  {
    if events == [] then 0
    else Acks(events[..|events| - 1]) + if IsAck(events[|events| - 1]) then 1 else 0
  }

  predicate IsAck(e: Event) { e.Answer? && e.err.None? }

  /** No timeout and no closing. */
  predicate Undisturbed(events: seq<Event>) { forall i :: 0 <= i < |events| ==> events[i].Answer? }

  /** Every owner answers at most once. */
  ghost predicate OneAnswerEach(owners: nat, events: seq<Event>)
  {
    && (forall i :: 0 <= i < |events| && events[i].Answer? ==> events[i].owner < owners)
    && forall i, j :: 0 <= i < j < |events| && events[i].Answer? && events[j].Answer? ==> events[i].owner != events[j].owner
  }

  /** How many events come before the first timeout or closing. */
  function Calm(events: seq<Event>): (k: nat)
    ensures k <= |events| && Undisturbed(events[..k]) && (k < |events| ==> !events[k].Answer?)
  {
    if events == [] then 0
    else
      var k := Calm(events[..|events| - 1]);
      assert events[..|events| - 1][..k] == events[..k];
      if k == |events| - 1 && events[k].Answer? then assert events[..k + 1] == events; k + 1 else k
  }

  /** The receiving loop of writeToShard over the arrivals, one per owner. */
  method WriteToShard(level: Level, owners: nat, arrivals: seq<Event>) returns (r: Verdict)
    requires |arrivals| == owners
    ensures r == Judge(level, owners, arrivals)
  {
    hide Judge, Calm;
    var required := Required(level, owners);
    var wrote := 0;
    var writeError: Option<Error> := None;
    var seen := 0;
    assert arrivals[..0] == [];
    while seen < owners
      invariant seen <= owners && Undisturbed(arrivals[..seen])
      invariant wrote == Acks(arrivals[..seen]) && wrote < Max(required, 1)
      invariant writeError == FirstError(arrivals[..seen])
    {
      assert arrivals[..seen + 1][..seen] == arrivals[..seen] && arrivals[..seen + 1][seen] == arrivals[seen];
      match arrivals[seen]
      case Closing =>
        JudgeDisturbed(level, owners, arrivals, seen);
        return WriteFailed;
      case Timeout =>
        JudgeDisturbed(level, owners, arrivals, seen);
        return TimedOut;
      case Answer(_, err) =>
        seen := seen + 1;
        if err.Some? {
          if writeError.None? {
            writeError := err;
          }
          continue;
        }
        wrote := wrote + 1;
        if wrote >= required {
          JudgeOk(level, owners, arrivals, seen);
          return Ok;
        }
    }
    assert arrivals[..owners] == arrivals;
    JudgeCalm(level, owners, arrivals);
    if wrote > 0 {
      return PartialWrite;
    }
    if writeError.Some? {
      return Failed(writeError.value);
    }
    return WriteFailed;
  }

  function FirstError(events: seq<Event>): Option<Error>
  {
    if events == [] then None
    else
      var before, e := FirstError(events[..|events| - 1]), events[|events| - 1];
      if before.Some? then before else if e.Answer? then e.err else None
  }

  lemma {:induction false} AcksOfPrefix(events: seq<Event>, k: nat)
    requires k <= |events|
    ensures Acks(events[..k]) <= Acks(events)
    decreases |events|
  {
    if k == |events| {
      assert events[..k] == events;
    } else {
      assert events[..|events| - 1][..k] == events[..k];
      AcksOfPrefix(events[..|events| - 1], k);
    }
  }

  /** The verdict on any arrivals: success if enough acknowledgements come before anything disturbs the write;
      else what disturbed it; else, when everybody answered, by whether anybody acknowledged.
      A shard without owners has failed, whatever the level. */
  function Judge(level: Level, owners: nat, arrivals: seq<Event>): Verdict
  {
    var k := Calm(arrivals);
    if owners > 0 && Acks(arrivals[..k]) >= Required(level, owners) then Ok
    else if k < |arrivals| then (if arrivals[k].Timeout? then TimedOut else WriteFailed)
    else if Acks(arrivals) > 0 then PartialWrite
    else match FirstError(arrivals) case Some(e) => Failed(e) case None => WriteFailed
  }

  lemma {:induction false} CalmIs(events: seq<Event>, k: nat)
    requires k <= |events| && Undisturbed(events[..k]) && (k < |events| ==> !events[k].Answer?)
    ensures Calm(events) == k
  {
    hide Calm;
    var c := Calm(events);
    forall i | 0 <= i < c ensures events[i].Answer? { assert events[..c][i].Answer?; }
    forall i | 0 <= i < k ensures events[i].Answer? { assert events[..k][i].Answer?; }
  }

  lemma JudgeDisturbed(level: Level, owners: nat, arrivals: seq<Event>, k: nat)
    requires |arrivals| == owners && k < owners && Undisturbed(arrivals[..k]) && !arrivals[k].Answer?
    requires Acks(arrivals[..k]) < Max(Required(level, owners), 1)
    ensures Judge(level, owners, arrivals) == if arrivals[k].Timeout? then TimedOut else WriteFailed
  {
    CalmIs(arrivals, k);
  }

  lemma JudgeOk(level: Level, owners: nat, arrivals: seq<Event>, k: nat)
    requires |arrivals| == owners && 0 < k <= owners && Undisturbed(arrivals[..k])
    requires Acks(arrivals[..k]) >= Required(level, owners)
    ensures Judge(level, owners, arrivals) == Ok
  {
    hide Calm;
    var c := Calm(arrivals);
    forall i | 0 <= i < k ensures arrivals[i].Answer? { assert arrivals[..k][i].Answer?; }
    assert arrivals[..c][..k] == arrivals[..k];
    AcksOfPrefix(arrivals[..c], k);
  }

  lemma JudgeCalm(level: Level, owners: nat, arrivals: seq<Event>)
    requires |arrivals| == owners && Undisturbed(arrivals)
    ensures Judge(level, owners, arrivals) ==
      if owners > 0 && Acks(arrivals) >= Required(level, owners) then Ok
      else if Acks(arrivals) > 0 then PartialWrite
      else match FirstError(arrivals) case Some(e) => Failed(e) case None => WriteFailed
  {
    assert arrivals[..owners] == arrivals;
    CalmIs(arrivals, owners);
  }

  /** Verdicts as the client tells them apart: the kind of error, not its text. */
  predicate SameKind(a: Verdict, b: Verdict) { a == b || (a.Failed? && b.Failed?) }

  lemma {:induction false} ErrorOrAck(events: seq<Event>)
    requires Undisturbed(events) && events != []
    ensures Acks(events) == 0 ==> FirstError(events).Some?
  {
    if |events| > 1 { ErrorOrAck(events[..|events| - 1]); }
  }

  /** The order in which the owners answer does not matter. */
  lemma OrderDoesNotMatter(level: Level, owners: nat, xs: seq<Event>, ys: seq<Event>)
    requires |xs| == |ys| == owners && Undisturbed(xs) && Undisturbed(ys) && multiset(xs) == multiset(ys)
    ensures SameKind(Judge(level, owners, xs), Judge(level, owners, ys))
  {
    hide Judge;
    JudgeCalm(level, owners, xs);
    JudgeCalm(level, owners, ys);
    SameAcks(xs, ys);
    if owners > 0 {
      ErrorOrAck(xs);
      ErrorOrAck(ys);
    }
  }

  lemma {:induction false} SameAcks(xs: seq<Event>, ys: seq<Event>)
    requires multiset(xs) == multiset(ys)
    ensures Acks(xs) == Acks(ys)
    decreases |xs|
  {
    hide Acks;
    assert |multiset(xs)| == |multiset(ys)|;
    if xs == [] {
      assert ys == [];
    } else {
      var n := |xs| - 1;
      assert xs[n] in multiset(ys);
      var k :| 0 <= k < |ys| && ys[k] == xs[n];
      TakenApart(xs, n);
      TakenApart(ys, k);
      SameWithout(multiset(xs[..n] + xs[n + 1..]), multiset(ys[..k] + ys[k + 1..]), xs[n]);
      SameAcks(xs[..n] + xs[n + 1..], ys[..k] + ys[k + 1..]);
      AcksWithout(xs, n);
      AcksWithout(ys, k);
    }
  }

  lemma {:induction false} AcksWithout(ys: seq<Event>, k: nat)
    requires k < |ys|
    ensures Acks(ys) == Acks(ys[..k] + ys[k + 1..]) + if IsAck(ys[k]) then 1 else 0
    decreases |ys|
  {
    var n := |ys| - 1;
    if k == n {
      assert ys[..k] + ys[k + 1..] == ys[..n];
    } else {
      assert (ys[..k] + ys[k + 1..])[..n - 1] == ys[..n][..k] + ys[..n][k + 1..];
      assert (ys[..k] + ys[k + 1..])[n - 1] == ys[n];
      AcksWithout(ys[..n], k);
    }
  }

  /** A shard without owners fails even at level All, where nothing would be required. */
  lemma NoOwnersNoSuccess()
    ensures Required(All, 0) == 0 && Acks([]) >= Required(All, 0) && Judge(All, 0, []) == WriteFailed
  {
    JudgeCalm(All, 0, []);
  }

  /** Success, partial write and failure are decided by the acknowledgement count, provided there is an owner. */
  lemma VerdictByCount(level: Level, owners: nat, arrivals: seq<Event>)
    requires |arrivals| == owners && Undisturbed(arrivals)
    ensures (Judge(level, owners, arrivals) == Ok <==> Acks(arrivals) >= Required(level, owners)) <==> (owners > 0 || level in {Any, One, Quorum})
    ensures Judge(level, owners, arrivals) == PartialWrite <==> 0 < Acks(arrivals) < Required(level, owners)
    ensures owners > 0 ==> (Judge(level, owners, arrivals).Failed? <==> Acks(arrivals) == 0)
    ensures owners > 0 && Acks(arrivals) == 0 ==> arrivals[0].err == Some(Judge(level, owners, arrivals).first)
  {
    hide Judge;
    JudgeCalm(level, owners, arrivals);
    if owners > 0 {
      ErrorOrAck(arrivals);
      FirstErrorIs(arrivals);
    }
  }

  /** The first answer is an error, or the first error comes later. */
  lemma {:induction false} FirstErrorIs(events: seq<Event>)
    requires events != [] && events[0].Answer?
    ensures events[0].err.Some? ==> FirstError(events) == events[0].err
    ensures events[0].err.None? ==> Acks(events) > 0
  {
    if |events| > 1 {
      FirstErrorIs(events[..|events| - 1]);
    } else {
      assert events[..0] == [];
    }
  }

  // ---- quorums overlap -------------------------------------------------------------------------------------------

  /** The owners that acknowledged. */
  function Ackers(events: seq<Event>): set<nat>
  {
    if events == [] then {}
    else
      var e := events[|events| - 1];
      Ackers(events[..|events| - 1]) + if IsAck(e) then {e.owner} else {}
  }

  lemma {:induction false} AckersAnswered(owners: nat, events: seq<Event>, o: nat)
    requires OneAnswerEach(owners, events) && o in Ackers(events)
    ensures o < owners && exists i :: 0 <= i < |events| && events[i] == Answer(o, None)
    decreases |events|
  {
    var n := |events| - 1;
    if IsAck(events[n]) && events[n].owner == o {
      assert events[n] == Answer(o, None);
    } else {
      AckersAnswered(owners, events[..n], o);
      var i :| 0 <= i < n && events[..n][i] == Answer(o, None);
      assert events[i] == Answer(o, None);
    }
  }

  /** An owner that answers now has not acknowledged before. */
  lemma NewAcker(owners: nat, events: seq<Event>)
    requires OneAnswerEach(owners, events) && events != [] && IsAck(events[|events| - 1])
    ensures events[|events| - 1].owner !in Ackers(events[..|events| - 1])
  {
    hide Ackers;
    var n := |events| - 1;
    forall o | o in Ackers(events[..n])
      ensures o != events[n].owner
    {
      AckersAnswered(owners, events[..n], o);
      var i :| 0 <= i < n && events[..n][i] == Answer(o, None);
      assert events[i] == Answer(o, None);
    }
  }

  lemma {:induction false} AckersAreDistinct(owners: nat, events: seq<Event>)
    requires OneAnswerEach(owners, events)
    ensures |Ackers(events)| == Acks(events)
    decreases |events|
  {
    if events != [] {
      AckersAreDistinct(owners, events[..|events| - 1]);
      if IsAck(events[|events| - 1]) { NewAcker(owners, events); }
    }
  }

  lemma SetsOverlap(a: set<nat>, b: set<nat>, n: nat)
    requires a <= Below(n) && b <= Below(n) && |a| + |b| > n
    ensures a * b != {}
  {
    SizeBelow(n);
    if a * b == {} {
      assert |a + b| == |a| + |b|;
      Subset(a + b, Below(n));
    }
  }

  /** The owners whose acknowledgements arrived before anything disturbed the write. */
  function Acknowledging(arrivals: seq<Event>): set<nat> { Ackers(arrivals[..Calm(arrivals)]) }

  /** What a level asks for: somebody, more than half of the owners, or all of them. */
  predicate Enough(level: Level, owners: nat, who: set<nat>)
  {
    match level
    case Any => who != {}
    case One => who != {}
    case Quorum => 2 * |who| > owners
    case _ => who == Below(owners)
  }

  lemma RequiredIsEnough(level: Level, owners: nat, who: set<nat>)
    requires owners > 0 && who <= Below(owners)
    ensures |who| >= Required(level, owners) <==> Enough(level, owners, who)
  {
    hide Below;
    SizeBelow(owners);
    if |who| >= owners {
      Subset(who, Below(owners));
      SameSize(who, Below(owners));
    }
  }

  /** Success means exactly that enough different owners acknowledged in time, under any interleaving: one at level Any
      or One, more than half at level Quorum, and otherwise all. */
  lemma SuccessIsAcknowledged(level: Level, owners: nat, arrivals: seq<Event>)
    requires |arrivals| == owners && OneAnswerEach(owners, arrivals)
    ensures Acknowledging(arrivals) <= Below(owners)
    ensures owners == 0 ==> Judge(level, owners, arrivals) != Ok
    ensures owners > 0 && level in {Any, One} ==> (Judge(level, owners, arrivals) == Ok <==> Acknowledging(arrivals) != {})
    ensures owners > 0 && level == Quorum ==> (Judge(level, owners, arrivals) == Ok <==> 2 * |Acknowledging(arrivals)| > owners)
    ensures owners > 0 && level in {All, Other} ==>
      (Judge(level, owners, arrivals) == Ok <==> Acknowledging(arrivals) == Below(owners))
    ensures Judge(level, owners, arrivals) == Ok <==> owners > 0 && Enough(level, owners, Acknowledging(arrivals))
  {
    hide Ackers, Calm, Below, Required;
    var k := Calm(arrivals);
    AckersAreDistinct(owners, arrivals[..k]);
    forall o | o in Acknowledging(arrivals) ensures o in Below(owners) { AckersAnswered(owners, arrivals[..k], o); }
    if owners > 0 { RequiredIsEnough(level, owners, Acknowledging(arrivals)); }
  }

  /** Two successful quorum writes to the same owners share an owner that acknowledged both. */
  lemma QuorumsShareAnOwner(owners: nat, xs: seq<Event>, ys: seq<Event>)
    requires |xs| == |ys| == owners && OneAnswerEach(owners, xs) && OneAnswerEach(owners, ys)
    requires Judge(Quorum, owners, xs) == Ok && Judge(Quorum, owners, ys) == Ok
    ensures exists o :: o in Acknowledging(xs) && o in Acknowledging(ys)
  {
    hide Acknowledging, Judge;
    SuccessIsAcknowledged(Quorum, owners, xs);
    SuccessIsAcknowledged(Quorum, owners, ys);
    SetsOverlap(Acknowledging(xs), Acknowledging(ys), owners);
    var o :| o in Acknowledging(xs) * Acknowledging(ys);
  }

  // ---- from attempts to stored points ----------------------------------------------------------------------------

  /** Every answer that arrives is the reply to what happened at its owner, and no owner answers twice. */
  ghost predicate AnswersOf(level: Level, owners: nat, attempts: nat -> Attempt, arrivals: seq<Event>)
  {
    && |arrivals| == owners && OneAnswerEach(owners, arrivals)
    && forall i :: 0 <= i < owners && arrivals[i].Answer? ==> arrivals[i].err == Reply(level, attempts(arrivals[i].owner))
  }

  /** The owners that took the points themselves. */
  function Storing(owners: nat, attempts: nat -> Attempt): set<nat> { set o | o in Below(owners) && Stored(attempts(o)) }

  lemma AckersStored(level: Level, owners: nat, attempts: nat -> Attempt, arrivals: seq<Event>)
    requires AnswersOf(level, owners, attempts, arrivals) && level != Any
    ensures Acknowledging(arrivals) <= Storing(owners, attempts)
  {
    hide Ackers, Calm, Below, Stored, Reply;
    var k := Calm(arrivals);
    forall o | o in Acknowledging(arrivals)
      ensures o in Storing(owners, attempts)
    {
      AckersAnswered(owners, arrivals[..k], o);
      var i :| 0 <= i < k && arrivals[..k][i] == Answer(o, None);
      assert arrivals[i] == Answer(o, None);
      AcknowledgedIsStored(level, attempts(o));
      assert o in Below(owners);
    }
  }

  /** A successful write at any level but Any is stored at the owners the level asks for: at one, at more than half of
      them, or at all. */
  lemma SuccessIsStored(level: Level, owners: nat, attempts: nat -> Attempt, arrivals: seq<Event>)
    requires AnswersOf(level, owners, attempts, arrivals) && level != Any && Judge(level, owners, arrivals) == Ok
    ensures owners > 0 && Enough(level, owners, Storing(owners, attempts))
    ensures level in {All, Other} ==> forall o: nat :: o < owners ==> Stored(attempts(o))
  {
    hide Acknowledging, Judge, Storing, Below, Stored;
    SuccessIsAcknowledged(level, owners, arrivals);
    AckersStored(level, owners, attempts, arrivals);
    Subset(Acknowledging(arrivals), Storing(owners, attempts));
    StoringAre(owners, attempts);
  }

  lemma StoringAre(owners: nat, attempts: nat -> Attempt)
    ensures Storing(owners, attempts) <= Below(owners)
    ensures Storing(owners, attempts) == Below(owners) ==> forall o: nat :: o < owners ==> Stored(attempts(o))
  {
    hide Stored;
    forall o: nat | o < owners && Storing(owners, attempts) == Below(owners)
      ensures Stored(attempts(o))
    {
      assert o in Below(owners);
    }
  }

  /** And when every owner answers undisturbed, exactly then. */
  lemma StoredIsSuccess(level: Level, owners: nat, attempts: nat -> Attempt, arrivals: seq<Event>)
    requires AnswersOf(level, owners, attempts, arrivals) && level != Any && Undisturbed(arrivals)
    ensures Judge(level, owners, arrivals) == Ok <==> owners > 0 && Enough(level, owners, Storing(owners, attempts))
  {
    hide Judge, Storing, Acknowledging, Enough, Calm;
    if Judge(level, owners, arrivals) == Ok {
      SuccessIsStored(level, owners, attempts, arrivals);
    } else if owners > 0 {
      assert arrivals[..owners] == arrivals;
      CalmIs(arrivals, owners);
      SuccessIsAcknowledged(level, owners, arrivals);
      EverybodyAnswers(owners, arrivals);
      StoredAcknowledge(level, owners, attempts, arrivals);
      AckersStored(level, owners, attempts, arrivals);
      assert Acknowledging(arrivals) == Storing(owners, attempts);
    }
  }

  ghost predicate HasAnswered(events: seq<Event>, o: nat)
  {
    exists i :: 0 <= i < |events| && events[i].Answer? && events[i].owner == o
  }

  /** As many different answers as owners are everybody's. */
  lemma EverybodyAnswers(owners: nat, arrivals: seq<Event>)
    requires |arrivals| == owners && Undisturbed(arrivals) && OneAnswerEach(owners, arrivals)
    ensures forall o: nat :: o < owners ==> HasAnswered(arrivals, o)
  {
    hide Ackers;
    var acked := seq(owners, i requires 0 <= i < owners => Answer(arrivals[i].owner, None));
    AllAcks(acked);
    AckersAreDistinct(owners, acked);
    forall o | o in Ackers(acked)
      ensures o in Below(owners) && HasAnswered(arrivals, o)
    {
      AckersAnswered(owners, acked, o);
      var i :| 0 <= i < owners && acked[i] == Answer(o, None);
      assert arrivals[i].owner == o;
    }
    SizeBelow(owners);
    SameSize(Ackers(acked), Below(owners));
  }

  lemma {:induction false} AllAcks(events: seq<Event>)
    requires forall i :: 0 <= i < |events| ==> IsAck(events[i])
    ensures Acks(events) == |events|
  {
    if events != [] { AllAcks(events[..|events| - 1]); }
  }

  lemma StoredAcknowledge(level: Level, owners: nat, attempts: nat -> Attempt, arrivals: seq<Event>)
    requires AnswersOf(level, owners, attempts, arrivals) && level != Any && Undisturbed(arrivals) && Calm(arrivals) == owners
    requires forall o: nat :: o < owners ==> HasAnswered(arrivals, o)
    ensures Storing(owners, attempts) <= Acknowledging(arrivals)
  {
    hide Ackers, Calm, Stored, Reply;
    assert arrivals[..owners] == arrivals;
    forall o | o in Storing(owners, attempts)
      ensures o in Acknowledging(arrivals)
    {
      AcknowledgedIsStored(level, attempts(o));
      assert HasAnswered(arrivals, o);
      var i :| 0 <= i < owners && arrivals[i].owner == o;
      AckIsAcker(arrivals, i);
    }
  }

  lemma {:induction false} AckIsAcker(events: seq<Event>, i: nat)
    requires i < |events| && IsAck(events[i])
    ensures events[i].owner in Ackers(events)
    decreases |events|
  {
    if i < |events| - 1 { AckIsAcker(events[..|events| - 1], i); }
  }
}
