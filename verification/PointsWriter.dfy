/** A whole write (coordinator/points_writer.go, WritePointsPrivileged): map the points to shards, write
    every shard at once, and wait for all of them. */
module PointsWriter {
  import opened Collections
  import opened ShardMapping
  import Q = Quorum

  /** What the collecting loop may see; each shard reports once. */
  datatype Event = Closing | Timeout | ShardDone(id: nat)

  datatype Result =
    | Ok
    | DatabaseNotFound
    | NotMapped(err: MapError)
    | PointsDropped(n: nat)
    | ShardFailed(id: nat, verdict: Q.Verdict)
    | TimedOut
    | WriteFailed

  /** A possible order of events for a set of shards: one event for each, no shard reporting twice. */
  ghost predicate Schedules(ids: set<nat>, order: seq<Event>)
  {
    && |order| == |ids|
    && (forall i :: 0 <= i < |order| && order[i].ShardDone? ==> order[i].id in ids)
    && forall i, j :: 0 <= i < j < |order| && order[i].ShardDone? && order[j].ShardDone? ==> order[i].id != order[j].id
  }

  /** What happens to a request once its points are mapped: at each owner of each shard, and what arrives from there,
      in which order. */
  datatype World = World(attempts: (Shard, nat) -> Q.Attempt, arrivals: Shard -> seq<Q.Event>)

  function AttemptsAt(world: World, sh: Shard): nat -> Q.Attempt { (o: nat) => world.attempts(sh, o) }

  /** What arrives answers what happened. */
  ghost predicate Honest(level: Q.Level, world: World)
  {
    forall sh: Shard :: Q.AnswersOf(level, sh.owners, AttemptsAt(world, sh), world.arrivals(sh))
  }

  /** The write to the shard succeeded. */
  predicate MetLevel(level: Q.Level, sh: Shard, world: World) { Q.Judge(level, sh.owners, world.arrivals(sh)) == Q.Ok }

  function Reported(order: seq<Event>): set<nat>
  {
    if order == [] then {}
    else Reported(order[..|order| - 1]) + if order[|order| - 1].ShardDone? then {order[|order| - 1].id} else {}
  }

  lemma ReportedNext(order: seq<Event>, k: nat)
    requires k < |order| && order[k].ShardDone?
    ensures Reported(order[..k + 1]) == Reported(order[..k]) + {order[k].id}
  {
    assert order[..k + 1][..k] == order[..k];
  }

  lemma {:induction false} ReportedAre(order: seq<Event>, k: nat, id: nat)
    requires k <= |order| && forall i :: 0 <= i < k ==> order[i].ShardDone?
    ensures id in Reported(order[..k]) <==> exists i :: 0 <= i < k && order[i].id == id
  {
    hide Reported;
    if k == 0 {
      assert Reported(order[..0]) == {} by { NoneReported(); }
    } else {
      ReportedAre(order, k - 1, id);
      ReportedNext(order, k - 1);
    }
  }

  lemma NoneReported()
    ensures Reported([]) == {}
  {
  }

  lemma {:induction false} ReportedSize(order: seq<Event>, k: nat)
    requires k <= |order| && forall i :: 0 <= i < k ==> order[i].ShardDone?
    requires forall i, j :: 0 <= i < j < k ==> order[i].id != order[j].id
    ensures |Reported(order[..k])| == k
  {
    hide Reported;
    if k == 0 {
      NoneReported();
    } else {
      ReportedSize(order, k - 1);
      ReportedNext(order, k - 1);
      ReportedAre(order, k - 1, order[k - 1].id);
    }
  }

  /** When as many different shards have reported as there are shards, all of them have. */
  lemma AllReported(ids: set<nat>, order: seq<Event>)
    requires Schedules(ids, order) && forall i :: 0 <= i < |order| ==> order[i].ShardDone?
    ensures forall id :: id in ids ==> exists i :: 0 <= i < |order| && order[i].id == id
  {
    hide Reported;
    ReportedSize(order, |order|);
    assert order[..|order|] == order;
    forall id ensures id in Reported(order) <==> exists i :: 0 <= i < |order| && order[i].id == id {
      ReportedAre(order, |order|, id);
    }
    SameSize(Reported(order), ids);
  }

  /** The first i events are successes. */
  ghost predicate Smooth(level: Q.Level, shards: map<nat, Shard>, world: World, order: seq<Event>, i: nat)
  {
    && i <= |order|
    && forall j :: 0 <= j < i ==> order[j].ShardDone? && order[j].id in shards && MetLevel(level, shards[order[j].id], world)
  }

  /** What the first event that is not a success makes of the request; without one, what was dropped. */
  ghost predicate Settled(level: Q.Level, shards: map<nat, Shard>, world: World, order: seq<Event>, dropped: nat, r: Result)
  {
    match r
    case Ok => dropped == 0 && Smooth(level, shards, world, order, |order|)
    case PointsDropped(n) => n == dropped > 0 && Smooth(level, shards, world, order, |order|)
    case TimedOut => exists i :: 0 <= i < |order| && order[i] == Timeout && Smooth(level, shards, world, order, i)
    case WriteFailed => exists i :: 0 <= i < |order| && order[i] == Closing && Smooth(level, shards, world, order, i)
    case ShardFailed(id, verdict) =>
      && id in shards && verdict == Q.Judge(level, shards[id].owners, world.arrivals(shards[id])) != Q.Ok
      && exists i :: 0 <= i < |order| && order[i] == ShardDone(id) && Smooth(level, shards, world, order, i)
    case _ => false
  }

  /** The event that stopped the collecting loop, if one did. */
  lemma StoppedAt(level: Q.Level, shards: map<nat, Shard>, world: World, order: seq<Event>, dropped: nat, r: Result)
    returns (i: nat)
    requires Settled(level, shards, world, order, dropped, r)
    ensures Smooth(level, shards, world, order, i)
    ensures i == |order| <==> r == Ok || r.PointsDropped?
    ensures i < |order| ==> match order[i]
      case Timeout => r == TimedOut
      case Closing => r == WriteFailed
      case ShardDone(id) => r.ShardFailed? && r.id == id && id in shards && !MetLevel(level, shards[id], world)
  {
    hide Q.Judge;
    i := |order|;
    if r == TimedOut {
      i :| i < |order| && order[i] == Timeout && Smooth(level, shards, world, order, i);
    } else if r == WriteFailed {
      i :| i < |order| && order[i] == Closing && Smooth(level, shards, world, order, i);
    } else if r.ShardFailed? {
      i :| i < |order| && order[i] == ShardDone(r.id) && Smooth(level, shards, world, order, i);
    }
  }

  /** The shards, what happened and the order of events settle the result. */
  lemma OneOutcome(level: Q.Level, shards: map<nat, Shard>, world: World, order: seq<Event>, dropped: nat, r: Result, s: Result)
    requires Settled(level, shards, world, order, dropped, r) && Settled(level, shards, world, order, dropped, s)
    ensures r == s
  {
    hide Q.Judge, MetLevel;
    var i := StoppedAt(level, shards, world, order, dropped, r);
    var j := StoppedAt(level, shards, world, order, dropped, s);
    assert !(i < j) && !(j < i);
  }

  /** Nothing but reports of shards. */
  predicate Calm(order: seq<Event>) { Timeout !in order && Closing !in order }

  ghost predicate AllMet(level: Q.Level, shards: map<nat, Shard>, world: World)
  {
    forall id :: id in shards ==> MetLevel(level, shards[id], world)
  }

  /** The collecting loop: the first event that is not a success decides.  Unless that is a timeout or closing, the
      loop is content exactly when every shard met its level and nothing was dropped. */
  method Collect(level: Q.Level, shards: map<nat, Shard>, world: World, order: seq<Event>, dropped: nat)
    returns (r: Result)
    requires Schedules(shards.Keys, order) && Honest(level, world)
    ensures Settled(level, shards, world, order, dropped, r)
    ensures r == Ok || r.PointsDropped? ==> AllMet(level, shards, world)
    ensures Calm(order) ==> (r == Ok <==> dropped == 0 && AllMet(level, shards, world))
  {
    hide Q.Judge, MetLevel;
    for i := 0 to |order|
      invariant Smooth(level, shards, world, order, i)
    {
      match order[i]
      case Closing => return WriteFailed;
      case Timeout => return TimedOut;
      case ShardDone(id) =>
        assert Q.AnswersOf(level, shards[id].owners, AttemptsAt(world, shards[id]), world.arrivals(shards[id]));
        var verdict := Q.WriteToShard(level, shards[id].owners, world.arrivals(shards[id]));
        assert verdict == Q.Ok <==> MetLevel(level, shards[id], world) by { JudgedOk(level, shards[id], world); }
        if verdict != Q.Ok {
          return ShardFailed(id, verdict);
        }
    }
    AllReported(shards.Keys, order);
    if dropped > 0 {
      return PointsDropped(dropped);
    }
    return Ok;
  }

  lemma JudgedOk(level: Q.Level, sh: Shard, world: World)
    ensures MetLevel(level, sh, world) <==> Q.Judge(level, sh.owners, world.arrivals(sh)) == Q.Ok
  {
  }

  /** The owners of the shard the level asks for took the points themselves: one, more than half of them, or all. */
  ghost predicate StoredEnough(level: Q.Level, sh: Shard, world: World)
  {
    match level
    case Any => true
    case One => exists o: nat :: o < sh.owners && Q.Stored(world.attempts(sh, o))
    case Quorum => 2 * |Q.Storing(sh.owners, AttemptsAt(world, sh))| > sh.owners
    case _ => sh.owners > 0 && forall o: nat :: o < sh.owners ==> Q.Stored(world.attempts(sh, o))
  }

  /** The point is in the list of the shard its time and hash lead to, and the write to that shard succeeded. */
  ghost predicate Accepted(level: Q.Level, list: seq<Group>, points: map<nat, Slice>, world: World, p: Point)
    requires AllDisjoint(list)
  {
    && ShardOf(list, p).Some?
    && p in Elems(points, ShardOf(list, p).value.id)
    && MetLevel(level, ShardOf(list, p).value, world)
    && (level != Q.Any ==> StoredEnough(level, ShardOf(list, p).value, world))
  }

  lemma MetIsStored(level: Q.Level, sh: Shard, world: World)
    requires Honest(level, world) && MetLevel(level, sh, world) && level != Q.Any
    ensures StoredEnough(level, sh, world)
  {
    hide Q.Judge, Q.Stored, Below;
    assert Q.AnswersOf(level, sh.owners, AttemptsAt(world, sh), world.arrivals(sh));
    Q.SuccessIsStored(level, sh.owners, AttemptsAt(world, sh), world.arrivals(sh));
    if level == Q.One {
      var o :| o in Q.Storing(sh.owners, AttemptsAt(world, sh));
      assert Q.Stored(world.attempts(sh, o));
    } else if level in {Q.All, Q.Other} {
      forall o: nat | o < sh.owners ensures Q.Stored(world.attempts(sh, o)) { assert Q.Stored(AttemptsAt(world, sh)(o)); }
    }
  }

  /** The points went where their times and hashes lead, or were dropped. */
  ghost predicate Placed(list: seq<Group>, points: seq<Point>, slices: map<nat, Slice>, dropped: seq<Point>)
  {
    && AllDisjoint(list)
    && (forall id :: Elems(slices, id) == Going(list, points, Some(id)))
    && dropped == Going(list, points, None)
  }

  /** `policyMin` is the retention bound of the policy, if it exists; `databaseFound` is false if the default policy is
      asked for and there is no such database.  A write that returns nil has every point accepted.  Any other result is
      one of: no database, no policy, a shard group that could not be created, and what the first event that is not a
      success makes of the request. */
  method WritePoints(points: seq<Point>, databaseFound: bool, policyMin: Option<int>, create: (nat, int) -> Created,
                     level: Q.Level, world: World, schedule: set<nat> -> seq<Event>)
    returns (r: Result, m: ShardMapping, list: seq<Group>)
    requires Trustworthy(create)
    requires forall ids :: Schedules(ids, schedule(ids))
    requires Honest(level, world)
    ensures fresh(m)
    ensures r == DatabaseNotFound <==> !databaseFound
    ensures r == NotMapped(NoRetentionPolicy) <==> databaseFound && policyMin.None?
    ensures r.NotMapped? && policyMin.Some? ==> NotCreated(create, points, policyMin.value, list, r.err)
    ensures !r.DatabaseNotFound? && !r.NotMapped? ==>
      && Placed(list, points, m.points, m.dropped) && AllAsked(list, create, points, policyMin.value)
      && DroppedOnlyExpired(list, points, policyMin.value, m.dropped)
      && Settled(level, m.shards, world, schedule(m.shards.Keys), |m.dropped|, r)
      && (Calm(schedule(m.shards.Keys)) ==> (r == Ok <==> m.dropped == [] && AllMet(level, m.shards, world)))
    ensures r == Ok ==> AllDisjoint(list) && forall i :: 0 <= i < |points| ==> Accepted(level, list, m.points, world, points[i])
  {
    hide AllDisjoint, Sorted, Going, Trustworthy, MetLevel, ShardOf, Honest, StoredEnough, Settled, Calm, AllAsked, DroppedOnlyExpired, Covered;
    list := [];
    if !databaseFound {
      m := new ShardMapping(|points|);
      return DatabaseNotFound, m, list;
    }
    if policyMin.None? {
      m := new ShardMapping(|points|);
      return NotMapped(NoRetentionPolicy), m, list;
    }
    var err;
    err, m, list := MapShards(points, policyMin.value, create);
    if err.Some? {
      return NotMapped(err.value), m, list;
    }
    r := Collect(level, m.shards, world, schedule(m.shards.Keys), |m.dropped|);
    assert !r.DatabaseNotFound? && !r.NotMapped? && (r == Ok ==> m.dropped == []) by {
      SettledKinds(level, m.shards, world, schedule(m.shards.Keys), |m.dropped|, r);
    }
    if r == Ok {
      forall i | 0 <= i < |points|
        ensures Accepted(level, list, m.points, world, points[i])
      {
        GoesToItsTarget(list, points, i);
        assert Target(list, points[i]).Some?;
        var sh := ShardOf(list, points[i]).value;
        assert Registered(m.shards, sh);
        if level != Q.Any { MetIsStored(level, sh, world); }
      }
    }
  }

  lemma SettledKinds(level: Q.Level, shards: map<nat, Shard>, world: World, order: seq<Event>, dropped: nat, r: Result)
    requires Settled(level, shards, world, order, dropped, r)
    ensures !r.DatabaseNotFound? && !r.NotMapped? && (r == Ok ==> dropped == 0)
  {
  }
}
