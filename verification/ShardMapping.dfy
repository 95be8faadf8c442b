/** Mapping the points of a write to shards (coordinator/points_writer.go, MapShards and sgList;
    services/meta/data.go for shard groups): by time to a shard group, by hash to a shard in it. */
module ShardMapping {
  import opened Arithmetic
  import opened Collections

  datatype Point = Point(time: int, hash: nat, payload: nat)

  datatype Shard = Shard(id: nat, owners: nat)

  datatype Group = Group(start: int, end: int, truncatedAt: Option<int>, shards: seq<Shard>)

  predicate Contains(g: Group, t: int) { g.start <= t < g.end }

  predicate Disjoint(g: Group, g': Group) { g.end <= g'.start || g'.end <= g.start }

  /** A group as the metadata hands it out: not empty, truncated inside its range if at all. */
  predicate Proper(g: Group)
  {
    && g.start < g.end && g.shards != []
    && (g.truncatedAt.Some? ==> g.start <= g.truncatedAt.value <= g.end)
  }

  // ---- the sorted list of groups -----------------------------------------------------------------------

  function EffectiveEnd(g: Group): int { if g.truncatedAt.Some? then g.truncatedAt.value else g.end }

  /** ShardGroupInfos.Less */
  predicate Less(g: Group, g': Group)
  {
    if EffectiveEnd(g) == EffectiveEnd(g') then g.start < g'.start else EffectiveEnd(g) < EffectiveEnd(g')
  }

  predicate Sorted(list: seq<Group>) { forall i, j :: 0 <= i < j < |list| ==> !Less(list[j], list[i]) }

  predicate AllDisjoint(list: seq<Group>)
  {
    && (forall i :: 0 <= i < |list| ==> Proper(list[i]))
    && forall i, j :: 0 <= i < j < |list| ==> Disjoint(list[i], list[j])
  }

  /** By where groups end, or were truncated; those that end together by where they start. */
  lemma SortedMeans(list: seq<Group>, i: nat, j: nat)
    requires Sorted(list) && i < j < |list|
    ensures var e := match list[i].truncatedAt case None => list[i].end case Some(t) => t;
      var e' := match list[j].truncatedAt case None => list[j].end case Some(t) => t;
      e < e' || (e == e' && list[i].start <= list[j].start)
  {
    assert !Less(list[j], list[i]);
  }

  /** sgList.Append: the list with the group added, sorted again. */
  method Append(list: seq<Group>, g: Group) returns (next: seq<Group>, ghost at: nat)
    requires Sorted(list)
    ensures Sorted(next) && at <= |list| && next == list[..at] + [g] + list[at..]
  {
    next := list + [g];
    at := |list|;
    var i := |list|;
    assert list[..at] + [g] + list[at..] == next;
    while i > 0 && Less(next[i], next[i - 1])
      invariant 0 <= i <= |list| && i == at
      invariant next == list[..i] + [g] + list[i..]
      invariant forall j :: i <= j < |list| ==> Less(g, list[j])
    {
      next := next[i := next[i - 1]][i - 1 := next[i]];
      i := i - 1;
      at := i;
    }
    forall a, b | 0 <= a < b < |next|
      ensures !Less(next[b], next[a])
    {
      var la := if a < i then a else a - 1;
      var lb := if b < i then b else b - 1;
      if a != i && b != i { assert next[a] == list[la] && next[b] == list[lb]; }
      else if b == i { if a < i - 1 { assert !Less(list[i - 1], list[a]); } }
    }
  }

  /** In a sorted list of disjoint groups the ends grow, truncated or not. */
  lemma EndsGrow(list: seq<Group>, i: nat, j: nat)
    requires Sorted(list) && AllDisjoint(list) && i < j < |list|
    ensures list[i].end <= list[j].start
  {
    assert Disjoint(list[i], list[j]) && Proper(list[i]) && Proper(list[j]);
    assert !Less(list[j], list[i]);
  }

  /** sort.Search for the first group ending after t. */
  function Search(list: seq<Group>, t: int, i: nat, j: nat): (k: nat)
    requires i <= j <= |list|
    ensures i <= k <= j
    decreases j - i
  {
    if i >= j then i
    else
      var m := (i + j) / 2;
      if list[m].end > t then Search(list, t, i, m) else Search(list, t, m + 1, j)
  }

  /** sgList.ShardGroupAt: one search, then one check of the start of what it found. */
  function Candidate(list: seq<Group>, t: int): (r: Option<Group>)
  {
    var k := Search(list, t, 0, |list|);
    if k == |list| || t < list[k].start then None else Some(list[k])
  }

  method ShardGroupAt(list: seq<Group>, t: int) returns (r: Option<Group>)
    ensures r == Candidate(list, t)
  {
    var i, j := 0, |list|;
    while i < j
      invariant 0 <= i <= j <= |list| && Search(list, t, i, j) == Search(list, t, 0, |list|)
    {
      var m := (i + j) / 2;
      if list[m].end > t {
        j := m;
      } else {
        i := m + 1;
      }
    }
    if i == |list| || t < list[i].start {
      return None;
    }
    return Some(list[i]);
  }

  predicate EndsAscend(list: seq<Group>) { forall i, j :: 0 <= i < j < |list| ==> list[i].end <= list[j].end }

  lemma {:induction false} SearchSplits(list: seq<Group>, t: int, i: nat, j: nat)
    requires EndsAscend(list) && i <= j <= |list|
    requires forall k :: 0 <= k < i ==> list[k].end <= t
    requires j < |list| ==> list[j].end > t
    ensures var s := Search(list, t, i, j);
      (forall k :: 0 <= k < s ==> list[k].end <= t) && (s < |list| ==> list[s].end > t)
    decreases j - i
  {
    if i < j {
      var m := (i + j) / 2;
      assert i <= m < j;
      if list[m].end > t {
        SearchSplits(list, t, i, m);
      } else {
        SearchSplits(list, t, m + 1, j);
      }
    }
  }

  /** On disjoint groups the search is right: it finds the group that contains t if there is one. */
  lemma SearchFindsGroup(list: seq<Group>, t: int)
    requires Sorted(list) && AllDisjoint(list)
    ensures Candidate(list, t) == GroupAt(list, t)
  {
    forall i, j | 0 <= i < j < |list| ensures list[i].end <= list[j].end {
      EndsGrow(list, i, j);
      assert Proper(list[j]);
    }
    SearchSplits(list, t, 0, |list|);
    FirstGroupCovers(list, t, Search(list, t, 0, |list|));
  }

  /** With overlapping groups the single candidate can be the wrong one: a covered time is not found. */
  lemma OverlapIsMissed()
    ensures var wide, narrow := Group(0, 10, None, [Shard(1, 1)]), Group(5, 8, None, [Shard(2, 1)]);
      Sorted([narrow, wide]) && Contains(wide, 3) && Candidate([narrow, wide], 3) == None
  {
    var wide, narrow := Group(0, 10, None, [Shard(1, 1)]), Group(5, 8, None, [Shard(2, 1)]);
    assert Search([narrow, wide], 3, 0, 2) == Search([narrow, wide], 3, 0, 1) == Search([narrow, wide], 3, 0, 0);
  }

  lemma UntruncatedEndsAscend(list: seq<Group>)
    requires Sorted(list) && forall i :: 0 <= i < |list| ==> list[i].truncatedAt.None?
    ensures EndsAscend(list)
  {
    forall i, j | 0 <= i < j < |list| ensures list[i].end <= list[j].end { assert !Less(list[j], list[i]); }
  }

  /** Where a group starts before one that is sorted in front of it, the group in front has no gap before it. */
  predicate NothingHidden(list: seq<Group>)
  {
    forall i, j :: 0 <= i < j < |list| && list[j].start < list[i].start ==> i > 0 && list[i - 1].end >= list[i].start
  }

  lemma CandidateCovers(list: seq<Group>, t: int)
    requires EndsAscend(list)
    ensures Candidate(list, t).Some? ==> Covered(list, t)
  {
    SearchSplits(list, t, 0, |list|);
    var s := Search(list, t, 0, |list|);
    if Candidate(list, t).Some? { assert Contains(list[s], t); }
  }

  lemma CoveredIsFound(list: seq<Group>, t: int)
    requires EndsAscend(list) && NothingHidden(list) && Covered(list, t)
    ensures Candidate(list, t).Some?
  {
    hide Search;
    var k :| 0 <= k < |list| && Contains(list[k], t);
    SearchSplits(list, t, 0, |list|);
    var s := Search(list, t, 0, |list|);
    assert s <= k;
    if s > 0 { assert list[s - 1].end <= t; }
  }

  lemma HiddenIsMissed(list: seq<Group>, i: nat, j: nat)
    requires EndsAscend(list) && i < j < |list| && list[i].start < list[i].end && list[j].start < list[i].start
    requires i == 0 || list[i - 1].end < list[i].start
    ensures var t := list[i].start - 1; Covered(list, t) && Candidate(list, t).None?
  {
    hide Search;
    var t := list[i].start - 1;
    SearchSplits(list, t, 0, |list|);
    var s := Search(list, t, 0, |list|);
    assert s <= i;
    if i > 0 { assert list[i - 1].end <= t; }
    assert Contains(list[j], t);
  }

  /** In a sorted list of groups that are not truncated, overlap is harmless exactly when nothing is hidden: then
      every covered time has its candidate. */
  lemma UntruncatedIsExact(list: seq<Group>)
    requires Sorted(list) && forall i :: 0 <= i < |list| ==> list[i].start < list[i].end && list[i].truncatedAt.None?
    ensures (forall t :: Candidate(list, t).Some? <==> Covered(list, t)) <==> NothingHidden(list)
  {
    hide Candidate, Covered, EndsAscend, Sorted;
    UntruncatedEndsAscend(list);
    if NothingHidden(list) {
      forall t ensures Candidate(list, t).Some? <==> Covered(list, t) {
        CandidateCovers(list, t);
        if Covered(list, t) { CoveredIsFound(list, t); }
      }
    } else {
      var i, j :| 0 <= i < j < |list| && list[j].start < list[i].start && !(i > 0 && list[i - 1].end >= list[i].start);
      HiddenIsMissed(list, i, j);
    }
  }

  // The probes of a search that ends at k are the same for every time that leads there, and so are the groups with
  // their ends on either side of it.

  /** The greatest of lo and the ends of the groups probed before k: these ended by then. */
  function Lower(list: seq<Group>, k: nat, lo: int, i: nat, j: nat): int
    requires i <= j <= |list|
    decreases j - i
  {
    if i >= j then lo
    else
      var m := (i + j) / 2;
      if k <= m then Lower(list, k, lo, i, m) else Lower(list, k, Max(lo, list[m].end), m + 1, j)
  }

  /** The least of hi and the ends of the groups probed at or after k: these ended later. */
  function Upper(list: seq<Group>, k: nat, hi: int, i: nat, j: nat): int
    requires i <= j <= |list|
    decreases j - i
  {
    if i >= j then hi
    else
      var m := (i + j) / 2;
      if k <= m then Upper(list, k, Min(hi, list[m].end), i, m) else Upper(list, k, hi, m + 1, j)
  }

  /** The times from lo on and before hi that lead to k. */
  lemma {:induction false} LeadsTo(list: seq<Group>, t: int, k: nat, lo: int, hi: int, i: nat, j: nat)
    requires i <= k <= j <= |list|
    ensures lo <= t < hi && Search(list, t, i, j) == k <==> Lower(list, k, lo, i, j) <= t < Upper(list, k, hi, i, j)
    decreases j - i
  {
    if i < j {
      var m := (i + j) / 2;
      if k <= m {
        LeadsTo(list, t, k, lo, Min(hi, list[m].end), i, m);
      } else {
        LeadsTo(list, t, k, Max(lo, list[m].end), hi, m + 1, j);
      }
    }
  }

  /** What the search ends at, if anything, has not ended. */
  lemma {:induction false} FoundEndsLater(list: seq<Group>, t: int, i: nat, j: nat)
    requires i <= j <= |list| && (j < |list| ==> list[j].end > t)
    ensures var s := Search(list, t, i, j); s < |list| ==> list[s].end > t
    decreases j - i
  {
    if i < j {
      var m := (i + j) / 2;
      if list[m].end > t { FoundEndsLater(list, t, i, m); } else { FoundEndsLater(list, t, m + 1, j); }
    }
  }

  /** Times of the group g before this are lost if they lead to k: the group there starts later, or there is none. */
  function LostBefore(list: seq<Group>, g: nat, k: nat): int
    requires g < |list| && k <= |list|
  {
    if k < |list| then Min(list[g].end, list[k].start) else list[g].end
  }

  predicate NothingLost(list: seq<Group>)
  {
    forall g: nat, k: nat :: g < |list| && k <= |list| ==>
      Lower(list, k, list[g].start, 0, |list|) >= Upper(list, k, LostBefore(list, g, k), 0, |list|)
  }

  lemma LostIsMissed(list: seq<Group>, g: nat, k: nat)
    requires g < |list| && k <= |list|
    requires Lower(list, k, list[g].start, 0, |list|) < Upper(list, k, LostBefore(list, g, k), 0, |list|)
    ensures var t := Lower(list, k, list[g].start, 0, |list|); Covered(list, t) && Candidate(list, t).None?
  {
    hide Lower, Upper, Search;
    var t := Lower(list, k, list[g].start, 0, |list|);
    LeadsTo(list, t, k, list[g].start, LostBefore(list, g, k), 0, |list|);
    assert Contains(list[g], t);
  }

  lemma CoveredIsNotLost(list: seq<Group>, t: int, g: nat)
    requires NothingLost(list) && g < |list| && Contains(list[g], t)
    ensures Candidate(list, t).Some?
  {
    hide Lower, Upper, Search;
    var k := Search(list, t, 0, |list|);
    LeadsTo(list, t, k, list[g].start, LostBefore(list, g, k), 0, |list|);
  }

  /** Every covered time has its candidate, and no other time has one, exactly when no time of a group leads the search
      to an end that loses it.  That is so for any list: overlapping, truncated or out of order. */
  lemma SearchIsExact(list: seq<Group>)
    ensures (forall t :: Candidate(list, t).Some? <==> Covered(list, t)) <==> NothingLost(list)
  {
    hide Lower, Upper, Search, LostBefore;
    if NothingLost(list) {
      forall t ensures Candidate(list, t).Some? <==> Covered(list, t) {
        FoundEndsLater(list, t, 0, |list|);
        if Candidate(list, t).Some? { assert Contains(list[Search(list, t, 0, |list|)], t); }
        if Covered(list, t) {
          var g: nat :| g < |list| && Contains(list[g], t);
          CoveredIsNotLost(list, t, g);
        }
      }
    } else {
      var g: nat, k: nat :| g < |list| && k <= |list| &&
        Lower(list, k, list[g].start, 0, |list|) < Upper(list, k, LostBefore(list, g, k), 0, |list|);
      LostIsMissed(list, g, k);
    }
  }

  /** The first group of the list that contains t. */
  function GroupAt(list: seq<Group>, t: int): (r: Option<Group>)
    ensures r.Some? ==> r.value in list && Contains(r.value, t)
    ensures r.None? ==> forall g :: g in list ==> !Contains(g, t)
  {
    if list == [] then None
    else if Contains(list[0], t) then Some(list[0])
    else GroupAt(list[1..], t)
  }

  lemma AtMostOneContains(list: seq<Group>, i: nat, t: int)
    requires AllDisjoint(list) && i < |list| && Contains(list[i], t)
    ensures GroupAt(list, t) == Some(list[i])
  {
    var g := GroupAt(list, t).value;
    var j :| 0 <= j < |list| && list[j] == g;
  }

  lemma FirstGroupCovers(list: seq<Group>, t: int, i: nat)
    requires Sorted(list) && AllDisjoint(list) && i <= |list|
    requires forall k :: 0 <= k < i ==> list[k].end <= t
    requires i < |list| ==> list[i].end > t
    ensures GroupAt(list, t) == if i == |list| || t < list[i].start then None else Some(list[i])
  {
    if i < |list| && list[i].start <= t {
      AtMostOneContains(list, i, t);
    } else {
      forall k | 0 <= k < |list|
        ensures !Contains(list[k], t)
      {
        if k > i { EndsGrow(list, i, k); assert Proper(list[i]); }
      }
    }
  }

  // ---- the mapping -------------------------------------------------------------------------------------

  /** A Go slice: its elements and its capacity. */
  datatype Slice = Slice(elems: seq<Point>, cap: nat)

  function Elems(points: map<nat, Slice>, id: nat): seq<Point> { if id in points then points[id].elems else [] }

  class ShardMapping {
    const n: nat
    var points: map<nat, Slice>
    var shards: map<nat, Shard>
    var dropped: seq<Point>

    /** Every slice has the capacity MapPoint asks for, so MapPoint never throws one away. */
    ghost predicate Valid()
      reads this
    {
      && points.Keys == shards.Keys
      && forall id :: id in points ==> points[id].cap >= n && |points[id].elems| <= points[id].cap && points[id].elems != []
    }

    constructor (n: nat)
      ensures Valid() && this.n == n && points == map[] && shards == map[] && dropped == []
    {
      this.n := n;
      points, shards, dropped := map[], map[], [];
    }

    /** MapPoint allocates when the capacity is short; no mapped point is lost by that. */
    method MapPoint(sh: Shard, p: Point)
      requires Valid()
      modifies this`points, this`shards
      ensures Valid()
      ensures shards == old(shards)[sh.id := sh]
      ensures forall id :: Elems(points, id) == Elems(old(points), id) + if id == sh.id then [p] else []
    {
      var s := if sh.id in points then points[sh.id] else Slice([], 0);
      if s.cap < n {
        s := Slice([], n);
      }
      var cap := if |s.elems| < s.cap then s.cap else 2 * s.cap + 1;
      points := points[sh.id := Slice(s.elems + [p], cap)];
      shards := shards[sh.id := sh];
    }
  }

  /** ShardFor */
  function ShardFor(g: Group, hash: nat): Shard
    requires g.shards != []
  {
    g.shards[hash % |g.shards|]
  }

  /** Where a point goes, by the only group that contains its time. */
  function ShardOf(list: seq<Group>, p: Point): Option<Shard>
    requires AllDisjoint(list)
  {
    match GroupAt(list, p.time)
    case None => None
    case Some(g) => assert Proper(g); Some(ShardFor(g, p.hash))
  }

  /** Going round the n shards of a group, the hash stops at the i-th. */
  ghost predicate InTurn(hash: nat, n: nat, i: nat) { exists q: nat :: hash == q * n + i }

  ghost predicate IsShardOf(list: seq<Group>, p: Point, sh: Shard, k: nat, i: nat)
  {
    && k < |list| && Contains(list[k], p.time)
    && i < |list[k].shards| && InTurn(p.hash, |list[k].shards|, i) && list[k].shards[i] == sh
  }

  /** A point's shard is the one its hash stops at, of a group that contains its time. */
  lemma ShardOfIs(list: seq<Group>, p: Point, sh: Shard)
    requires AllDisjoint(list)
    ensures ShardOf(list, p) == Some(sh) <==> exists k: nat, i: nat :: IsShardOf(list, p, sh, k, i)
  {
    if ShardOf(list, p) == Some(sh) {
      var g := GroupAt(list, p.time).value;
      var k :| 0 <= k < |list| && list[k] == g;
      var n := |g.shards|;
      assert p.hash == p.hash / n * n + p.hash % n;
      assert IsShardOf(list, p, sh, k, p.hash % n);
    }
    forall k: nat, i: nat | IsShardOf(list, p, sh, k, i)
      ensures ShardOf(list, p) == Some(sh)
    {
      AtMostOneContains(list, k, p.time);
      var q: nat :| p.hash == q * |list[k].shards| + i;
      ModUnique(p.hash, |list[k].shards|, q, i);
    }
  }

  /** The points that go to a shard, or to none, in their order. */
  function Going(list: seq<Group>, points: seq<Point>, target: Option<nat>): seq<Point>
    requires AllDisjoint(list)
  {
    if points == [] then []
    else
      var p := points[|points| - 1];
      Going(list, points[..|points| - 1], target) + if Target(list, p) == target then [p] else []
  }

  function Target(list: seq<Group>, p: Point): Option<nat>
    requires AllDisjoint(list)
  {
    match ShardOf(list, p) case None => None case Some(sh) => Some(sh.id)
  }

  lemma GoingNext(list: seq<Group>, points: seq<Point>, i: nat)
    requires AllDisjoint(list) && i < |points|
    ensures forall target :: Going(list, points[..i + 1], target)
                          == Going(list, points[..i], target) + if Target(list, points[i]) == target then [points[i]] else []
  {
    assert points[..i + 1][..i] == points[..i] && points[..i + 1][i] == points[i];
  }

  /** Nothing is lost and nothing is duplicated: every occurrence of a point goes to its one target. */
  lemma {:induction false} EveryPointGoesOnce(list: seq<Group>, points: seq<Point>, p: Point, target: Option<nat>)
    requires AllDisjoint(list)
    ensures multiset(Going(list, points, target))[p] == if Target(list, p) == target then multiset(points)[p] else 0
    decreases |points|
  {
    hide AllDisjoint, Target;
    if points != [] {
      var n := |points| - 1;
      assert points == points[..n] + [points[n]];
      EveryPointGoesOnce(list, points[..n], p, target);
    }
  }

  lemma GoesToItsTarget(list: seq<Group>, points: seq<Point>, i: nat)
    requires AllDisjoint(list) && i < |points|
    ensures points[i] in Going(list, points, Target(list, points[i]))
  {
    var p := points[i];
    EveryPointGoesOnce(list, points, p, Target(list, p));
    assert p in multiset(points);
    assert p in multiset(Going(list, points, Target(list, p)));
  }

  lemma GoingNone(list: seq<Group>, points: seq<Point>)
    requires AllDisjoint(list)
    ensures forall target :: Going(list, points[..0], target) == []
  {
  }

  // ---- creating groups -------------------------------------------------------------------------------------

  datatype Created = Refused(code: nat) | NilGroup | Got(group: Group)

  /** What MapShards may assume of CreateShardGroup, asked for the i-th time: the group contains the
      time it was asked for, two answers are the same group or do not overlap, and an id names one shard. */
  ghost predicate Trustworthy(create: (nat, int) -> Created)
  {
    && (forall i, t :: create(i, t).Got? ==> Proper(create(i, t).group) && Contains(create(i, t).group, t))
    && forall i, t, j, u :: create(i, t).Got? && create(j, u).Got? ==>
         && (create(i, t).group == create(j, u).group || Disjoint(create(i, t).group, create(j, u).group))
         && SameShards(create(i, t).group, create(j, u).group)
  }

  /** Groups of a fixed length, each with a shard of its own, are such groups. */
  lemma FixedGroupsAreTrustworthy(length: nat, owners: nat)
    requires length > 0
    ensures Trustworthy((call: nat, t: int) => Got(FixedGroup(length, owners, t)))
  {
    var create := (call: nat, t: int) => Got(FixedGroup(length, owners, t));
    forall t ensures Proper(FixedGroup(length, owners, t)) && Contains(FixedGroup(length, owners, t), t) {
      var k := t / length;
      assert t == length * k + t % length && length * (k + 1) == length * k + length;
    }
    forall t, u
      ensures FixedGroup(length, owners, t) == FixedGroup(length, owners, u) || Disjoint(FixedGroup(length, owners, t), FixedGroup(length, owners, u))
    {
      var k, l := t / length, u / length;
      if k < l { MultiplesApart(length, k, l); }
      if l < k { MultiplesApart(length, l, k); }
    }
  }

  function FixedGroup(length: nat, owners: nat, t: int): Group
    requires length > 0
  {
    var k := t / length;
    Group(length * k, length * (k + 1), None, [Shard(if k >= 0 then 2 * k else -2 * k - 1, owners)])
  }

  lemma MultiplesApart(d: nat, k: int, l: int)
    requires k < l
    ensures d * (k + 1) <= d * l
  {
    assert d * l == d * (k + 1) + d * (l - k - 1);
  }

  /** Shards of the same id are the same shard. */
  predicate SameShards(g: Group, g': Group)
  {
    forall i, j :: 0 <= i < |g.shards| && 0 <= j < |g'.shards| && g.shards[i].id == g'.shards[j].id ==> g.shards[i] == g'.shards[j]
  }

  predicate ShardsAgree(list: seq<Group>) { forall i, j :: 0 <= i < |list| && 0 <= j < |list| ==> SameShards(list[i], list[j]) }

  datatype MapError = NoRetentionPolicy | CreateFailed(code: nat) | NoGroup

  /** No group was had for the i-th point, the first inside the retention bound that those of the list do not cover;
      for each of these one call was made. */
  ghost predicate FailedAt(create: (nat, int) -> Created, points: seq<Point>, min: int, list: seq<Group>, i: nat, err: MapError)
  {
    && i < |points| && points[i].time >= min && !Covered(list, points[i].time)
    && (forall j :: 0 <= j < i && points[j].time >= min ==> Covered(list, points[j].time))
    && match create(|list|, points[i].time)
       case Refused(code) => err == CreateFailed(code)
       case NilGroup => err == NoGroup
       case Got(_) => false
  }

  ghost predicate NotCreated(create: (nat, int) -> Created, points: seq<Point>, min: int, list: seq<Group>, err: MapError)
  {
    exists i: nat :: FailedAt(create, points, min, list, i, err)
  }

  /** The group was the answer to one of the first n calls, for a point inside the retention bound. */
  ghost predicate Asked(g: Group, create: (nat, int) -> Created, points: seq<Point>, min: int, n: nat)
  {
    exists i, call: nat :: 0 <= i < |points| && call < n && points[i].time >= min && create(call, points[i].time) == Got(g)
  }

  ghost predicate AllAsked(list: seq<Group>, create: (nat, int) -> Created, points: seq<Point>, min: int)
  {
    forall k :: 0 <= k < |list| ==> Asked(list[k], create, points, min, |list|)
  }

  /** The group contains the time of a point inside the retention bound. */
  ghost predicate Wanted(g: Group, points: seq<Point>, min: int)
  {
    exists i :: 0 <= i < |points| && points[i].time >= min && Contains(g, points[i].time)
  }

  ghost predicate AllWanted(list: seq<Group>, points: seq<Point>, min: int)
  {
    forall k :: 0 <= k < |list| ==> Wanted(list[k], points, min)
  }

  lemma AskedAreWanted(list: seq<Group>, create: (nat, int) -> Created, points: seq<Point>, min: int)
    requires Trustworthy(create) && AllAsked(list, create, points, min)
    ensures AllWanted(list, points, min) && FromCreate(list, create)
  {
    hide Contains, Disjoint, SameShards, Proper;
    forall k | 0 <= k < |list|
      ensures Wanted(list[k], points, min) && Came(list[k], create)
    {
      assert Asked(list[k], create, points, min, |list|);
      var i, call: nat :| 0 <= i < |points| && points[i].time >= min && create(call, points[i].time) == Got(list[k]);
      assert Contains(list[k], points[i].time);
    }
  }

  lemma OneMoreAsked(list: seq<Group>, g: Group, at: nat, create: (nat, int) -> Created, points: seq<Point>, min: int, i: nat)
    requires AllAsked(list, create, points, min) && at <= |list|
    requires i < |points| && points[i].time >= min && create(|list|, points[i].time) == Got(g)
    ensures AllAsked(list[..at] + [g] + list[at..], create, points, min)
  {
    var next := list[..at] + [g] + list[at..];
    assert Asked(g, create, points, min, |next|);
    forall k | 0 <= k < |next|
      ensures Asked(next[k], create, points, min, |next|)
    {
      assert next[k] == if k < at then list[k] else if k == at then g else list[k - 1];
      if k != at { assert Asked(next[k], create, points, min, |list|); }
    }
  }

  /** First pass: a list of disjoint groups that covers every point inside the retention bound, each of them for one. */
  method GroupsFor(points: seq<Point>, min: int, create: (nat, int) -> Created) returns (err: Option<MapError>, list: seq<Group>)
    requires Trustworthy(create)
    ensures err.None? ==> Sorted(list) && AllDisjoint(list) && ShardsAgree(list)
    ensures err.None? ==> forall i :: 0 <= i < |points| && points[i].time >= min ==> GroupAt(list, points[i].time).Some?
    ensures AllAsked(list, create, points, min) && AllWanted(list, points, min)
    ensures err.Some? ==> NotCreated(create, points, min, list, err.value)
  {
    hide Asked, Wanted, AllAsked, Came;
    list := [];
    var calls := 0;
    assert AllAsked(list, create, points, min) by { NothingAsked(create, points, min); }
    for i := 0 to |points|
      invariant Sorted(list) && AllDisjoint(list) && AllAsked(list, create, points, min) && calls == |list|
      invariant forall k :: 0 <= k < i && points[k].time >= min ==> Covered(list, points[k].time)
    {
      AskedAreWanted(list, create, points, min);
      var t := points[i].time;
      var at := ShardGroupAt(list, t);
      SearchFindsGroup(list, t);
      if at.Some? { assert Covered(list, t); }
      if t < min || at.Some? {
        continue;
      }
      var c := create(calls, t);
      if c.Refused? {
        assert FailedAt(create, points, min, list, i, CreateFailed(c.code));
        return Some(CreateFailed(c.code)), list;
      }
      if c.NilGroup? {
        assert FailedAt(create, points, min, list, i, NoGroup);
        return Some(NoGroup), list;
      }
      ghost var before := list;
      ghost var pos;
      list, pos := Append(list, c.group);
      assert Came(c.group, create) by { GroupCame(create, calls, t); }
      OneMoreAsked(before, c.group, pos, create, points, min, i);
      NewGroupIsDisjoint(before, create, calls, t);
      InsertedIsDisjoint(before, c.group, pos);
      StillCovered(before, c.group, pos, create);
      calls := calls + 1;
    }
    forall i | 0 <= i < |points| && points[i].time >= min
      ensures GroupAt(list, points[i].time).Some?
    {
      assert Covered(list, points[i].time);
    }
    AskedAreWanted(list, create, points, min);
    CreatedShardsAgree(list, create);
    return None, list;
  }

  lemma NothingAsked(create: (nat, int) -> Created, points: seq<Point>, min: int)
    ensures AllAsked([], create, points, min)
  {
  }

  lemma GroupCame(create: (nat, int) -> Created, call: nat, t: int)
    requires create(call, t).Got?
    ensures Came(create(call, t).group, create)
  {
  }

  lemma CreatedShardsAgree(list: seq<Group>, create: (nat, int) -> Created)
    requires Trustworthy(create) && FromCreate(list, create)
    ensures ShardsAgree(list)
  {
    hide SameShards, Disjoint, Proper, Contains;
    forall i, j | 0 <= i < |list| && 0 <= j < |list|
      ensures SameShards(list[i], list[j])
    {
      assert Came(list[i], create) && Came(list[j], create);
      var a, t :| create(a, t) == Got(list[i]);
      var b, u :| create(b, u) == Got(list[j]);
    }
  }

  /** Points that lead to the same id lead to the same shard. */
  lemma OneShardPerId(list: seq<Group>, p: Point, q: Point)
    requires AllDisjoint(list) && ShardsAgree(list) && ShardOf(list, p).Some? && ShardOf(list, q).Some?
    requires ShardOf(list, p).value.id == ShardOf(list, q).value.id
    ensures ShardOf(list, p) == ShardOf(list, q)
  {
    hide GroupAt;
    var g, g' := GroupAt(list, p.time).value, GroupAt(list, q.time).value;
    var i :| 0 <= i < |list| && list[i] == g;
    var j :| 0 <= j < |list| && list[j] == g';
    assert SameShards(list[i], list[j]);
  }

  ghost predicate FromCreate(list: seq<Group>, create: (nat, int) -> Created)
  {
    forall k :: 0 <= k < |list| ==> Came(list[k], create)
  }

  ghost predicate Came(g: Group, create: (nat, int) -> Created)
  {
    exists i, t :: create(i, t) == Got(g)
  }

  ghost predicate Covered(list: seq<Group>, t: int) { exists k :: 0 <= k < |list| && Contains(list[k], t) }

  /** A new group does not overlap the groups of a list that does not contain its time. */
  lemma NewGroupIsDisjoint(list: seq<Group>, create: (nat, int) -> Created, call: nat, t: int)
    requires Trustworthy(create) && FromCreate(list, create)
    requires create(call, t).Got? && GroupAt(list, t).None?
    ensures forall k :: 0 <= k < |list| ==> Disjoint(list[k], create(call, t).group)
  {
    hide GroupAt, Disjoint;
    forall k | 0 <= k < |list|
      ensures Disjoint(list[k], create(call, t).group)
    {
      assert Came(list[k], create);
      var i, u :| create(i, u) == Got(list[k]);
      assert !Contains(list[k], t);
    }
  }

  lemma InsertedIsDisjoint(list: seq<Group>, g: Group, at: nat)
    requires AllDisjoint(list) && Proper(g) && at <= |list|
    requires forall k :: 0 <= k < |list| ==> Disjoint(list[k], g)
    ensures AllDisjoint(list[..at] + [g] + list[at..])
  {
    hide Proper;
    var next := list[..at] + [g] + list[at..];
    forall k | 0 <= k < |next|
      ensures Proper(next[k])
    {
      assert next[k] == if k < at then list[k] else if k == at then g else list[k - 1];
    }
    forall a, b | 0 <= a < b < |next|
      ensures Disjoint(next[a], next[b])
    {
      assert next[a] == if a < at then list[a] else if a == at then g else list[a - 1];
      assert next[b] == if b < at then list[b] else if b == at then g else list[b - 1];
    }
  }

  lemma StillCovered(list: seq<Group>, g: Group, at: nat, create: (nat, int) -> Created)
    requires at <= |list| && FromCreate(list, create) && Came(g, create)
    ensures var next := list[..at] + [g] + list[at..];
      FromCreate(next, create) && forall u :: Covered(list, u) || Contains(g, u) ==> Covered(next, u)
  {
    hide Came, Contains;
    var next := list[..at] + [g] + list[at..];
    forall k | 0 <= k < |next|
      ensures Came(next[k], create)
    {
      assert next[k] == if k < at then list[k] else if k == at then g else list[k - 1];
    }
    forall u | Covered(list, u) || Contains(g, u)
      ensures Covered(next, u)
    {
      if Contains(g, u) {
        assert Contains(next[at], u);
      } else {
        var k :| 0 <= k < |list| && Contains(list[k], u);
        assert Contains(next[if k < at then k else k + 1], u);
      }
    }
  }

  /** The shard stands under its id. */
  predicate Registered(shards: map<nat, Shard>, sh: Shard) { sh.id in shards && shards[sh.id] == sh }

  lemma PlaceOf(list: seq<Group>, p: Point)
    requires AllDisjoint(list)
    ensures ShardOf(list, p).Some? <==> GroupAt(list, p.time).Some?
    ensures GroupAt(list, p.time).Some? ==>
      Proper(GroupAt(list, p.time).value) && ShardOf(list, p) == Some(ShardFor(GroupAt(list, p.time).value, p.hash))
  {
  }

  /** Exactly the points older than the retention bound that no group made for another point happens to contain. */
  ghost predicate DroppedOnlyExpired(list: seq<Group>, points: seq<Point>, min: int, dropped: seq<Point>)
  {
    && AllWanted(list, points, min)
    && forall p :: p in dropped <==> p in points && p.time < min && !Covered(list, p.time)
  }

  lemma DroppedAreExpired(list: seq<Group>, points: seq<Point>, min: int, dropped: seq<Point>)
    requires AllDisjoint(list) && AllWanted(list, points, min) && dropped == Going(list, points, None)
    requires forall i :: 0 <= i < |points| && points[i].time >= min ==> GroupAt(list, points[i].time).Some?
    ensures DroppedOnlyExpired(list, points, min, dropped)
  {
    hide AllDisjoint, Going, AllWanted;
    forall p
      ensures p in dropped <==> p in points && p.time < min && !Covered(list, p.time)
    {
      EveryPointGoesOnce(list, points, p, None);
      assert p in dropped <==> p in multiset(dropped);
      assert p in points <==> p in multiset(points);
      NoneCovers(list, p);
    }
  }

  lemma NoneCovers(list: seq<Group>, p: Point)
    requires AllDisjoint(list)
    ensures Target(list, p).None? <==> !Covered(list, p.time)
    ensures GroupAt(list, p.time).Some? <==> Covered(list, p.time)
  {
    if GroupAt(list, p.time).Some? {
      var k :| 0 <= k < |list| && list[k] == GroupAt(list, p.time).value;
    }
  }

  /** MapShards: every point is in the list of exactly one shard or in Dropped, in order; dropped are exactly the points
      older than the retention bound that no group made for another point contains; a mapped point's shard, of the group
      containing its time, stands under its id in Shards, and nothing else stands there. */
  method MapShards(points: seq<Point>, min: int, create: (nat, int) -> Created)
    returns (err: Option<MapError>, m: ShardMapping, list: seq<Group>)
    requires Trustworthy(create)
    ensures fresh(m) && m.Valid()
    ensures err.Some? ==> NotCreated(create, points, min, list, err.value)
    ensures AllAsked(list, create, points, min)
    ensures err.None? ==>
      && Sorted(list) && AllDisjoint(list) && DroppedOnlyExpired(list, points, min, m.dropped)
      && (forall id :: Elems(m.points, id) == Going(list, points, Some(id)))
      && m.dropped == Going(list, points, None)
      && (forall p :: p in m.dropped ==> p.time < min)
      && (forall i :: 0 <= i < |points| && ShardOf(list, points[i]).Some? ==> Registered(m.shards, ShardOf(list, points[i]).value))
      && (forall id :: id in m.shards ==> exists i :: 0 <= i < |points| && ShardOf(list, points[i]) == Some(m.shards[id]))
  {
    hide Sorted, AllDisjoint, GroupAt, Candidate, Trustworthy, ShardFor, ShardOf, ShardsAgree, Mapped, NotCreated, AllAsked, AllWanted, DroppedOnlyExpired;
    err, list := GroupsFor(points, min, create);
    m := new ShardMapping(|points|);
    if err.Some? {
      return;
    }
    NothingMapped(list, points, min);
    for i := 0 to |points|
      invariant fresh(m) && m.Valid()
      invariant Mapped(list, points, i, min, m.points, m.shards, m.dropped)
    {
      var p := points[i];
      PlaceOf(list, p);
      var g := ShardGroupAt(list, p.time);
      SearchFindsGroup(list, p.time);
      if g.None? {
        DropOne(list, points, i, min, m.points, m.shards, m.dropped);
        m.dropped := m.dropped + [p];
        continue;
      }
      ghost var slices, shards := m.points, m.shards;
      m.MapPoint(ShardFor(g.value, p.hash), p);
      MapOne(list, points, i, min, slices, shards, m.dropped, m.points);
    }
    AllMapped(list, points, min, m.points, m.shards, m.dropped);
    DroppedAreExpired(list, points, min, m.dropped);
  }

  /** The state of the second loop after i points. */
  ghost predicate Mapped(list: seq<Group>, points: seq<Point>, i: nat, min: int,
                         slices: map<nat, Slice>, shards: map<nat, Shard>, dropped: seq<Point>)
    requires AllDisjoint(list)
  {
    && i <= |points|
    && (forall id :: Elems(slices, id) == Going(list, points[..i], Some(id)))
    && dropped == Going(list, points[..i], None)
    && (forall p :: p in dropped ==> p.time < min)
    && (forall k :: 0 <= k < i && ShardOf(list, points[k]).Some? ==> Registered(shards, ShardOf(list, points[k]).value))
    && forall id :: id in shards ==> exists k :: 0 <= k < i && ShardOf(list, points[k]) == Some(shards[id])
  }

  lemma NothingMapped(list: seq<Group>, points: seq<Point>, min: int)
    requires AllDisjoint(list)
    ensures Mapped(list, points, 0, min, map[], map[], [])
  {
    hide AllDisjoint, ShardOf;
    GoingNone(list, points);
  }

  lemma AllMapped(list: seq<Group>, points: seq<Point>, min: int, slices: map<nat, Slice>, shards: map<nat, Shard>, dropped: seq<Point>)
    requires AllDisjoint(list) && Mapped(list, points, |points|, min, slices, shards, dropped)
    ensures forall id :: Elems(slices, id) == Going(list, points, Some(id))
    ensures dropped == Going(list, points, None) && forall p :: p in dropped ==> p.time < min
    ensures forall i :: 0 <= i < |points| && ShardOf(list, points[i]).Some? ==> Registered(shards, ShardOf(list, points[i]).value)
    ensures forall id :: id in shards ==> exists i :: 0 <= i < |points| && ShardOf(list, points[i]) == Some(shards[id])
  {
    hide AllDisjoint, ShardOf, Going, Registered;
    assert points[..|points|] == points;
  }

  lemma DropOne(list: seq<Group>, points: seq<Point>, i: nat, min: int,
                slices: map<nat, Slice>, shards: map<nat, Shard>, dropped: seq<Point>)
    requires AllDisjoint(list) && Mapped(list, points, i, min, slices, shards, dropped)
    requires i < |points| && ShardOf(list, points[i]).None? && points[i].time < min
    ensures Mapped(list, points, i + 1, min, slices, shards, dropped + [points[i]])
  {
    hide AllDisjoint, ShardOf, Going, Registered;
    GoingNext(list, points, i);
  }

  lemma MapOne(list: seq<Group>, points: seq<Point>, i: nat, min: int,
               slices: map<nat, Slice>, shards: map<nat, Shard>, dropped: seq<Point>, slices': map<nat, Slice>)
    requires AllDisjoint(list) && ShardsAgree(list) && Mapped(list, points, i, min, slices, shards, dropped)
    requires i < |points| && ShardOf(list, points[i]).Some?
    requires var sh := ShardOf(list, points[i]).value;
      forall id :: Elems(slices', id) == Elems(slices, id) + if id == sh.id then [points[i]] else []
    ensures var sh := ShardOf(list, points[i]).value;
      Mapped(list, points, i + 1, min, slices', shards[sh.id := sh], dropped)
  {
    hide AllDisjoint, ShardOf, Going, ShardsAgree;
    var sh := ShardOf(list, points[i]).value;
    GoingNext(list, points, i);
    forall k | 0 <= k < i && ShardOf(list, points[k]).Some? && ShardOf(list, points[k]).value.id == sh.id
      ensures ShardOf(list, points[k]) == Some(sh)
    {
      OneShardPerId(list, points[k], points[i]);
    }
  }
}
