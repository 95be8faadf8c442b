/** Distributed aggregates (query/call_iterator.go, query/functions.gen.go, query/functions.go,
    query/iterator.go): every shard reduces its own points, and the partial results are reduced
    again, possibly at several levels.  The result is that of one reducer over all points. */
module Aggregation {
  import opened Collections
  import opened Arithmetic
  import opened MergeTree

  /** `aggregated` is 0 for a raw point, else the number of points combined into it. */
  datatype Point = Point(time: int, value: int, aggregated: nat)

  datatype Call = Count | Sum | Min | Max | First | Last

  const ZERO_TIME: int := MIN_INT64

  predicate IsSelector(c: Call) { c.Min? || c.Max? || c.First? || c.Last? }

  // ---- the reduce functions -----------------------------------------------------------------------------

  /** Time and value after one more point: IntegerCountReduce, IntegerSumReduce, IntegerMinReduce,
      IntegerMaxReduce, IntegerFirstReduce and IntegerLastReduce. */
  function ReduceFn(c: Call, prev: Option<Point>, curr: Point): (int, int)
  {
    match c
    case Count => (ZERO_TIME, if prev.None? then 1 else Wrap(prev.value.value + 1))
    case Sum => if prev.None? then (ZERO_TIME, curr.value) else (prev.value.time, Wrap(prev.value.value + curr.value))
    case Min =>
      if prev.None? || curr.value < prev.value.value || (curr.value == prev.value.value && curr.time < prev.value.time)
      then (curr.time, curr.value) else (prev.value.time, prev.value.value)
    case Max =>
      if prev.None? || curr.value > prev.value.value || (curr.value == prev.value.value && curr.time < prev.value.time)
      then (curr.time, curr.value) else (prev.value.time, prev.value.value)
    case First =>
      if prev.None? || curr.time < prev.value.time || (curr.time == prev.value.time && curr.value > prev.value.value)
      then (curr.time, curr.value) else (prev.value.time, prev.value.value)
    case Last =>
      if prev.None? || curr.time > prev.value.time || (curr.time == prev.value.time && curr.value > prev.value.value)
      then (curr.time, curr.value) else (prev.value.time, prev.value.value)
  }

  /** What the reducer holds after one more point. */
  function Step(c: Call, prev: Option<Point>, curr: Point): Point
  {
    var (t, v) := ReduceFn(c, prev, curr);
    var before := if prev.None? then 0 else prev.value.aggregated;
    Point(t, v, before + if curr.aggregated > 1 then curr.aggregated else 1)
  }

  /** Count and sum start from a zero point, the selectors from nothing. */
  function Initial(c: Call): Option<Point>
  {
    if IsSelector(c) then None else Some(Point(ZERO_TIME, 0, 0))
  }

  /** Starting from nothing and starting from the initial point come to the same. */
  lemma StartMakesNoDifference(c: Call, curr: Point)
    requires Fits(curr.value)
    ensures Step(c, None, curr) == Step(c, Initial(c), curr)
  {
    WrapBy(curr.value, 0);
    WrapBy(1, 0);
  }

  function Reduce(c: Call, ps: seq<Point>): Option<Point>
  {
    if ps == [] then Initial(c) else Some(Step(c, Reduce(c, ps[..|ps| - 1]), ps[|ps| - 1]))
  }

  class FuncReducer {
    const call: Call
    var prev: Option<Point>
    ghost var seen: seq<Point>

    ghost predicate Valid()
      reads this
    {
      prev == Reduce(call, seen)
    }

    constructor (call: Call)
      ensures Valid() && this.call == call && seen == []
    {
      this.call := call;
      prev := Initial(call);
      seen := [];
    }

    method Aggregate(p: Point)
      requires Valid()
      modifies this
      ensures Valid() && seen == old(seen) + [p]
    {
      var (t, v) := ReduceFn(call, prev, p);
      var aggregated := if prev.None? then 0 else prev.value.aggregated;
      if p.aggregated > 1 {
        aggregated := aggregated + p.aggregated;
      } else {
        aggregated := aggregated + 1;
      }
      prev := Some(Point(t, v, aggregated));
      assert (seen + [p])[..|seen|] == seen;
      seen := seen + [p];
    }

    /** Emit is only called once a point has been aggregated. */
    method Emit() returns (p: Point)
      requires Valid() && seen != []
      ensures Some(p) == Reduce(call, seen)
    {
      return prev.value;
    }
  }

  // ---- what the answer is, without reducers -------------------------------------------------------------

  function SumOf(ps: seq<Point>): int
  {
    if ps == [] then 0 else SumOf(ps[..|ps| - 1]) + ps[|ps| - 1].value
  }

  /** A selector prefers p to q. */
  predicate Better(c: Call, p: Point, q: Point)
    requires IsSelector(c)
  {
    match c
    case Min => p.value < q.value || (p.value == q.value && p.time < q.time)
    case Max => p.value > q.value || (p.value == q.value && p.time < q.time)
    case First => p.time < q.time || (p.time == q.time && p.value > q.value)
    case Last => p.time > q.time || (p.time == q.time && p.value > q.value)
  }

  predicate SamePlace(p: Point, q: Point) { p.time == q.time && p.value == q.value }

  /** a is the answer of the call over the raw points ps. */
  ghost predicate IsAnswer(c: Call, ps: seq<Point>, a: Point)
  {
    && a.aggregated == |ps|
    && match c
       case Count => a.time == ZERO_TIME && a.value == Wrap(|ps|)
       case Sum => a.time == ZERO_TIME && a.value == Wrap(SumOf(ps))
       case _ => IsBest(c, ps, a)
  }

  ghost predicate IsBest(c: Call, ps: seq<Point>, a: Point)
    requires IsSelector(c)
  {
    && (exists i :: 0 <= i < |ps| && SamePlace(ps[i], a))
    && forall i :: 0 <= i < |ps| ==> !Better(c, ps[i], a)
  }

  lemma {:induction false} SumOfPermutation(ps: seq<Point>, qs: seq<Point>)
    requires multiset(ps) == multiset(qs)
    ensures SumOf(ps) == SumOf(qs)
    decreases |ps|
  {
    if ps == [] {
      assert |multiset(qs)| == 0;
    } else {
      var n := |ps| - 1;
      assert ps == ps[..n] + [ps[n]];
      assert ps[n] in multiset(qs);
      var k :| 0 <= k < |qs| && qs[k] == ps[n];
      WithoutTheSame(ps, qs, k);
      SumOfPermutation(ps[..n], qs[..k] + qs[k + 1..]);
      SumOfWithout(qs, k);
    }
  }

  lemma WithoutTheSame(ps: seq<Point>, qs: seq<Point>, k: nat)
    requires ps != [] && multiset(ps) == multiset(qs) && k < |qs| && qs[k] == ps[|ps| - 1]
    ensures multiset(ps[..|ps| - 1]) == multiset(qs[..k] + qs[k + 1..])
  {
    var n := |ps| - 1;
    TakenApart(qs, k);
    TakenApart(ps, n);
    assert ps[..n] + ps[n + 1..] == ps[..n];
    SameWithout(multiset(ps[..n]), multiset(qs[..k] + qs[k + 1..]), ps[n]);
  }

  lemma {:induction false} SumOfWithout(qs: seq<Point>, k: nat)
    requires k < |qs|
    ensures SumOf(qs) == SumOf(qs[..k] + qs[k + 1..]) + qs[k].value
    decreases |qs|
  {
    var n := |qs| - 1;
    if k == n {
      assert qs[..k] + qs[k + 1..] == qs[..n];
    } else {
      assert (qs[..k] + qs[k + 1..])[..n - 1] == qs[..n][..k] + qs[..n][k + 1..];
      assert (qs[..k] + qs[k + 1..])[n - 1] == qs[n];
      SumOfWithout(qs[..n], k);
    }
  }

  lemma {:induction false} SumOfConcat(ps: seq<Point>, qs: seq<Point>)
    ensures SumOf(ps + qs) == SumOf(ps) + SumOf(qs)
  {
    if qs == [] {
      assert ps + qs == ps;
    } else {
      assert (ps + qs)[..|ps + qs| - 1] == ps + qs[..|qs| - 1];
      SumOfConcat(ps, qs[..|qs| - 1]);
    }
  }

  /** The answer depends only on which points there are, and is the only one. */
  lemma AnswerIsUnique(c: Call, ps: seq<Point>, qs: seq<Point>, a: Point, b: Point)
    requires multiset(ps) == multiset(qs) && IsAnswer(c, ps, a) && IsAnswer(c, qs, b)
    ensures a == b
  {
    assert |ps| == |multiset(ps)| == |multiset(qs)| == |qs|;
    SumOfPermutation(ps, qs);
    if IsSelector(c) {
      var i :| 0 <= i < |ps| && SamePlace(ps[i], a);
      var j :| 0 <= j < |qs| && SamePlace(qs[j], b);
      assert ps[i] in multiset(qs) && qs[j] in multiset(ps);
      var i' :| 0 <= i' < |qs| && qs[i'] == ps[i];
      var j' :| 0 <= j' < |ps| && ps[j'] == qs[j];
      assert !Better(c, qs[i'], b) && !Better(c, ps[j'], a);
    }
  }

  // ---- merging ----------------------------------------------------------------------------------------------

  /** Partial results with the raw points behind each. */
  ghost predicate Partials(c: Call, parts: seq<seq<Point>>, ps: seq<Point>)
  {
    && |parts| == |ps|
    && forall i :: 0 <= i < |ps| ==> parts[i] != [] && IsAnswer(c, parts[i], ps[i])
  }

  /** A point that stands for itself alone. */
  predicate IsRaw(p: Point) { p.aggregated == 0 }

  /** Merge re-reduces with the same call, except that counts are summed. */
  function MergeCall(c: Call): Call { if c == Count then Sum else c }

  lemma {:induction false} ReduceRaw(c: Call, ps: seq<Point>)
    requires AllRaw(IsRaw, ps) && ps != []
    ensures Reduce(c, ps).Some? && IsAnswer(c, ps, Reduce(c, ps).value)
    decreases |ps|
  {
    var n := |ps| - 1;
    if n == 0 {
      ReduceOne(c, ps);
    } else {
      ReduceRaw(c, ps[..n]);
      if IsSelector(c) {
        assert SamePlace([ps[n]][0], ps[n]);
        BestOfTwo(c, ps[..n], [ps[n]], Reduce(c, ps[..n]).value, ps[n], Reduce(c, ps).value);
        assert ps == ps[..n] + [ps[n]];
      } else {
        WrapAdd(n, 1);
        WrapAdd(SumOf(ps[..n]), ps[n].value);
      }
    }
  }

  lemma ReduceOne(c: Call, ps: seq<Point>)
    requires AllRaw(IsRaw, ps) && |ps| == 1
    ensures Reduce(c, ps).Some? && IsAnswer(c, ps, Reduce(c, ps).value)
  {
    assert ps[..0] == [];
    if IsSelector(c) { assert SamePlace(ps[0], Reduce(c, ps).value); }
  }

  /** The better of two bests is the best of all. */
  lemma BestOfTwo(c: Call, ps: seq<Point>, qs: seq<Point>, a: Point, b: Point, best: Point)
    requires IsSelector(c) && IsBest(c, ps, a) && IsBest(c, qs, b)
    requires SamePlace(best, if Better(c, b, a) then b else a)
    ensures IsBest(c, ps + qs, best)
  {
    var i :| 0 <= i < |ps| && SamePlace(ps[i], a);
    var j :| 0 <= j < |qs| && SamePlace(qs[j], b);
    assert (ps + qs)[i] == ps[i] && (ps + qs)[|ps| + j] == qs[j];
    assert SamePlace((ps + qs)[i], best) || SamePlace((ps + qs)[|ps| + j], best);
    forall k | 0 <= k < |ps + qs|
      ensures !Better(c, (ps + qs)[k], best)
    {
      if k < |ps| { assert !Better(c, ps[k], a); } else { assert !Better(c, qs[k - |ps|], b); }
    }
  }

  /** Reducing partial results answers for all the raw points behind them. */
  lemma {:induction false} ReducePartials(c: Call, parts: seq<seq<Point>>, ps: seq<Point>)
    requires Partials(c, parts, ps) && ps != []
    ensures Reduce(MergeCall(c), ps).Some? && IsAnswer(c, Flatten(parts), Reduce(MergeCall(c), ps).value)
    decreases |ps|
  {
    var n := |ps| - 1;
    assert parts[n] != [] && IsAnswer(c, parts[n], ps[n]);
    assert Flatten(parts) == Flatten(parts[..n]) + parts[n];
    SumOfConcat(Flatten(parts[..n]), parts[n]);
    if n == 0 {
      assert parts[..0] == [] && ps[..0] == [];
      assert Flatten(parts) == parts[0];
      ReduceOnePartial(c, parts[0], ps);
    } else {
      ReducePartials(c, parts[..n], ps[..n]);
      MergeOne(c, Flatten(parts[..n]), parts[n], Reduce(MergeCall(c), ps[..n]).value, ps[n]);
    }
  }

  lemma ReduceOnePartial(c: Call, part: seq<Point>, ps: seq<Point>)
    requires |ps| == 1 && part != [] && IsAnswer(c, part, ps[0])
    ensures IsAnswer(c, part, Reduce(MergeCall(c), ps).value)
  {
    assert ps[..0] == [];
    WrapAdd(|part|, 0);
    WrapAdd(SumOf(part), 0);
    if IsSelector(c) {
      var i :| 0 <= i < |part| && SamePlace(part[i], ps[0]);
      assert SamePlace(part[i], Reduce(MergeCall(c), ps).value);
    }
  }

  lemma MergeOne(c: Call, ps: seq<Point>, qs: seq<Point>, a: Point, b: Point)
    requires ps != [] && qs != [] && IsAnswer(c, ps, a) && IsAnswer(c, qs, b)
    ensures IsAnswer(c, ps + qs, Step(MergeCall(c), Some(a), b))
  {
    SumOfConcat(ps, qs);
    if IsSelector(c) {
      BestOfTwo(c, ps, qs, a, b, Step(c, Some(a), b));
    } else {
      WrapAdd(|qs|, |ps|);
      WrapAdd(|ps|, Wrap(|qs|));
      WrapAdd(SumOf(qs), SumOf(ps));
      WrapAdd(SumOf(ps), Wrap(SumOf(qs)));
    }
  }

  // ---- any arrangement of shards and merges ---------------------------------------------------------------------

  function Eval(c: Call, t: Tree<Point>): Option<Point>
  {
    match t
    case Shard(points) => Reduce(c, points)
    case Merge(children) => Reduce(MergeCall(c), Emitted(seq(|children|, i requires 0 <= i < |children| => Eval(c, children[i]))))
  }

  function Emitted(rs: seq<Option<Point>>): seq<Point>
  {
    if rs == [] then []
    else Emitted(rs[..|rs| - 1]) + if rs[|rs| - 1].Some? then [rs[|rs| - 1].value] else []
  }

  lemma {:induction false} EmittedAll(rs: seq<Option<Point>>)
    requires forall i :: 0 <= i < |rs| ==> rs[i].Some?
    ensures |Emitted(rs)| == |rs| && forall i :: 0 <= i < |rs| ==> Emitted(rs)[i] == rs[i].value
  {
    if rs != [] { EmittedAll(rs[..|rs| - 1]); }
  }

  lemma {:induction false} EvalAnswers(c: Call, t: Tree<Point>)
    requires Proper(IsRaw, t)
    ensures Eval(c, t).Some? && IsAnswer(c, Points(t), Eval(c, t).value) && Points(t) != []
  {
    hide Reduce, IsAnswer;
    match t
    case Shard(points) => ReduceRaw(c, points);
    case Merge(children) =>
      var n := |children|;
      var parts := seq(n, i requires 0 <= i < n => Points(children[i]));
      var rs := seq(n, i requires 0 <= i < n => Eval(c, children[i]));
      forall i | 0 <= i < n
        ensures rs[i].Some? && IsAnswer(c, parts[i], rs[i].value) && parts[i] != []
      {
        EvalAnswers(c, children[i]);
      }
      EmittedAll(rs);
      ReducePartials(c, parts, Emitted(rs));
      assert Flatten(parts) == Flatten(parts[..n - 1]) + parts[n - 1];
  }

  /** However the points are spread over shards, and in whatever order and nesting partial results are merged,
      the result is that of one reducer over all points in any order. */
  lemma DistributionDoesNotMatter(c: Call, t: Tree<Point>, all: seq<Point>)
    requires Proper(IsRaw, t) && multiset(Points(t)) == multiset(all)
    ensures Eval(c, t).Some? && Eval(c, t) == Reduce(c, all) && Eval(c, t).value.aggregated == |all|
  {
    EvalAnswers(c, t);
    RawPoints(IsRaw, t);
    RawInAnyOrder(IsRaw, Points(t), all);
    ReduceRaw(c, all);
    AnswerIsUnique(c, Points(t), all, Eval(c, t).value, Reduce(c, all).value);
  }

  /** Counting partial counts instead of summing them would be wrong: two shards of two points. */
  lemma CountsMustBeSummed()
    ensures var p := Point(1, 5, 0);
      var part := Reduce(Count, [p, p]).value;
      Reduce(Count, [part, part]).value.value == 2 && Reduce(Sum, [part, part]).value.value == 4
  {
    var p := Point(1, 5, 0);
    assert [p, p][..1] == [p] && [p][..0] == [];
    assert Reduce(Count, [p]) == Some(Point(ZERO_TIME, 1, 1));
    var part := Reduce(Count, [p, p]).value;
    assert part == Point(ZERO_TIME, 2, 2);
    assert [part, part][..1] == [part] && [part][..0] == [];
    assert Reduce(Sum, [part]) == Some(Point(ZERO_TIME, 2, 2));
    assert Reduce(Count, [part]) == Some(Point(ZERO_TIME, 1, 2));
  }
}
