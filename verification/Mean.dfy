/** The mean over shards (query/functions.go, the mean reducers): a partial mean carries the number of
    points behind it and is weighed by that when it is reduced again.  Values are real numbers here,
    so the statement is about the method, not about rounding. */
module Mean {
  import opened Collections
  import opened MergeTree

  datatype Point = Point(value: real, aggregated: nat)

  /** A raw point, or one combined from a single point, counts once. */
  function Weight(p: Point): nat { if p.aggregated >= 2 then p.aggregated else 1 }

  /** What a point contributes to the sum. */
  function Term(p: Point): real { p.value * Weight(p) as real }

  function Sum(ps: seq<Point>): real
  {
    if ps == [] then 0.0 else Sum(ps[..|ps| - 1]) + Term(ps[|ps| - 1])
  }

  function Count(ps: seq<Point>): (n: nat)
    ensures n >= |ps|
  {
    if ps == [] then 0 else Count(ps[..|ps| - 1]) + Weight(ps[|ps| - 1])
  }

  class MeanReducer {
    var sum: real
    var count: nat
    ghost var seen: seq<Point>

    ghost predicate Valid()
      reads this
    {
      sum == Sum(seen) && count == Count(seen)
    }

    constructor ()
      ensures Valid() && seen == []
    {
      sum, count, seen := 0.0, 0, [];
    }

    method Aggregate(p: Point)
      requires Valid()
      modifies this
      ensures Valid() && seen == old(seen) + [p]
    {
      hide Sum, Count;
      SumOfMore(seen, p);
      if p.aggregated >= 2 {
        sum := sum + p.value * p.aggregated as real;
        count := count + p.aggregated;
      } else {
        sum := sum + p.value;
        count := count + 1;
      }
      seen := seen + [p];
    }

    method Emit() returns (p: Point)
      requires Valid() && seen != []
      ensures p == Reduce(seen)
    {
      return Point(sum / count as real, count);
    }
  }

  lemma SumOfMore(ps: seq<Point>, p: Point)
    ensures Sum(ps + [p]) == Sum(ps) + Term(p) && Count(ps + [p]) == Count(ps) + Weight(p)
  {
    assert (ps + [p])[..|ps|] == ps;
  }

  /** What the reducer emits after some points. */
  function Reduce(ps: seq<Point>): Point
    requires ps != []
  {
    Point(Sum(ps) / Count(ps) as real, Count(ps))
  }

  predicate IsRaw(p: Point) { p.aggregated == 0 }

  function Eval(t: Tree<Point>): Point
    requires Proper(IsRaw, t)
  {
    match t
    case Shard(points) => Reduce(points)
    case Merge(children) => Reduce(seq(|children|, i requires 0 <= i < |children| => Eval(children[i])))
  }

  lemma {:induction false} SumOfConcat(ps: seq<Point>, qs: seq<Point>)
    ensures Sum(ps + qs) == Sum(ps) + Sum(qs) && Count(ps + qs) == Count(ps) + Count(qs)
  {
    if qs == [] {
      assert ps + qs == ps;
    } else {
      assert (ps + qs)[..|ps + qs| - 1] == ps + qs[..|qs| - 1];
      SumOfConcat(ps, qs[..|qs| - 1]);
    }
  }

  /** A partial mean stands for its points: weighed, it adds up to what they add up to. */
  lemma PartialStandsForPoints(ps: seq<Point>)
    requires ps != []
    ensures Weight(Reduce(ps)) == Count(ps) && Term(Reduce(ps)) == Sum(ps)
  {
    var s, n := Sum(ps), Count(ps) as real;
    assert s / n * n == s;
  }

  lemma {:induction false} PartialsStandForPoints(parts: seq<seq<Point>>, ps: seq<Point>)
    requires |parts| == |ps| && forall i :: 0 <= i < |ps| ==> parts[i] != [] && ps[i] == Reduce(parts[i])
    ensures Sum(ps) == Sum(Flatten(parts)) && Count(ps) == Count(Flatten(parts))
  {
    hide Term, Weight, Reduce;
    if ps != [] {
      var n := |ps| - 1;
      PartialsStandForPoints(parts[..n], ps[..n]);
      assert parts[n] != [] && ps[n] == Reduce(parts[n]);
      PartialStandsForPoints(parts[n]);
      SumOfConcat(Flatten(parts[..n]), parts[n]);
    }
  }

  lemma {:induction false} EvalIsReduce(t: Tree<Point>)
    requires Proper(IsRaw, t)
    ensures Points(t) != [] && Eval(t) == Reduce(Points(t))
  {
    match t
    case Shard(_) =>
    case Merge(children) =>
      var n := |children|;
      var parts := seq(n, i requires 0 <= i < n => Points(children[i]));
      var ps := seq(n, i requires 0 <= i < n => Eval(children[i]));
      forall i | 0 <= i < n
        ensures parts[i] != [] && ps[i] == Reduce(parts[i])
      {
        EvalIsReduce(children[i]);
      }
      PartialsStandForPoints(parts, ps);
      assert Flatten(parts) == Flatten(parts[..n - 1]) + parts[n - 1];
  }

  lemma {:induction false} Permutation(ps: seq<Point>, qs: seq<Point>)
    requires multiset(ps) == multiset(qs)
    ensures Sum(ps) == Sum(qs) && Count(ps) == Count(qs)
    decreases |ps|
  {
    hide Sum, Count, Term, Weight;
    if ps == [] {
      assert |multiset(qs)| == 0;
    } else {
      var n := |ps| - 1;
      WithoutOne(ps, n);
      assert ps[..n] + ps[n + 1..] == ps[..n];
      assert ps[n] in multiset(qs);
      var k :| 0 <= k < |qs| && qs[k] == ps[n];
      WithoutOne(qs, k);
      var rest := qs[..k] + qs[k + 1..];
      assert multiset(ps[..n]) == multiset(ps) - multiset{ps[n]} == multiset(rest);
      Permutation(ps[..n], rest);
    }
  }

  lemma WithoutOne(qs: seq<Point>, k: nat)
    requires k < |qs|
    ensures multiset(qs) == multiset(qs[..k] + qs[k + 1..]) + multiset{qs[k]}
    ensures Sum(qs) == Sum(qs[..k] + qs[k + 1..]) + Term(qs[k])
    ensures Count(qs) == Count(qs[..k] + qs[k + 1..]) + Weight(qs[k])
  {
    hide Sum, Count, Term, Weight;
    TakenApart(qs, k);
    SumOfThree(qs[..k], qs[k], qs[k + 1..]);
  }

  lemma SumOfThree(a: seq<Point>, p: Point, b: seq<Point>)
    ensures Sum(a + [p] + b) == Sum(a + b) + Term(p) && Count(a + [p] + b) == Count(a + b) + Weight(p)
  {
    hide Sum, Count, Term, Weight;
    SumOfConcat(a, b);
    SumOfConcat(a, [p]);
    SumOfConcat(a + [p], b);
    SumOfOne(p);
  }

  lemma SumOfOne(p: Point)
    ensures Sum([p]) == Term(p) && Count([p]) == Weight(p)
  {
    assert [p][..0] == [];
  }

  lemma {:induction false} RawSum(ps: seq<Point>)
    requires AllRaw(IsRaw, ps)
    ensures Count(ps) == |ps| && Sum(ps) == Plain(ps)
  {
    if ps != [] { RawSum(ps[..|ps| - 1]); }
  }

  function Plain(ps: seq<Point>): real
  {
    if ps == [] then 0.0 else Plain(ps[..|ps| - 1]) + ps[|ps| - 1].value
  }

  /** However points are spread over shards and partial means merged, the result is the mean of all points
      and carries their number. */
  lemma DistributedMean(t: Tree<Point>, all: seq<Point>)
    requires Proper(IsRaw, t) && multiset(Points(t)) == multiset(all)
    ensures all != [] && Eval(t) == Point(Plain(all) / |all| as real, |all|)
  {
    EvalIsReduce(t);
    RawPoints(IsRaw, t);
    RawInAnyOrder(IsRaw, Points(t), all);
    Permutation(Points(t), all);
    RawSum(all);
  }
}
