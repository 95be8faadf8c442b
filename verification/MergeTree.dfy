/** How partial results are combined (query/iterator.go, Iterators.Merge): shards reduce their own points, and
    results are merged, possibly at several levels. */
module MergeTree {
  import opened Collections

  datatype Tree<P> = Shard(points: seq<P>) | Merge(children: seq<Tree<P>>)

  predicate AllRaw<P>(raw: P -> bool, ps: seq<P>) { forall i :: 0 <= i < |ps| ==> raw(ps[i]) }

  /** Shards have raw points, at least one each; merges have at least one input. */
  predicate Proper<P>(raw: P -> bool, t: Tree<P>)
  {
    match t
    case Shard(points) => points != [] && AllRaw(raw, points)
    case Merge(children) => children != [] && forall i :: 0 <= i < |children| ==> Proper(raw, children[i])
  }

  function Points<P>(t: Tree<P>): seq<P>
  {
    match t
    case Shard(points) => points
    case Merge(children) => Flatten(seq(|children|, i requires 0 <= i < |children| => Points(children[i])))
  }

  lemma {:induction false} RawPoints<P>(raw: P -> bool, t: Tree<P>)
    requires Proper(raw, t)
    ensures AllRaw(raw, Points(t))
  {
    match t
    case Shard(_) =>
    case Merge(children) =>
      var parts := seq(|children|, i requires 0 <= i < |children| => Points(children[i]));
      forall i | 0 <= i < |children| ensures AllRaw(raw, parts[i]) { RawPoints(raw, children[i]); }
      RawFlatten(raw, parts);
  }

  lemma {:induction false} RawFlatten<P>(raw: P -> bool, parts: seq<seq<P>>)
    requires forall i :: 0 <= i < |parts| ==> AllRaw(raw, parts[i])
    ensures AllRaw(raw, Flatten(parts))
  {
    if parts != [] {
      var n := |parts| - 1;
      RawFlatten(raw, parts[..n]);
      assert AllRaw(raw, parts[n]);
    }
  }

  /** The same points in another order are raw too. */
  lemma RawInAnyOrder<P>(raw: P -> bool, ps: seq<P>, qs: seq<P>)
    requires AllRaw(raw, ps) && multiset(ps) == multiset(qs)
    ensures AllRaw(raw, qs) && |ps| == |qs|
  {
    assert |ps| == |multiset(ps)| == |multiset(qs)| == |qs|;
    forall i | 0 <= i < |qs| ensures raw(qs[i]) { assert qs[i] in multiset(ps); }
  }
}
