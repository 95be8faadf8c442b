/** top() and bottom() (query/functions.go): a heap of at most n points, its worst point at the root.
    A better point replaces the root; at the end the heap is sorted.  The result is what sorting the
    whole stream and taking the first n would give. */
module TopBottom {
  import opened Collections

  datatype Point = Point(value: int, time: int, payload: nat)

  datatype Which = Top | Bottom

  /** The comparison both reducers are built on: a is worse than b. */
  predicate Worse(w: Which, a: Point, b: Point)
  {
    if a.value != b.value then (if w == Top then a.value < b.value else a.value > b.value) else a.time > b.time
  }

  function Parent(i: nat): (p: nat)
    ensures i > 0 ==> p < i
  {
    if i == 0 then 0 else (i - 1) / 2
  }

  /** No point is worse than its parent, apart from those in the exception. */
  predicate HeapExcept(w: Which, h: seq<Point>, hole: int)
  {
    forall k :: 0 < k < |h| && k != hole ==> !Worse(w, h[k], h[Parent(k)])
  }

  predicate IsHeap(w: Which, h: seq<Point>) { forall k :: 0 < k < |h| ==> !Worse(w, h[k], h[Parent(k)]) }

  function Swap(h: seq<Point>, i: nat, j: nat): (r: seq<Point>)
    requires i < |h| && j < |h|
    ensures multiset(r) == multiset(h)
  {
    h[i := h[j]][j := h[i]]
  }

  /** Swapping with a better parent moves the hole up. */
  lemma SwapUp(w: Which, g: seq<Point>, j: nat)
    requires 0 < j < |g| && HeapExcept(w, g, j) && Worse(w, g[j], g[Parent(j)])
    requires forall k :: 0 < k < |g| && Parent(k) == j ==> !Worse(w, g[k], g[Parent(j)])
    ensures var i, h := Parent(j), Swap(g, Parent(j), j);
      && HeapExcept(w, h, i)
      && forall k :: 0 < k < |h| && Parent(k) == i && i > 0 ==> !Worse(w, h[k], h[Parent(i)])
  {
    hide Worse, Parent;
    var i, h := Parent(j), Swap(g, Parent(j), j);
    Asymmetric(w, g[j], g[i]);
    forall k | 0 < k < |h| && k != i
      ensures !Worse(w, h[k], h[Parent(k)])
    {
      if k != j {
        assert !Worse(w, g[k], g[Parent(k)]);
        NoWorse(w, g[k], g[i], g[j]);
      }
    }
    forall k | 0 < k < |h| && Parent(k) == i && i > 0
      ensures !Worse(w, h[k], h[Parent(i)])
    {
      assert !Worse(w, g[i], g[Parent(i)]);
      if k != j {
        assert !Worse(w, g[k], g[i]);
        NoWorse(w, g[k], g[i], g[Parent(i)]);
      }
    }
  }

  /** What is no worse than b is no worse than anything b is no worse than, or that is worse than b. */
  lemma NoWorse(w: Which, a: Point, b: Point, c: Point)
    ensures !Worse(w, a, b) && (!Worse(w, b, c) || Worse(w, c, b)) ==> !Worse(w, a, c)
  {
  }

  /** container/heap up: the point at j rises until its parent is no better. */
  method Up(w: Which, h0: seq<Point>, j0: nat) returns (h: seq<Point>)
    requires j0 < |h0|
    requires HeapExcept(w, h0, j0)
    requires forall k :: 0 < k < |h0| && Parent(k) == j0 && j0 > 0 ==> !Worse(w, h0[k], h0[Parent(j0)])
    ensures IsHeap(w, h) && multiset(h) == multiset(h0) && |h| == |h0|
  {
    h := h0;
    var j: nat := j0;
    while true
      invariant j < |h| == |h0| && multiset(h) == multiset(h0)
      invariant HeapExcept(w, h, j)
      invariant forall k :: 0 < k < |h| && Parent(k) == j && j > 0 ==> !Worse(w, h[k], h[Parent(j)])
      decreases j
    {
      var i := Parent(j);
      if i == j || !Worse(w, h[j], h[i]) {
        break;
      }
      SwapUp(w, h, j);
      h := Swap(h, i, j);
      j := i;
    }
  }

  /** A heap but for the point at i, which may be better than its children. */
  ghost predicate HeapBelow(w: Which, h: seq<Point>, i: nat)
  {
    forall k: nat :: 0 < k < |h| ==>
      && (Parent(k) != i ==> !Worse(w, h[k], h[Parent(k)]))
      && (Parent(k) == i && i > 0 ==> !Worse(w, h[k], h[Parent(i)]))
  }

  lemma Children(i: nat)
    ensures forall k: nat :: k > 0 && Parent(k) == i ==> k == 2 * i + 1 || k == 2 * i + 2
    ensures Parent(2 * i + 1) == Parent(2 * i + 2) == i
  {
  }

  /** One step of sinking: the point at i changes places with its worst child j. */
  lemma Sink(w: Which, h: seq<Point>, i: nat, j: nat)
    requires HeapBelow(w, h, i) && i < j < |h| && Parent(j) == i && Worse(w, h[j], h[i])
    requires forall k: nat :: 0 < k < |h| && Parent(k) == i ==> !Worse(w, h[k], h[j])
    ensures HeapBelow(w, Swap(h, i, j), j)
  {
    hide Worse, Parent;
    Asymmetric(w, h[j], h[i]);
    var g := Swap(h, i, j);
    forall k: nat | 0 < k < |g|
      ensures Parent(k) != j ==> !Worse(w, g[k], g[Parent(k)])
      ensures Parent(k) == j && j > 0 ==> !Worse(w, g[k], g[Parent(j)])
    {
      if Parent(k) == i && k != j { assert !Worse(w, h[k], h[j]); }
    }
  }

  lemma Asymmetric(w: Which, a: Point, b: Point)
    ensures Worse(w, a, b) ==> !Worse(w, b, a)
  {
  }

  /** The child that must come up: the worse of the two. */
  ghost predicate WorstChild(w: Which, h: seq<Point>, i: nat, j: nat)
  {
    && 2 * i + 1 <= j <= 2 * i + 2 && j < |h|
    && (j == 2 * i + 1 && j + 1 < |h| ==> !Worse(w, h[j + 1], h[j]))
    && (j == 2 * i + 2 ==> Worse(w, h[j], h[j - 1]))
  }

  lemma OfChildren(w: Which, h: seq<Point>, i: nat, j: nat)
    requires WorstChild(w, h, i, j)
    ensures Parent(j) == i && forall k: nat :: 0 < k < |h| && Parent(k) == i ==> !Worse(w, h[k], h[j])
  {
    Children(i);
  }

  /** Nothing left to do: no child, or no child that is worse. */
  lemma AtRest(w: Which, h: seq<Point>, i: nat, j: nat)
    requires HeapBelow(w, h, i) && i < |h|
    requires 2 * i + 1 >= |h| || (WorstChild(w, h, i, j) && !Worse(w, h[j], h[i]))
    ensures IsHeap(w, h)
  {
    Children(i);
    forall k: nat | 0 < k < |h| && Parent(k) == i
      ensures !Worse(w, h[k], h[i])
    {
      OfChildren(w, h, i, j);
    }
  }

  /** container/heap down: the point at the root sinks below every better child. */
  method Down(w: Which, h0: seq<Point>) returns (h: seq<Point>)
    requires HeapBelow(w, h0, 0)
    ensures IsHeap(w, h) && multiset(h) == multiset(h0) && |h| == |h0|
  {
    hide HeapBelow, IsHeap, Worse, Parent;
    h := h0;
    var n := |h|;
    if n == 0 {
      NothingToSink(w, h);
      return;
    }
    var i: nat := 0;
    while true
      invariant |h| == n && multiset(h) == multiset(h0) && i < n
      invariant HeapBelow(w, h, i)
      decreases n - i
    {
      var j1 := 2 * i + 1;
      if j1 >= n {
        AtRest(w, h, i, 0);
        break;
      }
      var j := j1;
      if j1 + 1 < n && Worse(w, h[j1 + 1], h[j1]) {
        j := j1 + 1;
      }
      if !Worse(w, h[j], h[i]) {
        AtRest(w, h, i, j);
        break;
      }
      OfChildren(w, h, i, j);
      Sink(w, h, i, j);
      h := Swap(h, i, j);
      i := j;
    }
  }

  lemma NothingToSink(w: Which, h: seq<Point>)
    requires |h| == 0
    ensures IsHeap(w, h)
  {
  }

  lemma {:induction false} RootIsWorst(w: Which, h: seq<Point>, k: nat)
    requires IsHeap(w, h) && k < |h|
    ensures !Worse(w, h[k], h[0])
    decreases k
  {
    if k > 0 { RootIsWorst(w, h, Parent(k)); }
  }

  // ---- the reducer ------------------------------------------------------------------------------------

  /** The kept points are part of the stream, as many as fit, and none that was left out is better. */
  ghost predicate Keeps(w: Which, n: nat, stream: seq<Point>, kept: seq<Point>, left: multiset<Point>)
  {
    && multiset(stream) == multiset(kept) + left
    && |kept| <= n && (|kept| < n ==> left == multiset{})
    && forall p, q :: p in left && q in kept ==> !Worse(w, q, p)
  }

  class Reducer {
    const which: Which
    const n: nat
    var points: seq<Point>
    ghost var stream: seq<Point>
    ghost var left: multiset<Point>

    ghost predicate Valid()
      reads this
    {
      n >= 1 && IsHeap(which, points) && Keeps(which, n, stream, points, left)
    }

    constructor (which: Which, n: nat)
      requires n >= 1
      ensures Valid() && stream == [] && this.which == which && this.n == n
    {
      this.which, this.n := which, n;
      points, stream, left := [], [], multiset{};
    }

    method Aggregate(p: Point)
      requires Valid()
      modifies this
      ensures Valid() && stream == old(stream) + [p]
    {
      hide IsHeap, HeapExcept, HeapBelow, Keeps, Worse;
      if |points| == n {
        RootBounds(which, points);
        if !Worse(which, points[0], p) {
          LeaveOut(which, n, stream, points, left, p);
          stream, left := stream + [p], left + multiset{p};
          return;
        }
        Replace(which, n, stream, points, left, p);
        NewRoot(which, points, p);
        left := left + multiset{points[0]};
        var h := Down(which, points[0 := p]);
        Rearranged(which, n, stream + [p], points[0 := p], h, left);
        points, stream := h, stream + [p];
        return;
      }
      var pushed := points + [p];
      Pushed(which, points, p);
      KeepOneMore(which, n, stream, points, left, p);
      var h := Up(which, pushed, |points|);
      Rearranged(which, n, stream + [p], pushed, h, left);
      points, stream := h, stream + [p];
    }

    /** A copy of the points, sorted: for top the greatest value first, for bottom the least, the earlier of equal ones
        first.  What was left out comes after all of them. */
    method Emit() returns (out: seq<Point>)
      requires Valid()
      ensures BestFirst(which, out) && multiset(out) == multiset(points)
      ensures Keeps(which, n, stream, out, left)
      ensures which == Top ==> forall i, j :: 0 <= i < j < |out| ==>
        out[i].value > out[j].value || (out[i].value == out[j].value && out[i].time <= out[j].time)
      ensures which == Bottom ==> forall i, j :: 0 <= i < j < |out| ==>
        out[i].value < out[j].value || (out[i].value == out[j].value && out[i].time <= out[j].time)
      ensures which == Top ==> forall p, q :: p in left && q in out ==>
        q.value > p.value || (q.value == p.value && q.time <= p.time)
      ensures which == Bottom ==> forall p, q :: p in left && q in out ==>
        q.value < p.value || (q.value == p.value && q.time <= p.time)
    {
      out := SortBestFirst(which, points);
      Rearranged(which, n, stream, points, out, left);
    }
  }

  lemma NewRoot(w: Which, h: seq<Point>, p: Point)
    requires IsHeap(w, h) && h != []
    ensures HeapBelow(w, h[0 := p], 0)
  {
    hide Worse;
  }

  lemma Pushed(w: Which, h: seq<Point>, p: Point)
    requires IsHeap(w, h)
    ensures HeapExcept(w, h + [p], |h|)
    ensures forall k :: 0 < k < |h + [p]| ==> Parent(k) != |h|
  {
    hide Worse;
    var pushed := h + [p];
    assert forall k :: 0 < k < |h| ==> pushed[k] == h[k] && pushed[Parent(k)] == h[Parent(k)];
  }

  lemma KeepOneMore(w: Which, n: nat, stream: seq<Point>, kept: seq<Point>, left: multiset<Point>, p: Point)
    requires Keeps(w, n, stream, kept, left) && |kept| != n
    ensures Keeps(w, n, stream + [p], kept + [p], left)
  {
    hide Worse;
  }

  lemma RootBounds(w: Which, h: seq<Point>)
    requires IsHeap(w, h) && h != []
    ensures forall q :: q in h ==> !Worse(w, q, h[0])
  {
    forall k | 0 <= k < |h| ensures !Worse(w, h[k], h[0]) { RootIsWorst(w, h, k); }
  }

  lemma LeaveOut(w: Which, n: nat, stream: seq<Point>, kept: seq<Point>, left: multiset<Point>, p: Point)
    requires Keeps(w, n, stream, kept, left) && |kept| == n && n > 0 && !Worse(w, kept[0], p)
    requires forall q :: q in kept ==> !Worse(w, q, kept[0])
    ensures Keeps(w, n, stream + [p], kept, left + multiset{p})
  {
  }

  lemma Replace(w: Which, n: nat, stream: seq<Point>, kept: seq<Point>, left: multiset<Point>, p: Point)
    requires Keeps(w, n, stream, kept, left) && |kept| == n && n > 0 && Worse(w, kept[0], p)
    requires forall q :: q in kept ==> !Worse(w, q, kept[0])
    ensures Keeps(w, n, stream + [p], kept[0 := p], left + multiset{kept[0]})
  {
    assert kept[0] in kept;
    forall q | q in kept[0 := p] ensures q == p || q in kept {
      var k :| 0 <= k < n && kept[0 := p][k] == q;
      if k > 0 { assert kept[k] == q; }
    }
  }

  lemma Rearranged(w: Which, n: nat, stream: seq<Point>, a: seq<Point>, b: seq<Point>, left: multiset<Point>)
    requires Keeps(w, n, stream, a, left) && multiset(a) == multiset(b) && |a| == |b|
    ensures Keeps(w, n, stream, b, left)
  {
    forall q | q in b ensures q in a { assert q in multiset(b); }
  }

  // ---- sorting and taking n ---------------------------------------------------------------------------

  predicate BestFirst(w: Which, s: seq<Point>) { forall i, j :: 0 <= i < j < |s| ==> !Worse(w, s[i], s[j]) }

  /** sort.Sort(sort.Reverse(...)) */
  method SortBestFirst(w: Which, s: seq<Point>) returns (out: seq<Point>)
    ensures BestFirst(w, out) && multiset(out) == multiset(s) && |out| == |s|
  {
    hide Worse, BestFirst;
    out := [];
    assert BestFirst(w, []) by { NoneIsSorted(w); }
    for i := 0 to |s|
      invariant BestFirst(w, out) && multiset(out) == multiset(s[..i]) && |out| == i
    {
      var k := 0;
      while k < |out| && !Worse(w, out[k], s[i])
        invariant 0 <= k <= |out| && forall j :: 0 <= j < k ==> !Worse(w, out[j], s[i])
      {
        k := k + 1;
      }
      assert s[..i + 1] == s[..i] + [s[i]];
      PutIn(out, k, s[i]);
      InsertKeepsOrder(w, out, k, s[i]);
      out := out[..k] + [s[i]] + out[k..];
    }
    assert s[..|s|] == s;
  }

  lemma InsertKeepsOrder(w: Which, s: seq<Point>, k: nat, p: Point)
    requires BestFirst(w, s) && k <= |s|
    requires forall j :: 0 <= j < k ==> !Worse(w, s[j], p)
    requires k < |s| ==> Worse(w, s[k], p)
    ensures BestFirst(w, s[..k] + [p] + s[k..])
  {
    var t := s[..k] + [p] + s[k..];
    forall i, j | 0 <= i < j < |t|
      ensures !Worse(w, t[i], t[j])
    {
      assert t[i] == if i < k then s[i] else if i == k then p else s[i - 1];
      assert t[j] == if j < k then s[j] else if j == k then p else s[j - 1];
      if i == k && j > k + 1 { assert !Worse(w, s[k], s[j - 1]); }
    }
  }

  /** By descending values for top and ascending ones for bottom, equal ones by ascending times. */
  predicate InOrder(w: Which, s: seq<Point>)
  {
    forall i, j :: 0 <= i < j < |s| ==>
      || (if w == Top then s[i].value > s[j].value else s[i].value < s[j].value)
      || (s[i].value == s[j].value && s[i].time <= s[j].time)
  }

  lemma BestFirstIsInOrder(w: Which, s: seq<Point>)
    ensures BestFirst(w, s) <==> InOrder(w, s)
  {
  }

  datatype Key = Key(value: int, time: int)

  function Keys(s: seq<Point>): (ks: seq<Key>)
    ensures |ks| == |s| && forall i :: 0 <= i < |s| ==> ks[i] == Key(s[i].value, s[i].time)
  {
    seq(|s|, i requires 0 <= i < |s| => Key(s[i].value, s[i].time))
  }

  predicate WorseKey(w: Which, a: Key, b: Key) { Worse(w, Point(a.value, a.time, 0), Point(b.value, b.time, 0)) }

  function KeyOf(p: Point): Key { Key(p.value, p.time) }

  lemma KeysWithout(b: seq<Point>, k: nat)
    requires k < |b|
    ensures multiset(b) == multiset(b[..k] + b[k + 1..]) + multiset{b[k]}
    ensures multiset(Keys(b)) == multiset(Keys(b[..k] + b[k + 1..])) + multiset{KeyOf(b[k])}
  {
    TakenApart(b, k);
    TakenApart(Keys(b), k);
    KeysOfRest(b, k);
  }

  lemma KeysOfRest(b: seq<Point>, k: nat)
    requires k < |b|
    ensures Keys(b[..k] + b[k + 1..]) == Keys(b)[..k] + Keys(b)[k + 1..]
  {
  }

  lemma {:induction false} KeysOfPermutation(a: seq<Point>, b: seq<Point>)
    requires multiset(a) == multiset(b)
    ensures multiset(Keys(a)) == multiset(Keys(b))
    decreases |a|
  {
    hide Keys;
    if a == [] {
      assert |multiset(b)| == 0;
    } else {
      assert a[0] in multiset(b);
      var k :| 0 <= k < |b| && b[k] == a[0];
      KeysWithout(a, 0);
      KeysWithout(b, k);
      assert a[..0] + a[0 + 1..] == a[1..];
      assert multiset(a[1..]) == multiset(a) - multiset{a[0]} == multiset(b[..k] + b[k + 1..]);
      KeysOfPermutation(a[1..], b[..k] + b[k + 1..]);
    }
  }

  predicate BestKeyFirst(w: Which, s: seq<Key>) { forall i, j :: 0 <= i < j < |s| ==> !WorseKey(w, s[i], s[j]) }

  lemma SameFirst(w: Which, a: seq<Key>, b: seq<Key>)
    requires multiset(a) == multiset(b) && a != [] && b != [] && BestKeyFirst(w, a) && BestKeyFirst(w, b)
    ensures a[0] == b[0]
  {
    assert a[0] in multiset(b) && b[0] in multiset(a);
    var i :| 0 <= i < |b| && b[i] == a[0];
    var j :| 0 <= j < |a| && a[j] == b[0];
  }

  lemma RestIsSorted(w: Which, s: seq<Key>)
    requires BestKeyFirst(w, s) && s != []
    ensures BestKeyFirst(w, s[1..])
  {
    hide WorseKey;
  }

  lemma {:induction false} SortedKeysAreUnique(w: Which, a: seq<Key>, b: seq<Key>)
    requires multiset(a) == multiset(b) && BestKeyFirst(w, a) && BestKeyFirst(w, b)
    ensures a == b
    decreases |a|
  {
    hide WorseKey, BestKeyFirst;
    assert |a| == |multiset(a)| == |multiset(b)| == |b|;
    if a != [] {
      SameFirst(w, a, b);
      RestIsSorted(w, a);
      RestIsSorted(w, b);
      assert a == [a[0]] + a[1..] && b == [b[0]] + b[1..];
      assert multiset(a) == multiset(a[1..]) + multiset{a[0]} && multiset(b) == multiset(b[1..]) + multiset{b[0]};
      SameWithout(multiset(a[1..]), multiset(b[1..]), a[0]);
      SortedKeysAreUnique(w, a[1..], b[1..]);
    }
  }

  lemma {:induction false} SomeSeq(m: multiset<Point>) returns (s: seq<Point>)
    ensures multiset(s) == m
    decreases |m|
  {
    s := [];
    if m != multiset{} {
      var p :| p in m;
      var rest := SomeSeq(m - multiset{p});
      s := rest + [p];
    }
  }

  lemma NoneIsSorted(w: Which)
    ensures BestFirst(w, [])
  {
  }

  lemma PutIn(s: seq<Point>, k: nat, p: Point)
    requires k <= |s|
    ensures multiset(s[..k] + [p] + s[k..]) == multiset(s) + multiset{p}
  {
    assert s == s[..k] + s[k..];
  }

  lemma {:induction false} SomeSorted(w: Which, s: seq<Point>) returns (out: seq<Point>)
    ensures BestFirst(w, out) && multiset(out) == multiset(s)
  {
    hide Worse, BestFirst;
    if s == [] {
      assert BestFirst(w, []) by { NoneIsSorted(w); }
      out := [];
    } else {
      var n := |s| - 1;
      var rest := SomeSorted(w, s[..n]);
      var k := Place(w, rest, s[n], 0);
      InsertKeepsOrder(w, rest, k, s[n]);
      PutIn(rest, k, s[n]);
      assert s == s[..n] + [s[n]];
      out := rest[..k] + [s[n]] + rest[k..];
    }
  }

  lemma {:induction false} Place(w: Which, s: seq<Point>, p: Point, from: nat) returns (k: nat)
    requires from <= |s| && forall j :: 0 <= j < from ==> !Worse(w, s[j], p)
    ensures k <= |s| && (forall j :: 0 <= j < k ==> !Worse(w, s[j], p)) && (k < |s| ==> Worse(w, s[k], p))
    decreases |s| - from
  {
    if from < |s| && !Worse(w, s[from], p) { k := Place(w, s, p, from + 1); } else { k := from; }
  }

  /** What the reducer emits are the first n of the whole stream sorted, up to points that compare equal. */
  lemma EmitIsSortAndTake(w: Which, n: nat, stream: seq<Point>, out: seq<Point>, left: multiset<Point>, sorted: seq<Point>)
    requires Keeps(w, n, stream, out, left) && BestFirst(w, out)
    requires InOrder(w, sorted) && multiset(sorted) == multiset(stream)
    ensures |out| == if |stream| < n then |stream| else n
    ensures |out| <= |sorted| && Keys(out) == Keys(sorted)[..|out|]
  {
    BestFirstIsInOrder(w, sorted);
    var rest := SomeSeq(left);
    rest := SomeSorted(w, rest);
    var all := out + rest;
    assert |stream| == |multiset(stream)| == |multiset(all)| == |all|;
    assert |sorted| == |multiset(sorted)| == |all|;
    forall i, j | 0 <= i < j < |all|
      ensures !Worse(w, all[i], all[j])
    {
      if i < |out| <= j {
        assert all[i] in out;
        assert all[j] in multiset(rest);
      }
    }
    KeysOfPermutation(all, sorted);
    assert BestKeyFirst(w, Keys(all)) && BestKeyFirst(w, Keys(sorted));
    SortedKeysAreUnique(w, Keys(all), Keys(sorted));
    assert Keys(all)[..|out|] == Keys(out);
  }
}
