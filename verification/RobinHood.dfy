/** Robin Hood hashing as the repository uses it: in memory (pkg/rhh/rhh.go) and in the two
    on-disk tables of the series index (tsdb/series_index.go, tsdb/series_partition.go).

    A table is an array of slots.  An element whose hash starts at slot `home` may sit any number
    of slots further on, cyclically; that number is its distance.  Insertion lets the element
    that has travelled further take a slot, and lookups give up as soon as they have travelled
    further than the element they look at.  Proved here: insertion keeps the invariant that makes
    this sound, and under it the early exit never misses an element. */
module RobinHood {
  import Arithmetic

  datatype Slot<+E> = Empty | Full(elem: E)

  type Table<+E> = seq<Slot<E>>

  // ---- cyclic positions ---------------------------------------------------------------------------

  /** hash & mask: for a power-of-two capacity, the remainder of the (possibly negative) hash. */
  function Home(hash: int, cap: nat): (h: nat)
    requires cap > 0
    ensures h < cap
  {
    hash % cap
  }

  /** (pos + 1) & mask */
  function Next(pos: nat, cap: nat): (n: nat)
    requires pos < cap
    ensures n < cap
  {
    if pos + 1 == cap then 0 else pos + 1
  }

  /** The slot d steps after the home slot. */
  function At(hash: int, d: nat, cap: nat): (pos: nat)
    requires d < cap
    ensures pos < cap
  {
    if Home(hash, cap) + d < cap then Home(hash, cap) + d else Home(hash, cap) + d - cap
  }

  /** rhh.Dist: how far a hash has travelled when it sits at pos. */
  function Dist(hash: int, pos: nat, cap: nat): (d: nat)
    requires pos < cap
    ensures d < cap && At(hash, d, cap) == pos
  {
    if pos >= Home(hash, cap) then pos - Home(hash, cap) else pos + cap - Home(hash, cap)
  }

  /** The original's formula. */
  lemma DistIsMasked(hash: int, pos: nat, cap: nat)
    requires pos < cap
    ensures Dist(hash, pos, cap) == (pos + cap - Home(hash, cap)) % cap
  {
    hide Home;
    var d := Dist(hash, pos, cap);
    Arithmetic.ModUnique(pos + cap - Home(hash, cap), cap, if pos >= Home(hash, cap) then 1 else 0, d);
  }

  lemma DistOfAt(hash: int, d: nat, cap: nat)
    requires d < cap
    ensures Dist(hash, At(hash, d, cap), cap) == d
    ensures d + 1 < cap ==> Next(At(hash, d, cap), cap) == At(hash, d + 1, cap)
  {
  }

  // ---- the invariant ---------------------------------------------------------------------------------

  /** The slot at probe index j of this hash is taken by an element that has travelled at least j. */
  ghost predicate Blocked<E>(t: Table<E>, hash: E -> int, h: int, j: nat)
  {
    && j < |t|
    && t[At(h, j, |t|)].Full?
    && Dist(hash(t[At(h, j, |t|)].elem), At(h, j, |t|), |t|) >= j
  }

  ghost predicate PathBlocked<E>(t: Table<E>, hash: E -> int, h: int, d: nat)
  {
    forall j: nat :: j < d ==> Blocked(t, hash, h, j)
  }

  /** Every element got where it is past elements that had travelled at least as far. */
  ghost predicate Ordered<E>(t: Table<E>, hash: E -> int)
  {
    forall p: nat :: p < |t| && t[p].Full? ==> PathBlocked(t, hash, hash(t[p].elem), Dist(hash(t[p].elem), p, |t|))
  }

  ghost predicate Unique<E, T>(t: Table<E>, tag: E -> T)
  {
    forall p: nat, q: nat :: p < |t| && q < |t| && t[p].Full? && t[q].Full? && tag(t[p].elem) == tag(t[q].elem) ==> p == q
  }

  ghost predicate Has<E>(t: Table<E>, e: E) { Full(e) in t }

  ghost predicate HasRoom<E>(t: Table<E>) { Empty in t }

  function CountFull<E>(t: Table<E>): (n: nat)
    ensures n <= |t|
  {
    if t == [] then 0 else CountFull(t[..|t| - 1]) + if t[|t| - 1].Full? then 1 else 0
  }

  lemma {:induction false} CountFullUpdate<E>(t: Table<E>, pos: nat, s: Slot<E>)
    requires pos < |t|
    ensures CountFull(t[pos := s]) == CountFull(t) - (if t[pos].Full? then 1 else 0) + (if s.Full? then 1 else 0)
  {
    var n := |t| - 1;
    if pos == n {
      assert t[pos := s][..n] == t[..n];
    } else {
      assert t[pos := s][..n] == t[..n][pos := s];
      CountFullUpdate(t[..n], pos, s);
    }
  }

  lemma {:induction false} RoomByCount<E>(t: Table<E>)
    ensures CountFull(t) < |t| <==> HasRoom(t)
  {
    if t != [] {
      var n := |t| - 1;
      RoomByCount(t[..n]);
      assert t == t[..n] + [t[n]];
    }
  }

  lemma {:induction false} NothingInEmptyTable<E>(t: Table<E>)
    requires forall p: nat :: p < |t| ==> t[p].Empty?
    ensures CountFull(t) == 0 && forall e :: !Has(t, e)
  {
    if t != [] { NothingInEmptyTable(t[..|t| - 1]); }
  }

  // ---- lookups ------------------------------------------------------------------------------------------

  /** At an empty slot, or at one whose element has travelled less, no element of this home lies ahead. */
  lemma NothingAhead<E>(t: Table<E>, hash: E -> int, h: int, d: nat, p: nat)
    requires Ordered(t, hash)
    requires d < |t| && !Blocked(t, hash, h, d)
    requires p < |t| && t[p].Full? && Home(hash(t[p].elem), |t|) == Home(h, |t|)
    ensures Dist(h, p, |t|) < d
  {
    var e := t[p].elem;
    assert d < Dist(hash(e), p, |t|) ==> Blocked(t, hash, hash(e), d);
    assert Blocked(t, hash, hash(e), d) <==> Blocked(t, hash, h, d);
  }

  /** What is looked for has one hash. */
  ghost predicate HashedAs<E(!new)>(hash: E -> int, h: int, found: E -> bool) { forall e :: found(e) ==> hash(e) == h }

  /** The position of the element that `found` describes, or -1: on an ordered table a scan of all slots would not
      do better.  On any table the loop stops after at most capacity + 1 probes. */
  method Lookup<E(!new)>(t: Table<E>, hash: E -> int, h: int, found: E -> bool) returns (r: int, ghost probes: nat)
    requires |t| > 0
    ensures -1 <= r < |t| && probes <= |t| + 1
    ensures r >= 0 ==> t[r].Full? && found(t[r].elem)
    ensures r == -1 && Ordered(t, hash) && HashedAs(hash, h, found) ==> forall e :: Has(t, e) ==> !found(e)
  {
    var cap := |t|;
    var pos: nat, dist: nat := Home(h, cap), 0;
    while true
      invariant pos < cap && dist <= cap
      invariant dist < cap ==> pos == At(h, dist, cap)
      invariant forall p: nat :: p < cap && t[p].Full? && Dist(h, p, cap) < dist ==> !found(t[p].elem)
      decreases cap - dist
    {
      if t[pos].Empty? || dist > Dist(hash(t[pos].elem), pos, cap) {
        forall e | Has(t, e) && Ordered(t, hash) && HashedAs(hash, h, found)
          ensures !found(e)
        {
          var p :| 0 <= p < cap && t[p] == Full(e);
          if hash(e) == h && dist < cap { NothingAhead(t, hash, h, dist, p); }
        }
        return -1, dist + 1;
      } else if found(t[pos].elem) {
        return pos, dist + 1;
      }
      DistOfAt(h, dist, cap);
      forall p: nat | p < cap && t[p].Full? && Dist(h, p, cap) == dist
        ensures !found(t[p].elem)
      {
        assert At(h, Dist(h, p, cap), cap) == p;
      }
      pos := Next(pos, cap);
      dist := dist + 1;
    }
  }

  /** The loop of FindOffsetByID, which compares before it checks whether to give up. */
  method LookupEager<E(!new)>(t: Table<E>, hash: E -> int, h: int, found: E -> bool) returns (r: int, ghost probes: nat)
    requires |t| > 0
    ensures -1 <= r < |t| && probes <= |t| + 1
    ensures r >= 0 ==> t[r].Full? && found(t[r].elem)
    ensures r == -1 && Ordered(t, hash) && HashedAs(hash, h, found) ==> forall e :: Has(t, e) ==> !found(e)
  {
    var cap := |t|;
    var pos: nat, dist: nat := Home(h, cap), 0;
    while true
      invariant pos < cap && dist <= cap
      invariant dist < cap ==> pos == At(h, dist, cap)
      invariant forall p: nat :: p < cap && t[p].Full? && Dist(h, p, cap) < dist ==> !found(t[p].elem)
      decreases cap - dist
    {
      if t[pos].Full? && found(t[pos].elem) {
        return pos, dist + 1;
      } else if t[pos].Empty? || dist > Dist(hash(t[pos].elem), pos, cap) {
        forall e | Has(t, e) && Ordered(t, hash) && HashedAs(hash, h, found)
          ensures !found(e)
        {
          var p :| 0 <= p < cap && t[p] == Full(e);
          if hash(e) == h && dist < cap { NothingAhead(t, hash, h, dist, p); }
        }
        return -1, dist + 1;
      }
      DistOfAt(h, dist, cap);
      forall p: nat | p < cap && t[p].Full? && Dist(h, p, cap) == dist
        ensures !found(t[p].elem)
      {
        assert At(h, Dist(h, p, cap), cap) == p;
      }
      pos := Next(pos, cap);
      dist := dist + 1;
    }
  }

  // ---- insertion ------------------------------------------------------------------------------------------

  /** Putting an element into an empty slot at the end of its path, or in place of one that has travelled
      no further, keeps the order and blocks no less. */
  lemma Upgrade<E>(t: Table<E>, hash: E -> int, pos: nat, c: E)
    requires Ordered(t, hash) && pos < |t|
    requires PathBlocked(t, hash, hash(c), Dist(hash(c), pos, |t|))
    requires t[pos].Full? ==> Dist(hash(t[pos].elem), pos, |t|) <= Dist(hash(c), pos, |t|)
    ensures Ordered(t[pos := Full(c)], hash)
    ensures forall h: int, d: nat :: PathBlocked(t, hash, h, d) ==> PathBlocked(t[pos := Full(c)], hash, h, d)
  {
    var t' := t[pos := Full(c)];
    forall h: int, j: nat | Blocked(t, hash, h, j)
      ensures Blocked(t', hash, h, j)
    {
      if At(h, j, |t|) == pos { assert Dist(hash(c), pos, |t|) >= j; }
    }
    forall h: int, d: nat | PathBlocked(t, hash, h, d)
      ensures PathBlocked(t', hash, h, d)
    {
      forall j: nat | j < d ensures Blocked(t', hash, h, j) { assert Blocked(t, hash, h, j); }
    }
    forall p: nat | p < |t'| && t'[p].Full?
      ensures PathBlocked(t', hash, hash(t'[p].elem), Dist(hash(t'[p].elem), p, |t'|))
    {
      if p != pos { assert t[p].Full?; }
    }
  }

  /** A full circle of blocked slots leaves no empty one. */
  lemma NoRoomOnFullCircle<E>(t: Table<E>, hash: E -> int, h: int, z: nat)
    requires z < |t| && PathBlocked(t, hash, h, |t|)
    ensures t[z].Full?
  {
    assert Blocked(t, hash, h, Dist(h, z, |t|));
  }

  /** An element of the table that is recognised as e hashes like e. */
  ghost predicate TwinsShareHash<E(!new), T>(t: Table<E>, hash: E -> int, tag: E -> T, e: E)
  {
    forall x :: Has(t, x) && tag(x) == tag(e) ==> hash(x) == hash(e)
  }

  /** The slot z puts an end to the insertion of e: it is free, or holds what e is to replace. */
  predicate Stop<E, T(==)>(t: Table<E>, tag: E -> T, e: E, z: nat)
  {
    z < |t| && (t[z].Empty? || tag(t[z].elem) == tag(e))
  }

  ghost predicate CanEnd<E(!new), T>(t: Table<E>, tag: E -> T, e: E)
  {
    HasRoom(t) || exists x :: Has(t, x) && tag(x) == tag(e)
  }

  lemma SomeStop<E(!new), T>(t: Table<E>, tag: E -> T, e: E) returns (z: nat)
    requires CanEnd(t, tag, e)
    ensures Stop(t, tag, e, z)
  {
    if HasRoom(t) {
      z :| z < |t| && t[z] == Empty;
    } else {
      var x :| Has(t, x) && tag(x) == tag(e);
      z :| z < |t| && t[z] == Full(x);
    }
  }

  lemma StopIsFree<E(!new), T>(t: Table<E>, tag: E -> T, e: E, z: nat)
    requires Stop(t, tag, e, z) && forall x :: Has(t, x) ==> tag(x) != tag(e)
    ensures t[z].Empty?
  {
    if t[z].Full? { TwinInSlot(t, tag, e, z); }
  }

  lemma TwinInSlot<E(!new), T>(t: Table<E>, tag: E -> T, e: E, z: nat)
    requires Stop(t, tag, e, z) && t[z].Full?
    ensures exists x :: Has(t, x) && tag(x) == tag(e)
  {
    assert Has(t, t[z].elem);
  }

  /** The table holds e in addition, in place of an element of the same tag if there was one. */
  ghost predicate Extends<E(!new), T>(t0: Table<E>, t: Table<E>, tag: E -> T, e: E)
  {
    forall x :: Has(t, x) <==> x == e || (Has(t0, x) && tag(x) != tag(e))
  }

  /** What a table holds after one slot is set, when no other slot has the new element's tag. */
  lemma SetSlot<E(!new), T>(t: Table<E>, tag: E -> T, pos: nat, c: E)
    requires Unique(t, tag) && pos < |t|
    requires forall p: nat :: p < |t| && p != pos && t[p].Full? ==> tag(t[p].elem) != tag(c)
    ensures Unique(t[pos := Full(c)], tag)
    ensures forall x :: Has(t[pos := Full(c)], x) <==> x == c || (Has(t, x) && t[pos] != Full(x))
    ensures forall x :: Has(t, x) && t[pos].Full? && tag(x) == tag(t[pos].elem) ==> t[pos] == Full(x)
  {
    var t' := t[pos := Full(c)];
    forall x
      ensures Has(t', x) <==> x == c || (Has(t, x) && t[pos] != Full(x))
    {
      assert t'[pos] == Full(c);
      if Has(t', x) {
        var p :| 0 <= p < |t'| && t'[p] == Full(x);
        assert p != pos ==> t[p] == Full(x);
      }
      if Has(t, x) && t[pos] != Full(x) {
        var p :| 0 <= p < |t| && t[p] == Full(x);
        assert t'[p] == Full(x);
      }
    }
  }

  /** Where the search for e may not go on, no element with e's tag is in the table. */
  lemma TagIsNew<E(!new), T>(t: Table<E>, hash: E -> int, tag: E -> T, e: E, dist: nat)
    requires Ordered(t, hash) && TwinsShareHash(t, hash, tag, e)
    requires dist < |t| && !Blocked(t, hash, hash(e), dist)
    requires forall x :: Has(t, x) && tag(x) == tag(e) ==> AtOrPast(t, hash, x, dist)
    ensures forall p: nat :: p < |t| && t[p].Full? ==> tag(t[p].elem) != tag(e)
  {
    forall p: nat | p < |t| && t[p].Full?
      ensures tag(t[p].elem) != tag(e)
    {
      var x := t[p].elem;
      assert Has(t, x);
      if tag(x) == tag(e) { NothingAhead(t, hash, hash(e), dist, p); }
    }
  }

  /** One more element of the same home passed: e's tag is not there either. */
  lemma PastOneMore<E(!new), T>(t: Table<E>, hash: E -> int, tag: E -> T, e: E, dist: nat)
    requires dist < |t| && TwinsShareHash(t, hash, tag, e)
    requires t[At(hash(e), dist, |t|)].Full? && tag(t[At(hash(e), dist, |t|)].elem) != tag(e)
    requires forall x :: Has(t, x) && tag(x) == tag(e) ==> AtOrPast(t, hash, x, dist)
    ensures forall x :: Has(t, x) && tag(x) == tag(e) ==> AtOrPast(t, hash, x, dist + 1)
  {
    forall x, p: nat | Has(t, x) && tag(x) == tag(e) && p < |t| && t[p] == Full(x)
      ensures Dist(hash(x), p, |t|) >= dist + 1
    {
      assert AtOrPast(t, hash, x, dist);
      assert At(hash(x), Dist(hash(x), p, |t|), |t|) == p;
    }
  }

  /** Midway through an insertion into t0: the table t is in order, the element c is in hand and has
      travelled dist slots.  Until something has been displaced, c is still e. */
  ghost predicate Carrying<E(!new), T>(t0: Table<E>, t: Table<E>, hash: E -> int, tag: E -> T, e: E, c: E, dist: nat)
  {
    && Ordered(t, hash) && Unique(t, tag)
    && |t| == |t0| && dist < |t| && PathBlocked(t, hash, hash(c), dist)
    && CountFull(t) == CountFull(t0)
    && (Searching(t0, t, hash, tag, e, c, dist) || Displaced(t0, t, tag, e, c))
  }

  ghost predicate Searching<E(!new), T>(t0: Table<E>, t: Table<E>, hash: E -> int, tag: E -> T, e: E, c: E, dist: nat)
  {
    t == t0 && c == e && forall x :: Has(t0, x) && tag(x) == tag(e) ==> AtOrPast(t0, hash, x, dist)
  }

  ghost predicate Displaced<E(!new), T>(t0: Table<E>, t: Table<E>, tag: E -> T, e: E, c: E)
  {
    && (forall x :: Has(t0, x) ==> tag(x) != tag(e))
    && (forall x :: Has(t, x) || x == c <==> Has(t0, x) || x == e)
    && (forall p: nat :: p < |t| && t[p].Full? ==> tag(t[p].elem) != tag(c))
  }

  /** Insertion is over. */
  ghost predicate Done<E(!new), T>(t0: Table<E>, t: Table<E>, hash: E -> int, tag: E -> T, e: E, overwritten: bool)
  {
    && Ordered(t, hash) && Unique(t, tag)
    && Extends(t0, t, tag, e)
    && (overwritten <==> exists x :: Has(t0, x) && tag(x) == tag(e))
    && CountFull(t) == CountFull(t0) + if overwritten then 0 else 1
  }

  /** c's tag is nowhere in the table once c may take a slot that does not hold it. */
  lemma NoTwin<E(!new), T>(t0: Table<E>, t: Table<E>, hash: E -> int, tag: E -> T, e: E, c: E, dist: nat)
    requires Carrying(t0, t, hash, tag, e, c, dist) && TwinsShareHash(t0, hash, tag, e)
    requires !Blocked(t, hash, hash(c), dist)
    ensures forall p: nat :: p < |t| && t[p].Full? ==> tag(t[p].elem) != tag(c)
    ensures forall x :: Has(t, x) ==> tag(x) != tag(c)
    ensures forall x :: Has(t0, x) ==> tag(x) != tag(e)
    ensures forall x :: Has(t, x) || x == c <==> Has(t0, x) || x == e
  {
    if Searching(t0, t, hash, tag, e, c, dist) { TagIsNew(t, hash, tag, c, dist); }
  }

  lemma TakeEmptySlot<E(!new), T>(t0: Table<E>, t: Table<E>, hash: E -> int, tag: E -> T, e: E, c: E, dist: nat)
    requires Carrying(t0, t, hash, tag, e, c, dist) && TwinsShareHash(t0, hash, tag, e)
    requires t[At(hash(c), dist, |t|)].Empty?
    ensures Done(t0, t[At(hash(c), dist, |t|) := Full(c)], hash, tag, e, false)
  {
    var pos := At(hash(c), dist, |t|);
    NoTwin(t0, t, hash, tag, e, c, dist);
    DistOfAt(hash(c), dist, |t|);
    Upgrade(t, hash, pos, c);
    SetSlot(t, tag, pos, c);
    CountFullUpdate(t, pos, Full(c));
  }

  lemma OverwriteTwin<E(!new), T>(t0: Table<E>, t: Table<E>, hash: E -> int, tag: E -> T, e: E, c: E, dist: nat)
    requires Carrying(t0, t, hash, tag, e, c, dist) && TwinsShareHash(t0, hash, tag, e)
    requires t[At(hash(c), dist, |t|)].Full? && tag(t[At(hash(c), dist, |t|)].elem) == tag(c)
    ensures c == e && Done(t0, t[At(hash(c), dist, |t|) := Full(c)], hash, tag, e, true)
  {
    var pos := At(hash(c), dist, |t|);
    assert Searching(t0, t, hash, tag, e, c, dist);
    assert Has(t, t[pos].elem);
    DistOfAt(hash(c), dist, |t|);
    Upgrade(t, hash, pos, c);
    SetSlot(t, tag, pos, c);
    CountFullUpdate(t, pos, Full(c));
  }

  lemma TakeRicherSlot<E(!new), T>(t0: Table<E>, t: Table<E>, hash: E -> int, tag: E -> T, e: E, c: E, dist: nat, z: nat)
    requires Carrying(t0, t, hash, tag, e, c, dist) && TwinsShareHash(t0, hash, tag, e)
    requires t[At(hash(c), dist, |t|)].Full? && !Blocked(t, hash, hash(c), dist)
    requires Stop(t0, tag, e, z) && t[z] == t0[z]
    ensures var pos := At(hash(c), dist, |t|);
      var x := t[pos].elem;
      && Has(t, x)
      && Carrying(t0, t[pos := Full(c)], hash, tag, e, x, Dist(hash(x), pos, |t|) + 1)
  {
    var pos := At(hash(c), dist, |t|);
    var x, t' := t[pos].elem, t[pos := Full(c)];
    var d := Dist(hash(x), pos, |t|);
    assert Has(t, x);
    NoTwin(t0, t, hash, tag, e, c, dist);
    DistOfAt(hash(c), dist, |t|);
    Upgrade(t, hash, pos, c);
    SetSlot(t, tag, pos, c);
    CountFullUpdate(t, pos, Full(c));
    assert Blocked(t', hash, hash(x), d);
    StopIsFree(t0, tag, e, z);
    if d + 1 == |t| { NoRoomOnFullCircle(t', hash, hash(x), z); }
    assert Displaced(t0, t', tag, e, x) by {
      forall p: nat | p < |t'| && t'[p].Full? ensures tag(t'[p].elem) != tag(x) {
        if p != pos { assert t[p].Full? && t[pos].Full?; }
      }
    }
  }

  lemma PassPoorerSlot<E(!new), T>(t0: Table<E>, t: Table<E>, hash: E -> int, tag: E -> T, e: E, c: E, dist: nat, z: nat)
    requires Carrying(t0, t, hash, tag, e, c, dist) && TwinsShareHash(t0, hash, tag, e)
    requires Blocked(t, hash, hash(c), dist) && tag(t[At(hash(c), dist, |t|)].elem) != tag(c)
    requires Stop(t0, tag, e, z) && t[z] == t0[z]
    ensures Carrying(t0, t, hash, tag, e, c, dist + 1)
  {
    assert t0[z].Full? ==> Has(t0, t0[z].elem);
    if dist + 1 == |t| && t[z].Empty? { NoRoomOnFullCircle(t, hash, hash(c), z); }
    if Searching(t0, t, hash, tag, e, c, dist) { PastOneMore(t, hash, tag, e, dist); }
  }

  /** The insertion ends where it has to. */
  lemma EndsThere<E(!new), T>(t0: Table<E>, t: Table<E>, hash: E -> int, tag: E -> T, e: E, c: E, dist: nat, z: nat)
    requires Carrying(t0, t, hash, tag, e, c, dist) && Stop(t0, tag, e, z) && t[z] == t0[z]
    ensures t[z].Empty? || tag(t[z].elem) == tag(c)
  {
    assert t0[z].Full? ==> Has(t0, t0[z].elem);
  }

  // ---- who takes the free slot -----------------------------------------------------------------------------

  /** How far the first free slot is from the home slot; |t| if there is none. */
  function FreeFrom<E>(t: Table<E>, h: int, i: nat): (k: nat)
    requires i <= |t|
    ensures i <= k <= |t|
    decreases |t| - i
  {
    if i == |t| || t[At(h, i, |t|)].Empty? then i else FreeFrom(t, h, i + 1)
  }

  /** The element in hand after i slots, and how far it has travelled: at each slot the one that has travelled
      further stays. */
  function InHand<E>(t: Table<E>, hash: E -> int, e: E, i: nat): (E, nat)
    requires i <= |t|
  {
    if i == 0 then (e, 0)
    else
      var (c, dist) := InHand(t, hash, e, i - 1);
      var pos := At(hash(e), i - 1, |t|);
      if t[pos].Full? && Dist(hash(t[pos].elem), pos, |t|) < dist
      then (t[pos].elem, Dist(hash(t[pos].elem), pos, |t|) + 1)
      else (c, dist + 1)
  }

  /** Who ends up in the free slot when e, which is new, is inserted. */
  function Lands<E>(t: Table<E>, hash: E -> int, e: E): E { InHand(t, hash, e, FreeFrom(t, hash(e), 0)).0 }

  lemma {:induction false} FreeIs<E>(t: Table<E>, h: int, i: nat, k: nat)
    requires i <= k < |t| && t[At(h, k, |t|)].Empty? && forall j: nat :: i <= j < k ==> t[At(h, j, |t|)].Full?
    ensures FreeFrom(t, h, i) == k
    decreases k - i
  {
    if i < k { FreeIs(t, h, i + 1, k); }
  }

  /** The slots from the i-th on are as they were; those before it are taken. */
  ghost predicate AsBefore<E>(t0: Table<E>, t: Table<E>, h: int, i: nat)
  {
    && |t| == |t0| && i <= |t|
    && (forall j: nat :: i <= j < |t| ==> t[At(h, j, |t|)] == t0[At(h, j, |t|)])
    && forall j: nat :: j < i ==> t0[At(h, j, |t|)].Full?
  }

  lemma AsBeforeNext<E>(t0: Table<E>, t: Table<E>, h: int, i: nat, s: Slot<E>)
    requires i < |t| && AsBefore(t0, t, h, i) && t[At(h, i, |t|)].Full?
    ensures AsBefore(t0, t[At(h, i, |t|) := s], h, i + 1) && AsBefore(t0, t, h, i + 1)
  {
    var pos := At(h, i, |t|);
    var t' := t[pos := s];
    DistOfAt(h, i, |t|);
    forall j: nat | i < j < |t|
      ensures t'[At(h, j, |t|)] == t0[At(h, j, |t|)]
    {
      DistOfAt(h, j, |t|);
    }
  }

  /** The next slot of one hash's path. */
  lemma OneStep(h: int, i: nat, cap: nat)
    requires i + 1 < cap
    ensures Next(At(h, i, cap), cap) == At(h, i + 1, cap)
  {
    DistOfAt(h, i, cap);
  }

  /** insert of rhh.go, insertKeyIDMap and insertIDOffsetMap: `tag` is what each of them compares to
      recognise the element itself.  `last` is the element that took the final slot, after `steps` others. */
  method Insert<E(!new), T(==)>(t: array<Slot<E>>, hash: E -> int, tag: E -> T, e: E)
    returns (overwritten: bool, last: E, ghost steps: nat)
    requires Ordered(t[..], hash) && Unique(t[..], tag) && TwinsShareHash(t[..], hash, tag, e)
    requires CanEnd(t[..], tag, e)
    modifies t
    ensures Ordered(t[..], hash) && Unique(t[..], tag)
    ensures Extends(old(t[..]), t[..], tag, e)
    ensures overwritten <==> exists x :: Has(old(t[..]), x) && tag(x) == tag(e)
    ensures CountFull(t[..]) == CountFull(old(t[..])) + if overwritten then 0 else 1
    ensures last == if overwritten then e else Lands(old(t[..]), hash, e)
    ensures last == e || Has(old(t[..]), last)
    ensures steps < t.Length
    ensures var home := Home(hash(e), t.Length); old(t[home]).Empty? ==> t[..] == old(t[..])[home := Full(e)]
  {
    hide PathBlocked, Ordered, Unique, Extends, CountFull, TwinsShareHash, Searching, Displaced, Has, InHand, FreeFrom, AsBefore, At, Dist, Home, Next, Lands, CanEnd, Stop;
    var cap := t.Length;
    ghost var t0 := t[..];
    ghost var z := SomeStop(t0, tag, e);
    assert z < cap by { SlotOf(t0, tag, e, z); }
    ghost var h := hash(e);
    var c, dist: nat := e, 0;
    var pos: nat := Home(hash(c), cap);
    steps := 0;
    StartCarrying(t0, hash, tag, e);
    StartInHand(t0, hash, e);
    while true
      invariant Carrying(t0, t[..], hash, tag, e, c, dist) && pos == At(hash(c), dist, cap)
      invariant t[z] == t0[z] && (c == e || Has(t0, c))
      invariant steps <= Dist(h, z, cap) && pos == At(h, steps, cap)
      invariant AsBefore(t0, t[..], h, steps) && InHand(t0, hash, e, steps) == (c, dist)
      decreases cap - steps
    {
      ghost var now := t[..];
      DistOfAt(hash(c), dist, cap);
      StillSame(t0, now, h, steps, z);
      if t[pos].Empty? {
        HomeIsTaken(t0, now, hash, e, steps);
        TakeEmptySlot(t0, now, hash, tag, e, c, dist);
        LandsHere(t0, now, hash, e, steps);
        t[pos] := Full(c);
        assert t[..] == now[pos := Full(c)];
        return false, c, steps;
      }
      var x := t[pos].elem;
      if tag(x) == tag(c) {
        HomeIsTaken(t0, now, hash, e, steps);
        OverwriteTwin(t0, now, hash, tag, e, c, dist);
        t[pos] := Full(c);
        assert t[..] == now[pos := Full(c)];
        return true, c, steps;
      }
      EndsThere(t0, now, hash, tag, e, c, dist, z);
      OneStep(h, steps, cap);
      AsBeforeNext(t0, now, h, steps, Full(c));
      NextInHand(t0, hash, e, steps);
      var d := Dist(hash(x), pos, cap);
      if d < dist {
        TakeRicherSlot(t0, now, hash, tag, e, c, dist, z);
        CarriedFrom(t0, now, hash, tag, e, c, dist, x);
        t[pos] := Full(c);
        assert t[..] == now[pos := Full(c)];
        c, dist := x, d;
        DistOfAt(hash(c), dist, cap);
      } else {
        PassPoorerSlot(t0, now, hash, tag, e, c, dist, z);
      }
      pos := Next(pos, cap);
      dist := dist + 1;
      steps := steps + 1;
    }
  }

  // ---- without an end ---------------------------------------------------------------------------------------

  /** The loop of insert between two slots. */
  datatype Walk<+E> = Walk(t: Table<E>, c: E, pos: nat, dist: nat)

  function Begin<E>(t: Table<E>, hash: E -> int, e: E): Walk<E>
    requires |t| > 0
  {
    Walk(t, e, Home(hash(e), |t|), 0)
  }

  /** The slot is free, or holds what is in hand. */
  predicate Over<E, T(==)>(w: Walk<E>, tag: E -> T) { Stop(w.t, tag, w.c, w.pos) }

  /** One round of the loop, at a slot where it is not over. */
  function Round<E>(w: Walk<E>, hash: E -> int): Walk<E>
    requires w.pos < |w.t| && w.t[w.pos].Full?
  {
    var x, next := w.t[w.pos].elem, Next(w.pos, |w.t|);
    var d := Dist(hash(x), w.pos, |w.t|);
    if d < w.dist then Walk(w.t[w.pos := Full(w.c)], x, next, d + 1) else Walk(w.t, w.c, next, w.dist + 1)
  }

  /** No slot is free, and none holds what is in hand. */
  ghost predicate Lost<E, T>(w: Walk<E>, tag: E -> T)
  {
    && w.pos < |w.t| && Unique(w.t, tag)
    && forall p: nat :: p < |w.t| ==> w.t[p].Full? && tag(w.t[p].elem) != tag(w.c)
  }

  lemma LostForGood<E(!new), T>(w: Walk<E>, hash: E -> int, tag: E -> T)
    requires Lost(w, tag)
    ensures !Over(w, tag) && Lost(Round(w, hash), tag)
  {
    hide Dist;
    var x, w' := w.t[w.pos].elem, Round(w, hash);
    if w'.t != w.t {
      SetSlot(w.t, tag, w.pos, w.c);
      forall p: nat | p < |w.t|
        ensures w'.t[p].Full? && tag(w'.t[p].elem) != tag(x)
      {
        assert w.t[p].Full?;
      }
    }
  }

  /** The loop after k rounds, or where it was over. */
  ghost function Rounds<E, T>(w: Walk<E>, hash: E -> int, tag: E -> T, k: nat): Walk<E>
    requires w.pos < |w.t|
    decreases k
  {
    if k == 0 || Over(w, tag) then w else Rounds(Round(w, hash), hash, tag, k - 1)
  }

  lemma {:induction false} LostForever<E(!new), T>(w: Walk<E>, hash: E -> int, tag: E -> T, k: nat)
    requires Lost(w, tag)
    ensures !Over(Rounds(w, hash, tag, k), tag)
    decreases k
  {
    LostForGood(w, hash, tag);
    if k > 0 { LostForever(Round(w, hash), hash, tag, k - 1); }
  }

  /** Into a full table that has no element of its tag, an insertion goes on forever. */
  lemma NeverEnds<E(!new), T>(t: Table<E>, hash: E -> int, tag: E -> T, e: E, k: nat)
    requires |t| > 0 && Unique(t, tag) && !CanEnd(t, tag, e)
    ensures !Over(Rounds(Begin(t, hash, e), hash, tag, k), tag)
  {
    forall p: nat | p < |t|
      ensures t[p].Full? && tag(t[p].elem) != tag(e)
    {
      if t[p].Full? { assert Has(t, t[p].elem); }
    }
    LostForever(Begin(t, hash, e), hash, tag, k);
  }

  lemma StartInHand<E>(t: Table<E>, hash: E -> int, e: E)
    requires |t| > 0
    ensures AsBefore(t, t, hash(e), 0) && InHand(t, hash, e, 0) == (e, 0) && Home(hash(e), |t|) == At(hash(e), 0, |t|)
  {
  }

  /** Beyond the home slot, that slot was not free; at the home slot, nothing has changed yet. */
  lemma HomeIsTaken<E>(t0: Table<E>, t: Table<E>, hash: E -> int, e: E, i: nat)
    requires AsBefore(t0, t, hash(e), i) && i < |t|
    ensures i > 0 ==> t0[Home(hash(e), |t|)].Full?
    ensures i == 0 ==> t == t0 && At(hash(e), i, |t|) == Home(hash(e), |t|) && InHand(t0, hash, e, i) == (e, 0)
  {
    var h := hash(e);
    assert At(h, 0, |t|) == Home(h, |t|);
    if i == 0 {
      forall p: nat | p < |t| ensures t[p] == t0[p] { assert At(h, Dist(h, p, |t|), |t|) == p; }
    }
  }

  lemma NextInHand<E>(t: Table<E>, hash: E -> int, e: E, i: nat)
    requires i < |t|
    ensures var (c, dist) := InHand(t, hash, e, i);
      var pos := At(hash(e), i, |t|);
      InHand(t, hash, e, i + 1) ==
      if t[pos].Full? && Dist(hash(t[pos].elem), pos, |t|) < dist
      then (t[pos].elem, Dist(hash(t[pos].elem), pos, |t|) + 1)
      else (c, dist + 1)
  {
  }

  lemma SlotOf<E, T>(t: Table<E>, tag: E -> T, e: E, z: nat)
    requires Stop(t, tag, e, z)
    ensures z < |t|
  {
  }

  /** The slot looked at is as it was, and until the slot z there is another one ahead. */
  lemma StillSame<E>(t0: Table<E>, t: Table<E>, h: int, i: nat, z: nat)
    requires AsBefore(t0, t, h, i) && z < |t| && i <= Dist(h, z, |t|)
    ensures i < |t| && t[At(h, i, |t|)] == t0[At(h, i, |t|)]
    ensures At(h, i, |t|) != z ==> i + 1 <= Dist(h, z, |t|) && i + 1 < |t|
  {
    assert At(h, Dist(h, z, |t|), |t|) == z;
  }

  lemma LandsHere<E>(t0: Table<E>, t: Table<E>, hash: E -> int, e: E, i: nat)
    requires AsBefore(t0, t, hash(e), i) && i < |t| && t[At(hash(e), i, |t|)].Empty?
    ensures Lands(t0, hash, e) == InHand(t0, hash, e, i).0
  {
    hide At, InHand;
    FreeIs(t0, hash(e), 0, i);
  }

  lemma StartCarrying<E(!new), T>(t: Table<E>, hash: E -> int, tag: E -> T, e: E)
    requires Ordered(t, hash) && Unique(t, tag) && |t| > 0
    ensures Carrying(t, t, hash, tag, e, e, 0)
  {
  }

  /** Whatever the table holds midway was there before or is the new element. */
  lemma CarriedFrom<E(!new), T>(t0: Table<E>, t: Table<E>, hash: E -> int, tag: E -> T, e: E, c: E, dist: nat, x: E)
    requires Carrying(t0, t, hash, tag, e, c, dist) && Has(t, x)
    ensures x == e || Has(t0, x)
  {
  }

  /** Wherever x sits, its distance is at least d. */
  ghost predicate AtOrPast<E>(t: Table<E>, hash: E -> int, x: E, d: nat)
  {
    forall p: nat :: p < |t| && t[p] == Full(x) ==> Dist(hash(x), p, |t|) >= d
  }
}
