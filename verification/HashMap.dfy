/** The in-memory hash map of pkg/rhh/rhh.go, refined to a mathematical map. */
module HashMap {
  import opened Collections
  import opened Bytes
  import opened RobinHood

  datatype Elem<+V> = Elem(key: Text, value: V)

  function KeyOf<V>(e: Elem<V>): Text { e.key }

  /** Elements hash by their key. */
  function ByKey<V>(hashKey: Text -> int): Elem<V> -> int { (e: Elem<V>) => hashKey(e.key) }

  ghost predicate IsPow2(n: nat) { exists k: nat :: Pow2(k) == n }

  /** pow2: the least power of two that is at least 2 and at least v; nothing where the original panics. */
  method NextPow2(v: int) returns (r: Option<nat>)
    ensures r.None? <==> v >= 0x2000_0000_0000_0001
    ensures r.Some? ==> IsPow2(r.value) && r.value >= 2 && r.value >= v
    ensures r.Some? ==> forall k: nat :: k >= 1 && Pow2(k) >= v ==> r.value <= Pow2(k)
  {
    var i, k := 2, 1;
    assert Pow2(1) == 2 by { assert Pow2(0) == 1; }
    while i < 0x4000_0000_0000_0000
      invariant k >= 1 && i == Pow2(k) && 2 <= i <= 0x4000_0000_0000_0000 && 1 <= k <= 62
      invariant i == 0x4000_0000_0000_0000 <==> k == 62
      invariant k > 1 ==> Pow2(k - 1) < v
      decreases 62 - k
    {
      if i >= v {
        Pow2Monotone(k, 61);
        Pow2Small(61);
        forall j: nat | j >= 1 && Pow2(j) >= v
          ensures i <= Pow2(j)
        {
          if j >= k { Pow2Monotone(k, j); } else { Pow2Monotone(j, k - 1); }
        }
        return Some(i);
      }
      Pow2Small(k);
      Pow2Small(k + 1);
      i, k := i * 2, k + 1;
    }
    Pow2Small(61);
    return None;
  }

  lemma Pow2Small(k: nat)
    ensures Pow2(61) == 0x2000_0000_0000_0000 && Pow2(62) == 0x4000_0000_0000_0000
    ensures k < 62 ==> Pow2(k) < 0x4000_0000_0000_0000
  {
    assert Pow2(16) == 0x1_0000 by { assert Pow2(8) == 0x100; }
    assert Pow2(24) == 0x100_0000;
    assert Pow2(32) == 0x1_0000_0000;
    assert Pow2(40) == 0x100_0000_0000;
    assert Pow2(48) == 0x1_0000_0000_0000;
    assert Pow2(56) == 0x100_0000_0000_0000;
    assert Pow2(61) == 0x2000_0000_0000_0000;
    if k < 62 { Pow2Monotone(k, 62); }
  }

  /** The table holds exactly the pairs of the map. */
  ghost predicate Represents<V(!new)>(t: Table<Elem<V>>, m: map<Text, V>)
  {
    forall e :: Has(t, e) <==> e.key in m && m[e.key] == e.value
  }

  class HashMap<V(!new)> {
    const hashKey: Text -> int
    const loadFactor: nat
    var slots: array<Slot<Elem<V>>>
    var n: int
    ghost var contents: map<Text, V>

    /** The slots are in order and hold the contents. */
    ghost predicate Sound()
      reads this, slots
    {
      && slots.Length > 0 && IsPow2(slots.Length)
      && Ordered(slots[..], ByKey(hashKey)) && Unique(slots[..], KeyOf)
      && Represents(slots[..], contents)
    }

    /** The count is right. */
    ghost predicate Valid()
      reads this, slots
    {
      Sound() && n == CountFull(slots[..])
    }

    /** There is a free slot unless the next Put grows the table. */
    ghost predicate Ready()
      reads this, slots
    {
      Sound() && (n < Threshold() ==> HasRoom(slots[..]))
    }

    /** A count that is right keeps a slot free, if the load factor is no more than 100. */
    lemma ValidIsReady()
      requires Valid() && loadFactor <= 100
      ensures Ready()
    {
      hide Ordered, Unique, CountFull, Represents, HasRoom, IsPow2;
      LoadBelow(slots.Length, loadFactor);
      RoomByCount(slots[..]);
    }

    function Threshold(): int
      reads this
    {
      slots.Length * loadFactor / 100
    }

    /** NewHashMap with a capacity already rounded up by pow2. */
    constructor (capacity: nat, loadFactor: nat, hashKey: Text -> int)
      requires capacity > 0 && IsPow2(capacity)
      ensures Valid() && contents == map[] && fresh(slots)
      ensures slots.Length == capacity && this.loadFactor == loadFactor && this.hashKey == hashKey
      ensures forall p :: 0 <= p < capacity ==> slots[p] == Empty
    {
      this.hashKey, this.loadFactor := hashKey, loadFactor;
      slots := new Slot<Elem<V>>[capacity](_ => Empty);
      n := 0;
      contents := map[];
      new;
      NothingInEmptyTable(slots[..]);
    }

    /** The value of the key, or nothing. */
    method Get(key: Text) returns (r: Option<V>)
      requires Sound()
      ensures r == if key in contents then Some(contents[key]) else None
    {
      assert key in contents ==> Has(slots[..], Elem(key, contents[key]));
      var i, probes := Lookup(slots[..], ByKey(hashKey), hashKey(key), (e: Elem<V>) => e.key == key);
      if i == -1 {
        return None;
      }
      assert Has(slots[..], slots[..][i].elem);
      return Some(slots[i].elem.value);
    }

    /** insert; the result is what the original calls `match`: the last element placed had the key of the
        slot it took, where an empty slot has the empty key. */
    method InsertElem(key: Text, value: V) returns (matched: bool)
      requires Sound() && (HasRoom(slots[..]) || key in contents)
      modifies this`contents, slots
      ensures Sound() && contents == old(contents)[key := value]
      ensures CountFull(slots[..]) == CountFull(old(slots[..])) + if key in old(contents) then 0 else 1
      ensures matched <==> key in old(contents) || Lands(old(slots[..]), ByKey(hashKey), Elem(key, value)).key == []
      ensures key !in old(contents) && matched ==> key == [] || [] in old(contents)
      ensures HomeSlot(old(slots[..]), hashKey(key)) == Empty ==>
        slots[..] == old(slots[..])[Home(hashKey(key), slots.Length) := Full(Elem(key, value))]
    {
      hide Ordered, Unique, CountFull, Extends, Represents, TwinsShareHash, HasRoom, IsPow2, Lands, CanEnd;
      ghost var t0 := slots[..];
      assert Represents(t0, contents);
      HashedByKey(t0, hashKey, Elem(key, value));
      KnownCanEnd(t0, contents, Elem(key, value));
      var overwritten, last, steps := Insert(slots, ByKey(hashKey), KeyOf<V>, Elem(key, value));
      matched := overwritten || last.key == [];
      RepresentsExtended(t0, slots[..], contents, key, value);
      if Has(t0, last) { KeyIsKnown(t0, contents, last); }
      contents := contents[key := value];
    }

    /** grow: twice the capacity, every element inserted again. */
    method Grow()
      requires Sound()
      modifies this`slots
      ensures Sound() && fresh(slots) && slots.Length == 2 * old(slots.Length)
      ensures CountFull(slots[..]) == CountFull(old(slots[..]))
    {
      hide Ordered, Unique, CountFull, Extends, TwinsShareHash, HasRoom, IsPow2;
      var old' := slots;
      ghost var t0 := slots[..];
      Pow2Doubles(slots.Length);
      slots := new Slot<Elem<V>>[2 * slots.Length](_ => Empty);
      EmptyTable(slots[..], ByKey(hashKey));
      NothingInEmptyTable(t0[..0]);
      for i := 0 to old'.Length
        invariant slots.Length == 2 * old'.Length && fresh(slots) && old'[..] == t0
        invariant Ordered(slots[..], ByKey(hashKey)) && Unique(slots[..], KeyOf)
        invariant CountFull(slots[..]) == CountFull(t0[..i])
        invariant forall e :: Has(slots[..], e) <==> Has(t0[..i], e)
      {
        ghost var t1 := slots[..];
        OneMoreSlot(t0, i);
        if old'[i].Full? {
          assert t0[i] == old'[i];
          RoomByCount(t1);
          HashedByKey(t1, hashKey, old'[i].elem);
          var _, _, _ := Insert(slots, ByKey(hashKey), KeyOf<V>, old'[i].elem);
          ExtendedFresh(t1, slots[..], old'[i].elem);
        }
      }
      assert t0[..|t0|] == t0;
      assert Represents(slots[..], contents);
    }

    /** Put: the contents are updated, unless the insertion goes on forever, which `ended` tells.  The count is raised
        for a new key, except when the element that takes the free slot, of the table the insertion starts from, has the
        empty key. */
    method Put(key: Text, value: V) returns (ended: bool, ghost t: Table<Elem<V>>)
      requires Sound()
      modifies this, slots
      ensures Sound() && Represents(t, old(contents)) && |t| == slots.Length && (slots == old(slots) || fresh(slots))
      ensures old(n) < old(Threshold()) ==> slots == old(slots) && t == old(slots[..])
      ensures ended <==> old(n) >= old(Threshold()) || HasRoom(old(slots[..])) || key in old(contents)
      ensures !ended ==> contents == old(contents) && slots[..] == old(slots[..]) && !CanEnd(t, KeyOf, Elem(key, value))
      ensures ended ==> contents == old(contents)[key := value]
      ensures ended ==> CountFull(slots[..]) == CountFull(old(slots[..])) + if key in old(contents) then 0 else 1
      ensures ended ==>
        n == old(n) + if key in old(contents) || Lands(t, ByKey(hashKey), Elem(key, value)).key == [] then 0 else 1
      ensures ended && HomeSlot(t, hashKey(key)) == Empty ==>
        slots[..] == t[Home(hashKey(key), |t|) := Full(Elem(key, value))]
      ensures ended && old(Valid()) ==>
        (Valid() <==> key in old(contents) || Lands(t, ByKey(hashKey), Elem(key, value)).key != [])
      ensures ended && old(Valid()) && key != [] && [] !in old(contents) ==> Valid()
    {
      hide Ordered, Unique, CountFull, Represents, TwinsShareHash, IsPow2, Lands, HasRoom, CanEnd;
      n := n + 1;
      FullAtMost(slots[..]);
      if n > Threshold() {
        Grow();
        RoomByCount(slots[..]);
      }
      t := slots[..];
      KnownCanEnd(t, contents, Elem(key, value));
      RoomByCount(t);
      // The original has no such test: without it the loop below would not end (RobinHood.NeverEnds).
      var known := Get(key);
      ended := CountFull(slots[..]) < slots.Length || known.Some?;
      if !ended {
        return;
      }
      var overwritten := InsertElem(key, value);
      if overwritten {
        n := n - 1;
      }
    }
  }

  /** The slot a hash is at home in. */
  function HomeSlot<V>(t: Table<Elem<V>>, hash: int): Slot<Elem<V>>
    requires |t| > 0
  {
    t[Home(hash, |t|)]
  }

  lemma KnownCanEnd<V(!new)>(t: Table<Elem<V>>, m: map<Text, V>, e: Elem<V>)
    requires Represents(t, m)
    ensures CanEnd(t, KeyOf, e) <==> HasRoom(t) || e.key in m
  {
    hide HasRoom;
    if e.key in m { assert Has(t, Elem(e.key, m[e.key])); }
  }

  /** With [1] and [2] at home in neighbouring slots the empty key takes the slot of [2], which is counted in its place. */
  method EmptyKeyIsCounted<V(!new)>(hashKey: Text -> int, v: V) returns (n: int, ghost contents: map<Text, V>)
    requires hashKey([1]) % 4 == 0 && hashKey([2]) % 4 == 1 && hashKey([]) % 4 == 0
    ensures n == 3
    ensures contents == map[[1] := v, [2] := v, [] := v]
  {
    hide Lands, HashMap<V>.Sound, HasRoom;
    var m := TwoKeys(hashKey, [1], [2], v);
    LandsThird(hashKey, Elem([1], v), Elem([2], v), Elem([], v));
    var ended, t := m.Put([], v);
    return m.n, m.contents;
  }

  /** A key that pushes the empty key on into the free slot is not counted, nor was the empty key before it. */
  method OtherKeyIsNotCounted<V(!new)>(hashKey: Text -> int, v: V) returns (n: int, ghost contents: map<Text, V>)
    requires hashKey([1]) % 4 == 0 && hashKey([]) % 4 == 1 && hashKey([2]) % 4 == 0
    ensures n == 1
    ensures contents == map[[1] := v, [] := v, [2] := v]
  {
    hide Lands, HashMap<V>.Sound, HasRoom;
    var m := ThreeUncounted(hashKey, v);
    return m.n, m.contents;
  }

  method ThreeUncounted<V(!new)>(hashKey: Text -> int, v: V) returns (m: HashMap<V>)
    requires hashKey([1]) % 4 == 0 && hashKey([]) % 4 == 1 && hashKey([2]) % 4 == 0
    ensures fresh(m) && fresh(m.slots) && m.Sound() && m.contents == map[[1] := v, [] := v, [2] := v] && m.n == 1
    ensures m.slots.Length == 4 && m.Threshold() == 3 && CountFull(m.slots[..]) == 3
  {
    hide Lands, HashMap<V>.Sound, HasRoom, CountFull;
    m := TwoKeys(hashKey, [1], [], v);
    LandsThird(hashKey, Elem([1], v), Elem([], v), Elem([2], v));
    var ended, t := m.Put([2], v);
  }

  /** The count may fall so far behind that the table is full and not grown: then the next new key is never placed. */
  method FifthKeyIsNeverPut<V(!new)>(hashKey: Text -> int, v: V) returns (ended: bool, ghost contents: map<Text, V>)
    requires hashKey([1]) % 4 == 0 && hashKey([]) % 4 == 1 && hashKey([2]) % 4 == 0
    ensures !ended
    ensures contents == map[[1] := v, [] := v, [2] := v, [3] := v]
  {
    hide Lands, HashMap<V>.Sound, HasRoom, CountFull;
    var m := ThreeUncounted(hashKey, v);
    RoomByCount(m.slots[..]);
    var ended', t := m.Put([3], v);
    RoomByCount(m.slots[..]);
    contents := m.contents;
    ended, t := m.Put([4], v);
  }

  /** A new map of four slots with two keys in their home slots. */
  method TwoKeys<V(!new)>(hashKey: Text -> int, x: Text, y: Text, v: V) returns (m: HashMap<V>)
    requires hashKey(x) % 4 == 0 && hashKey(y) % 4 == 1 && x != [] && x != y
    ensures fresh(m) && fresh(m.slots) && m.Sound() && m.hashKey == hashKey && m.contents == map[x := v, y := v]
    ensures m.slots[..] == [Full(Elem(x, v)), Full(Elem(y, v)), Empty, Empty] && m.Threshold() == 3
    ensures m.n == (if y == [] then 1 else 2) && CountFull(m.slots[..]) == 2
  {
    hide HashMap<V>.Sound, HashMap<V>.Valid, CountFull;
    assert IsPow2(4) by { assert Pow2(0) == 1 && Pow2(1) == 2 && Pow2(2) == 4; }
    m := new HashMap<V>(4, 90, hashKey);
    ValidIsSound(m);
    assert m.slots[..] == [Empty, Empty, Empty, Empty];
    NothingInEmptyTable(m.slots[..]);
    PutAtHome(m, x, v);
    PutAtHome(m, y, v);
  }

  lemma ValidIsSound<V(!new)>(m: HashMap<V>)
    requires m.Valid()
    ensures m.Sound() && m.n == CountFull(m.slots[..])
  {
  }

  /** A new key whose home slot is free. */
  method PutAtHome<V(!new)>(m: HashMap<V>, key: Text, v: V)
    requires m.Sound() && m.slots.Length == 4 && m.n < m.Threshold() && key !in m.contents
    requires HomeSlot(m.slots[..], m.hashKey(key)) == Empty
    modifies m, m.slots
    ensures m.Sound() && m.slots == old(m.slots) && m.contents == old(m.contents)[key := v]
    ensures m.slots[..] == old(m.slots[..])[Home(m.hashKey(key), 4) := Full(Elem(key, v))]
    ensures m.n == (old(m.n) + if key == [] then 0 else 1) && CountFull(m.slots[..]) == CountFull(old(m.slots[..])) + 1
  {
    hide HashMap<V>.Sound, Lands, HasRoom, CountFull;
    AtHome(m.hashKey, m.slots[..], Elem(key, v));
    var ended, t := m.Put(key, v);
  }

  lemma AtHome<V>(hashKey: Text -> int, t: Table<Elem<V>>, e: Elem<V>)
    requires |t| > 0 && HomeSlot(t, hashKey(e.key)) == Empty
    ensures Lands(t, ByKey(hashKey), e) == e && HasRoom(t)
  {
    FreeIs(t, hashKey(e.key), 0, 0);
  }

  lemma LandsThird<V>(hashKey: Text -> int, x: Elem<V>, y: Elem<V>, e: Elem<V>)
    requires hashKey(x.key) % 4 == 0 && hashKey(y.key) % 4 == 1 && hashKey(e.key) % 4 == 0
    ensures var t := [Full(x), Full(y), Empty, Empty]; Lands(t, ByKey(hashKey), e) == y && HasRoom(t)
  {
    var t, hash := [Full(x), Full(y), Empty, Empty], ByKey(hashKey);
    assert t[2] == Empty;
    FreeIs(t, hash(e), 0, 2);
    assert InHand(t, hash, e, 0) == (e, 0);
    NextInHand(t, hash, e, 0);
    NextInHand(t, hash, e, 1);
  }

  lemma HashedByKey<V(!new)>(t: Table<Elem<V>>, hashKey: Text -> int, e: Elem<V>)
    ensures TwinsShareHash(t, ByKey(hashKey), KeyOf, e)
  {
  }

  lemma KeyIsKnown<V(!new)>(t: Table<Elem<V>>, m: map<Text, V>, e: Elem<V>)
    requires Represents(t, m) && Has(t, e)
    ensures e.key in m
  {
  }

  lemma Pow2Doubles(n: nat)
    requires IsPow2(n)
    ensures IsPow2(2 * n)
  {
    var k: nat :| Pow2(k) == n;
    assert Pow2(k + 1) == 2 * n;
  }

  lemma LoadBelow(cap: nat, loadFactor: nat)
    requires loadFactor <= 100
    ensures cap * loadFactor / 100 <= cap
  {
    assert cap * loadFactor <= cap * 100;
  }

  /** The i-th slot of the old table holds a key that the slots before it do not. */
  lemma OneMoreSlot<V(!new)>(t: Table<Elem<V>>, i: nat)
    requires i < |t| && Unique(t, KeyOf)
    ensures CountFull(t[..i + 1]) == CountFull(t[..i]) + (if t[i].Full? then 1 else 0) && CountFull(t[..i]) <= i
    ensures forall e :: Has(t[..i + 1], e) <==> Has(t[..i], e) || t[i] == Full(e)
    ensures t[i].Full? ==> forall e :: Has(t[..i], e) ==> KeyOf(e) != KeyOf(t[i].elem)
  {
    assert t[..i + 1][..i] == t[..i] && t[..i + 1] == t[..i] + [t[i]];
    if t[i].Full? {
      forall e | Has(t[..i], e)
        ensures KeyOf(e) != KeyOf(t[i].elem)
      {
        var p :| 0 <= p < i && t[..i][p] == Full(e);
        assert t[p].Full?;
      }
    }
  }

  lemma ExtendedFresh<V(!new)>(t0: Table<Elem<V>>, t: Table<Elem<V>>, e: Elem<V>)
    requires Extends(t0, t, KeyOf, e)
    requires forall x :: Has(t0, x) ==> KeyOf(x) != KeyOf(e)
    ensures forall x :: Has(t, x) <==> x == e || Has(t0, x)
  {
  }

  lemma FullAtMost<E>(t: Table<E>)
    ensures CountFull(t) <= |t|
  {
  }

  lemma EmptyTable<V(!new)>(t: Table<Elem<V>>, hash: Elem<V> -> int)
    requires forall p: nat :: p < |t| ==> t[p].Empty?
    ensures Ordered(t, hash) && Unique(t, KeyOf) && CountFull(t) == 0 && forall e :: !Has(t, e)
  {
    NothingInEmptyTable(t);
  }

  /** Inserting into the table is updating the map. */
  lemma RepresentsExtended<V(!new)>(t0: Table<Elem<V>>, t: Table<Elem<V>>, m: map<Text, V>, key: Text, value: V)
    requires Represents(t0, m) && Extends(t0, t, KeyOf, Elem(key, value))
    ensures Represents(t, m[key := value])
    ensures (exists x :: Has(t0, x) && KeyOf(x) == key) <==> key in m
  {
    if key in m { assert Has(t0, Elem(key, m[key])); }
  }
}
