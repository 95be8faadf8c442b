/** A series partition over its whole life (tsdb/series_partition.go): series are created and deleted,
    the index is compacted in the background, and the process restarts; all of it over one log. */
module SeriesPartition {
  import opened Arithmetic
  import opened Collections
  import opened Bytes
  import opened SeriesSegment
  import opened SeriesLog
  import opened RobinHood
  import opened SeriesIndex
  import SeriesIndexObject
  import HashMap

  const PARTITION_N: nat := 8

  /** An index file. */
  datatype File = File(maxSeriesID: nat, maxOffset: nat, count: nat, disk: Disk)

  /** The index right after Open. */
  function Opened(file: Option<File>): Index
  {
    match file
    case None => Index(map[], map[], {}, 0, 0, 0, None)
    case Some(f) => Index(map[], map[], {}, f.maxSeriesID, f.maxOffset, f.count, Some(f.disk))
  }

  // ---- compaction ---------------------------------------------------------------------------------------

  lemma InsertedAtAppend(log: Log, i: nat, id: nat, key: Text, offset: nat)
    requires i < |log|
    ensures InsertedAt(log[..i + 1], id, key, offset)
      <==> InsertedAt(log[..i], id, key, offset) || (InsertsAs(log[i], id, key) && log[i].offset == offset)
  {
    if InsertedAt(log[..i + 1], id, key, offset) {
      var j :| 0 <= j < i + 1 && InsertsAs(log[..i + 1][j], id, key) && log[..i + 1][j].offset == offset;
      if j < i { assert InsertsAs(log[..i][j], id, key) && log[..i][j].offset == offset; }
    }
    if InsertedAt(log[..i], id, key, offset) {
      var j :| 0 <= j < i && InsertsAs(log[..i][j], id, key) && log[..i][j].offset == offset;
      assert InsertsAs(log[..i + 1][j], id, key) && log[..i + 1][j].offset == offset;
    }
    if InsertsAs(log[i], id, key) && log[i].offset == offset {
      assert InsertsAs(log[..i + 1][i], id, key) && log[..i + 1][i].offset == offset;
    }
  }

  lemma IdInsertedAtAppend(log: Log, i: nat, id: nat, offset: nat)
    requires i < |log|
    ensures IdInsertedAt(log[..i + 1], id, offset)
      <==> IdInsertedAt(log[..i], id, offset) || (IsInsert(log[i]) && log[i].id == id && log[i].offset == offset)
  {
    var a, b := log[..i + 1], log[..i];
    if IdInsertedAt(a, id, offset) {
      var j :| 0 <= j < i + 1 && IsInsert(a[j]) && a[j].id == id && a[j].offset == offset;
      if j < i { assert IsInsert(b[j]) && b[j].id == id && b[j].offset == offset; }
    }
    if IdInsertedAt(b, id, offset) {
      var j :| 0 <= j < i && IsInsert(b[j]) && b[j].id == id && b[j].offset == offset;
      assert IsInsert(a[j]) && a[j].id == id && a[j].offset == offset;
    }
    if IsInsert(log[i]) && log[i].id == id && log[i].offset == offset {
      assert IsInsert(a[i]) && a[i].id == id && a[i].offset == offset;
    }
  }

  /** What the tables hold was inserted at smaller offsets. */
  lemma HeldIsOlder(d: Disk, log: Log, i: nat, dead: set<nat>)
    requires WellFormed(log) && i < |log| && DiskHolds(d, log[..i], dead)
    ensures forall s :: Has(d.keys, s) ==> s.offset < log[i].offset
    ensures forall s :: Has(d.ids, s) ==> s.offset < log[i].offset
  {
    forall id: nat, key, offset: nat | InsertedAt(log[..i], id, key, offset)
      ensures offset < log[i].offset
    {
      var j :| 0 <= j < i && InsertsAs(log[..i][j], id, key) && log[..i][j].offset == offset;
      OffsetsIncrease(log, j);
    }
    forall s | Has(d.ids, s) ensures s.offset < log[i].offset {
      var j :| 0 <= j < i && IsInsert(log[..i][j]) && log[..i][j].id == s.id && log[..i][j].offset == s.offset;
      OffsetsIncrease(log, j);
    }
  }

  lemma SkipRecord(d: Disk, log: Log, i: nat, dead: set<nat>)
    requires i < |log| && DiskHolds(d, log[..i], dead)
    requires !IsInsert(log[i]) || log[i].id in dead
    ensures DiskHolds(d, log[..i + 1], dead)
    ensures LiveCount(log[..i + 1], dead) == LiveCount(log[..i], dead)
  {
    forall s: KeySlot | s.id !in dead
      ensures InsertedAt(log[..i + 1], s.id, s.key, s.offset) <==> InsertedAt(log[..i], s.id, s.key, s.offset)
    {
      InsertedAtAppend(log, i, s.id, s.key, s.offset);
    }
    forall s: IdSlot | s.id !in dead
      ensures IdInsertedAt(log[..i + 1], s.id, s.offset) <==> IdInsertedAt(log[..i], s.id, s.offset)
    {
      IdInsertedAtAppend(log, i, s.id, s.offset);
    }
    assert log[..i + 1][..i] == log[..i];
  }

  lemma AddRecord(d: Disk, d': Disk, log: Log, i: nat, dead: set<nat>)
    requires i < |log| && DiskHolds(d, log[..i], dead) && WellFormed(log)
    requires IsInsert(log[i]) && log[i].id !in dead
    requires Extends(d.keys, d'.keys, OffsetOfKey, KeySlot(log[i].offset, log[i].id, log[i].key))
    requires Extends(d.ids, d'.ids, OffsetOfId, IdSlot(log[i].id, log[i].offset))
    ensures DiskHolds(d', log[..i + 1], dead)
    ensures LiveCount(log[..i + 1], dead) == LiveCount(log[..i], dead) + 1
  {
    HeldIsOlder(d, log, i, dead);
    var r := log[i];
    forall s
      ensures Has(d'.keys, s) <==> InsertedAt(log[..i + 1], s.id, s.key, s.offset) && s.id !in dead
    {
      InsertedAtAppend(log, i, s.id, s.key, s.offset);
      assert Has(d.keys, s) ==> OffsetOfKey(s) != r.offset;
    }
    forall s
      ensures Has(d'.ids, s) <==> IdInsertedAt(log[..i + 1], s.id, s.offset) && s.id !in dead
    {
      IdInsertedAtAppend(log, i, s.id, s.offset);
      assert Has(d.ids, s) ==> OffsetOfId(s) != r.offset;
    }
    assert log[..i + 1][..i] == log[..i];
  }

  /** Tables of the live inserts never hold a key or an id twice. */
  lemma TablesAreUnique(d: Disk, log: Log, k: nat)
    requires WellFormed(log) && k <= |log| && DiskHolds(d, log[..k], Tombs(log))
    ensures forall s, s' :: Has(d.keys, s) && Has(d.keys, s') && s.key == s'.key ==> s == s'
    ensures forall s, s' :: Has(d.ids, s) && Has(d.ids, s') && s.id == s'.id ==> s == s'
  {
    forall id: nat, key, offset: nat | InsertedAt(log[..k], id, key, offset)
      ensures InsertedAs(log, id, key) && OffsetIn(log, id) == Some(offset)
    {
      var j :| 0 <= j < k && InsertsAs(log[..k][j], id, key) && log[..k][j].offset == offset;
      assert InsertsAs(log[j], id, key);
      OnlyOffset(log, j);
    }
    forall s, s' | Has(d.keys, s) && Has(d.keys, s') && s.key == s'.key
      ensures s == s'
    {
      OneLivePerKey(log, s.id, s'.id, s.key);
    }
    forall s, s' | Has(d.ids, s) && Has(d.ids, s') && s.id == s'.id
      ensures s == s'
    {
      var j :| 0 <= j < k && IsInsert(log[..k][j]) && log[..k][j].id == s.id && log[..k][j].offset == s.offset;
      var j' :| 0 <= j' < k && IsInsert(log[..k][j']) && log[..k][j'].id == s'.id && log[..k][j'].offset == s'.offset;
      OnlyOffset(log, j);
      OnlyOffset(log, j');
    }
  }

  lemma {:induction false} OnlyOffset(log: Log, j: nat)
    requires WellFormed(log) && j < |log| && IsInsert(log[j])
    ensures OffsetIn(log, log[j].id) == Some(log[j].offset)
    decreases |log|
  {
    var n := |log| - 1;
    if j < n {
      assert IsInsert(log[..n][j]) && log[..n][j].id == log[j].id;
      OnlyOffset(log[..n], j);
    }
  }

  lemma {:induction false} LiveCountConcat(a: Log, b: Log, dead: set<nat>)
    ensures LiveCount(a + b, dead) == LiveCount(a, dead) + LiveCount(b, dead)
  {
    if b == [] {
      assert a + b == a;
    } else {
      assert (a + b)[..|a + b| - 1] == a + b[..|b| - 1];
      LiveCountConcat(a, b[..|b| - 1], dead);
    }
  }

  lemma {:induction false} LiveCountShrinks(log: Log, dead: set<nat>, more: set<nat>)
    requires dead <= more
    ensures LiveCount(log, more) <= LiveCount(log, dead)
  {
    if log != [] { LiveCountShrinks(log[..|log| - 1], dead, more); }
  }

  /** The number the tables are sized by covers every series that goes into them. */
  lemma CountSuffices(x: Index, h: Hashes, log: Log, k: nat, dead: set<nat>)
    requires Reflects(x, h, log, k, dead)
    ensures LiveCount(log, Tombs(log)) <= x.count + |x.idOffsetMap|
  {
    hide DiskHolds, DiskValid, MemoryOf, WellFormed, LiveCount, Tombs, LastInsert;
    assert log == log[..k] + log[k..];
    LiveCountConcat(log[..k], log[k..], Tombs(log));
    LiveCountShrinks(log[..k], dead, Tombs(log));
    LiveCountShrinks(log[k..], {}, Tombs(log));
  }

  lemma LiveCountPrefix(log: Log, i: nat, dead: set<nat>)
    requires i <= |log|
    ensures LiveCount(log[..i], dead) <= LiveCount(log, dead)
  {
    assert log == log[..i] + log[i..];
    LiveCountConcat(log[..i], log[i..], dead);
  }

  /** Past the last insert there is nothing to index, so the scan may stop at the first larger offset. */
  lemma {:induction false} CutAtLastInsert(log: Log, i: nat)
    requires WellFormed(log) && i <= |log|
    requires i < |log| ==> log[i].offset > LastInsert(log)
    requires forall j :: 0 <= j < i ==> log[j].offset <= LastInsert(log)
    ensures Cut(log, i) && LastInsert(log[..i]) == LastInsert(log)
    decreases |log|
  {
    var n := |log| - 1;
    if log != [] {
      if IsInsert(log[n]) {
        if i < |log| { OffsetsIncrease(log, i); }
        assert log[..i] == log;
      } else {
        LastInsertBound(log[..n]);
        assert i <= n;
        assert log[..n][..i] == log[..i];
        CutAtLastInsert(log[..n], i);
      }
    }
  }

  method CompactIndexTo(index: SeriesIndexObject.SeriesIndex, log: Log, ghost k0: nat, ghost dead0: set<nat>)
    returns (f: Option<File>, ghost k: nat)
    requires index.Valid() && Reflects(index.State(), index.hashes, log, k0, dead0)
    ensures f.Some? ==> FileOf(Opened(f), index.hashes, log, k, Tombs(log))
    ensures f.Some? ==> f.value.maxOffset == LastInsert(log[..k]) == LastInsert(log)
    ensures f.Some? ==> f.value.count == index.count + |index.idOffsetMap| && |f.value.disk.keys| == |f.value.disk.ids|
    ensures f.Some? ==> HashMap.IsPow2(|f.value.disk.ids|)
    ensures f.Some? ==> f.value.count * 100 / 90 <= |f.value.disk.ids| < Max(2 * (f.value.count * 100 / 90), 3)
    ensures f.None? ==> (index.count + |index.idOffsetMap|) * 100 / 90 > 0x2000_0000_0000_0000
  {
    hide Reflects, DiskHolds, Ordered, Unique, Extends, CountFull, LiveCount, Tombs, WellFormed, LastInsert, HasRoom, TwinsShareHash, TablesFor;
    var seriesN := index.count + |index.idOffsetMap|;
    var capacity := HashMap.NextPow2(seriesN * 100 / 90);
    if capacity.None? {
      return None, 0;
    }
    ghost var h, dead := index.hashes, Tombs(log);
    Unpack(index.State(), h, log, k0, dead0);
    var keys := new Slot<KeySlot>[capacity.value](_ => Empty);
    var ids := new Slot<IdSlot>[capacity.value](_ => Empty);
    StartTables(keys[..], ids[..], h, log, dead);
    var maxSeriesID, maxOffset := 0, 0;
    CapacityIsLeast(seriesN, capacity.value);
    var i := 0;
    while i < |log|
      invariant 0 <= i <= |log| && keys != ids as object
      invariant TablesFor(keys[..], ids[..], h, log, i, dead)
      invariant maxOffset == LastInsert(log[..i]) && maxSeriesID == LastInsertedId(log[..i])
      invariant forall j :: 0 <= j < i ==> log[j].offset <= index.maxOffset
    {
      var r := log[i];
      if r.offset > index.maxOffset {
        break;
      }
      NextRecord(log, i);
      if r.flag == TOMBSTONE {
        SkipInTables(keys[..], ids[..], h, log, i, dead);
        i := i + 1;
        continue;
      }
      maxSeriesID, maxOffset := r.id, r.offset;
      var deleted := index.IsDeleted(r.id);
      DeletedIsRight(index.State(), h, log, k0, dead0, r.id);
      if deleted {
        SkipInTables(keys[..], ids[..], h, log, i, dead);
      } else {
        AddToTables(keys, ids, index.hashes, log, i, dead);
      }
      i := i + 1;
    }
    CutAtLastInsert(log, i);
    FinishTables(keys[..], ids[..], h, log, i, dead, seriesN);
    return Some(File(maxSeriesID, maxOffset, seriesN, Disk(keys[..], ids[..]))), i;
  }

  /** The least power of two is less than twice what it has to reach. */
  lemma CapacityIsLeast(n: nat, capacity: nat)
    requires HashMap.IsPow2(capacity) && capacity >= 2 && capacity >= n * 100 / 90
    requires forall k: nat :: k >= 1 && Pow2(k) >= n * 100 / 90 ==> capacity <= Pow2(k)
    ensures capacity < Max(2 * (n * 100 / 90), 3)
  {
    var k: nat :| Pow2(k) == capacity;
    assert Pow2(0) == 1 && Pow2(1) == 2;
    if capacity > 2 { assert k >= 2 && capacity == 2 * Pow2(k - 1) && Pow2(k - 1) < n * 100 / 90; }
  }

  /** insertIDOffsetMap and insertKeyIDMap for the i-th record. */
  method AddToTables(keys: array<Slot<KeySlot>>, ids: array<Slot<IdSlot>>, h: Hashes, log: Log, i: nat, ghost dead: set<nat>)
    requires WellFormed(log) && i < |log| && TablesFor(keys[..], ids[..], h, log, i, dead) && keys != ids as object
    requires IsInsert(log[i]) && log[i].id !in dead
    modifies keys, ids
    ensures TablesFor(keys[..], ids[..], h, log, i + 1, dead)
  {
    hide DiskHolds, Ordered, Unique, Extends, CountFull, LiveCount, WellFormed, HasRoom, TwinsShareHash, TablesFor, HasTag;
    var r := log[i];
    ghost var keys0, ids0 := keys[..], ids[..];
    RoomInTables(keys0, ids0, h, log, i, dead);
    var sameId, _, idSteps := Insert(ids, IdHash(h), OffsetOfId, IdSlot(r.id, r.offset));
    assert keys[..] == keys0;
    var sameKey, _, keySteps := Insert(keys, KeyHash(h), OffsetOfKey, KeySlot(r.offset, r.id, r.key));
    assert idSteps <= ids.Length && keySteps <= keys.Length;  // the original's "map full" assertions
    assert sameId <==> HasTag(ids0, OffsetOfId, r.offset) by { TagOf(ids0, OffsetOfId, r.offset); }
    assert sameKey <==> HasTag(keys0, OffsetOfKey, r.offset) by { TagOf(keys0, OffsetOfKey, r.offset); }
    AddInTables(keys0, ids0, keys[..], ids[..], h, log, i, dead);
  }

  lemma TagOf<E(!new)>(t: Table<E>, tag: E -> nat, offset: nat)
    ensures HasTag(t, tag, offset) <==> exists x :: Has(t, x) && tag(x) == offset
  {
  }

  /** Tables under construction: in order, and holding the live ones of the first i records. */
  ghost predicate TablesFor(keys: Table<KeySlot>, ids: Table<IdSlot>, h: Hashes, log: Log, i: nat, dead: set<nat>)
    requires i <= |log|
  {
    && |keys| == |ids| > 0 && LiveCount(log, dead) <= |keys|
    && Ordered(keys, KeyHash(h)) && Unique(keys, OffsetOfKey) && CountFull(keys) == LiveCount(log[..i], dead)
    && Ordered(ids, IdHash(h)) && Unique(ids, OffsetOfId) && CountFull(ids) == LiveCount(log[..i], dead)
    && DiskHolds(Disk(keys, ids), log[..i], dead)
  }

  lemma Unpack(x: Index, h: Hashes, log: Log, k: nat, dead: set<nat>)
    requires Reflects(x, h, log, k, dead)
    ensures WellFormed(log) && x.maxOffset == LastInsert(log)
    ensures LiveCount(log, Tombs(log)) <= x.count + |x.idOffsetMap|
  {
    CountSuffices(x, h, log, k, dead);
  }

  lemma StartTables(keys: Table<KeySlot>, ids: Table<IdSlot>, h: Hashes, log: Log, dead: set<nat>)
    requires |keys| == |ids| > 0 && LiveCount(log, dead) <= |keys|
    requires forall p: nat :: p < |keys| ==> keys[p].Empty? && ids[p].Empty?
    ensures TablesFor(keys, ids, h, log, 0, dead) && LastInsert(log[..0]) == 0 && LastInsertedId(log[..0]) == 0
  {
    NothingInEmptyTable(keys);
    NothingInEmptyTable(ids);
  }

  lemma NextRecord(log: Log, i: nat)
    requires WellFormed(log) && i < |log|
    ensures LastInsert(log[..i + 1]) == if IsInsert(log[i]) then log[i].offset else LastInsert(log[..i])
    ensures LastInsertedId(log[..i + 1]) == if IsInsert(log[i]) then log[i].id else LastInsertedId(log[..i])
    ensures IsInsert(log[i]) || IsTombstone(log[i])
    ensures IsInsert(log[i]) ==> Inserted(log, log[i].id)
  {
    assert log[..i + 1][..i] == log[..i];
    WellFormedIsFlagged(log);
  }

  lemma SkipInTables(keys: Table<KeySlot>, ids: Table<IdSlot>, h: Hashes, log: Log, i: nat, dead: set<nat>)
    requires i < |log| && TablesFor(keys, ids, h, log, i, dead)
    requires !IsInsert(log[i]) || log[i].id in dead
    ensures TablesFor(keys, ids, h, log, i + 1, dead)
  {
    SkipRecord(Disk(keys, ids), log, i, dead);
  }

  /** Both tables have room for one more. */
  lemma RoomInTables(keys: Table<KeySlot>, ids: Table<IdSlot>, h: Hashes, log: Log, i: nat, dead: set<nat>)
    requires WellFormed(log) && i < |log| && TablesFor(keys, ids, h, log, i, dead)
    requires IsInsert(log[i]) && log[i].id !in dead
    ensures HasRoom(keys) && HasRoom(ids)
    ensures Ordered(keys, KeyHash(h)) && Unique(keys, OffsetOfKey) && Ordered(ids, IdHash(h)) && Unique(ids, OffsetOfId)
    ensures TwinsShareHash(keys, KeyHash(h), OffsetOfKey, KeySlot(log[i].offset, log[i].id, log[i].key))
    ensures TwinsShareHash(ids, IdHash(h), OffsetOfId, IdSlot(log[i].id, log[i].offset))
  {
    hide Ordered, Unique, DiskHolds, WellFormed;
    HeldIsOlder(Disk(keys, ids), log, i, dead);
    assert log[..i + 1][..i] == log[..i];
    LiveCountPrefix(log, i + 1, dead);
    RoomByCount(keys);
    RoomByCount(ids);
  }

  lemma AddInTables(keys: Table<KeySlot>, ids: Table<IdSlot>, keys': Table<KeySlot>, ids': Table<IdSlot>,
                    h: Hashes, log: Log, i: nat, dead: set<nat>)
    requires WellFormed(log) && i < |log| && TablesFor(keys, ids, h, log, i, dead)
    requires IsInsert(log[i]) && log[i].id !in dead
    requires |keys'| == |keys| && |ids'| == |ids|
    requires Ordered(keys', KeyHash(h)) && Unique(keys', OffsetOfKey) && Ordered(ids', IdHash(h)) && Unique(ids', OffsetOfId)
    requires Extends(keys, keys', OffsetOfKey, KeySlot(log[i].offset, log[i].id, log[i].key))
    requires Extends(ids, ids', OffsetOfId, IdSlot(log[i].id, log[i].offset))
    requires CountFull(keys') == CountFull(keys) + (if HasTag(keys, OffsetOfKey, log[i].offset) then 0 else 1)
    requires CountFull(ids') == CountFull(ids) + (if HasTag(ids, OffsetOfId, log[i].offset) then 0 else 1)
    ensures TablesFor(keys', ids', h, log, i + 1, dead)
  {
    HeldIsOlder(Disk(keys, ids), log, i, dead);
    hide Ordered, Unique, CountFull, DiskHolds, Extends;
    AddRecord(Disk(keys, ids), Disk(keys', ids'), log, i, dead);
  }

  ghost predicate HasTag<E(!new)>(t: Table<E>, tag: E -> nat, offset: nat) { exists x :: Has(t, x) && tag(x) == offset }

  lemma FinishTables(keys: Table<KeySlot>, ids: Table<IdSlot>, h: Hashes, log: Log, i: nat, dead: set<nat>,
                     count: nat)
    requires WellFormed(log) && Cut(log, i) && TablesFor(keys, ids, h, log, i, dead) && dead == Tombs(log)
    requires LiveCount(log, dead) <= count
    ensures FileOf(Opened(Some(File(LastInsertedId(log[..i]), LastInsert(log[..i]), count, Disk(keys, ids)))), h, log, i, dead)
  {
    TablesAreUnique(Disk(keys, ids), log, i);
    LiveCountPrefix(log, i, dead);
    assert log == log[..i] + log[i..];
    TombsOfConcat(log[..i], log[i..]);
  }
}
