/** The two-level series index (tsdb/series_index.go): on-disk tables for the log up to some
    offset, and in-memory maps for everything after it. */
module SeriesIndex {
  import opened Arithmetic
  import opened Collections
  import opened Bytes
  import opened SeriesSegment
  import opened SeriesLog
  import opened RobinHood

  /** A slot of the on-disk key/id table.  The file stores offset and id; `key` is what
      reading the segments at that offset gives. */
  datatype KeySlot = KeySlot(offset: nat, id: nat, key: Text)

  datatype IdSlot = IdSlot(id: nat, offset: nat)

  function OffsetOfKey(s: KeySlot): nat { s.offset }
  function OffsetOfId(s: IdSlot): nat { s.offset }

  /** rhh.HashKey and rhh.HashUint64 */
  datatype Hashes = Hashes(ofKey: Text -> int, ofId: nat -> int)

  function KeyHash(h: Hashes): KeySlot -> int { (s: KeySlot) => h.ofKey(s.key) }
  function IdHash(h: Hashes): IdSlot -> int { (s: IdSlot) => h.ofId(s.id) }

  datatype Disk = Disk(keys: Table<KeySlot>, ids: Table<IdSlot>)

  datatype Index = Index(
    keyIDMap: map<Text, nat>, idOffsetMap: map<nat, nat>, tombstones: set<nat>,
    maxSeriesID: nat, maxOffset: nat, count: nat, disk: Option<Disk>)

  // ---- operations on values ------------------------------------------------------------------------------

  /** execEntry */
  function Exec(x: Index, r: Record): Index
    requires IsInsert(r) || IsTombstone(r)
  {
    if IsInsert(r) then
      x.(keyIDMap := x.keyIDMap[r.key := r.id], idOffsetMap := x.idOffsetMap[r.id := r.offset],
         maxSeriesID := Max(x.maxSeriesID, r.id), maxOffset := Max(x.maxOffset, r.offset))
    else x.(tombstones := x.tombstones + {r.id})
  }

  /** The tables in a file are sound: both in order, no key twice. */
  ghost predicate DiskValid(d: Disk, h: Hashes)
  {
    && |d.keys| > 0 && |d.ids| > 0
    && Ordered(d.keys, KeyHash(h)) && Ordered(d.ids, IdHash(h))
    && (forall s, s' :: Has(d.keys, s) && Has(d.keys, s') && s.key == s'.key ==> s == s')
    && (forall s, s' :: Has(d.ids, s) && Has(d.ids, s') && s.id == s'.id ==> s == s')
  }

  /** What scanning all slots of a table gives, zero for nothing. */
  ghost function DiskId(d: Disk, key: Text): nat
  {
    if exists s :: Has(d.keys, s) && s.key == key then (var s :| Has(d.keys, s) && s.key == key; s.id) else 0
  }

  ghost function DiskOffset(d: Disk, id: nat): nat
  {
    if exists s :: Has(d.ids, s) && s.id == id then (var s :| Has(d.ids, s) && s.id == id; s.offset) else 0
  }

  ghost function FindOffset(x: Index, id: nat): nat
  {
    if id in x.idOffsetMap && x.idOffsetMap[id] != 0 then x.idOffsetMap[id]
    else if x.disk.None? then 0
    else DiskOffset(x.disk.value, id)
  }

  ghost predicate IsDeleted(x: Index, id: nat) { id in x.tombstones || FindOffset(x, id) == 0 }

  ghost function FindID(x: Index, key: Text): nat
  {
    if key in x.keyIDMap && x.keyIDMap[key] != 0 && !IsDeleted(x, x.keyIDMap[key]) then x.keyIDMap[key]
    else if x.disk.None? then 0
    else
      var id := DiskId(x.disk.value, key);
      if IsDeleted(x, id) then 0 else id
  }

  // ---- the index against the log ---------------------------------------------------------------------------

  /** The id last inserted for a key. */
  function LastId(log: Log, key: Text): Option<nat>
  {
    if log == [] then None
    else
      var r := log[|log| - 1];
      if IsInsert(r) && r.key == key then Some(r.id) else LastId(log[..|log| - 1], key)
  }

  function OffsetIn(log: Log, id: nat): Option<nat>
  {
    if log == [] then None
    else
      var r := log[|log| - 1];
      if IsInsert(r) && r.id == id then Some(r.offset) else OffsetIn(log[..|log| - 1], id)
  }

  /** Offset of the last insert. */
  function LastInsert(log: Log): nat
  {
    if log == [] then 0
    else if IsInsert(log[|log| - 1]) then log[|log| - 1].offset
    else LastInsert(log[..|log| - 1])
  }

  /** Id of the last insert. */
  function LastInsertedId(log: Log): nat
  {
    if log == [] then 0
    else if IsInsert(log[|log| - 1]) then log[|log| - 1].id
    else LastInsertedId(log[..|log| - 1])
  }

  /** The greatest id inserted, or zero. */
  function MaxId(log: Log): nat
  {
    if log == [] then 0
    else
      var r := log[|log| - 1];
      if IsInsert(r) then Max(MaxId(log[..|log| - 1]), r.id) else MaxId(log[..|log| - 1])
  }

  function Get<K, V>(m: map<K, V>, k: K): Option<V> { if k in m then Some(m[k]) else None }

  /** The in-memory maps are those of a stretch of log. */
  ghost predicate MemoryOf(x: Index, log: Log)
  {
    && (forall key :: Get(x.keyIDMap, key) == LastId(log, key))
    && (forall id :: Get(x.idOffsetMap, id) == OffsetIn(log, id))
    && x.tombstones == Tombs(log)
  }

  ghost predicate InsertedAt(log: Log, id: nat, key: Text, offset: nat)
  {
    exists i :: 0 <= i < |log| && InsertsAs(log[i], id, key) && log[i].offset == offset
  }

  ghost predicate IdInsertedAt(log: Log, id: nat, offset: nat)
  {
    exists i :: 0 <= i < |log| && IsInsert(log[i]) && log[i].id == id && log[i].offset == offset
  }

  /** The tables hold exactly the inserts of a stretch of log, less the dead ids. */
  ghost predicate DiskHolds(d: Disk, log: Log, dead: set<nat>)
  {
    && (forall s :: Has(d.keys, s) <==> InsertedAt(log, s.id, s.key, s.offset) && s.id !in dead)
    && (forall s :: Has(d.ids, s) <==> IdInsertedAt(log, s.id, s.offset) && s.id !in dead)
  }

  /** Inserts of a stretch of log whose ids are not dead. */
  function LiveCount(log: Log, dead: set<nat>): nat
  {
    if log == [] then 0
    else LiveCount(log[..|log| - 1], dead)
         + if IsInsert(log[|log| - 1]) && log[|log| - 1].id !in dead then 1 else 0
  }

  /** Tables for the first k records of the log, maps for the rest. */
  ghost predicate Tracks(x: Index, h: Hashes, log: Log, k: nat, dead: set<nat>)
  {
    && WellFormed(log) && k <= |log|
    && MemoryOf(x, log[k..]) && |x.idOffsetMap| == LiveCount(log[k..], {})
    && x.maxOffset == LastInsert(log) && x.maxSeriesID == Max(LastInsertedId(log[..k]), MaxId(log[k..]))
    && Tombs(log[..k]) <= dead && x.count >= LiveCount(log[..k], dead)
    && (x.disk.None? ==> k == 0)
    && (x.disk.Some? ==> DiskValid(x.disk.value, h) && DiskHolds(x.disk.value, log[..k], dead))
  }

  /** The index stands for the log; `dead` are the deletions its tables already took into account. */
  ghost predicate Reflects(x: Index, h: Hashes, log: Log, k: nat, dead: set<nat>)
  {
    Tracks(x, h, log, k, dead) && dead <= Tombs(log)
  }

  /** One more record, executed on the index as it is appended to the log. */
  lemma ExecTracks(x: Index, h: Hashes, log: Log, k: nat, dead: set<nat>, r: Record)
    requires Tracks(x, h, log, k, dead) && Appendable(log, r)
    ensures Tracks(Exec(x, r), h, log + [r], k, dead)
    ensures Tombs(log) <= Tombs(log + [r])
  {
    hide DiskHolds, DiskValid, MemoryOf, Tombs, WellFormed, LiveCount, LastInsert, OffsetIn, LastId, MaxId, LastInsertedId;
    var l, suf := log + [r], log[k..];
    Appended(log, r);
    Appended(suf, r);
    assert l[k..] == suf + [r] && l[..k] == log[..k];
    LastInsertBound(log);
    NewIdInTail(x, log, k, r);
    ExecMemory(x, suf, r);
  }

  lemma Appended(log: Log, r: Record)
    ensures Tombs(log) <= Tombs(log + [r])
    ensures WellFormed(log) && Appendable(log, r) ==> WellFormed(log + [r])
    ensures LastInsert(log + [r]) == if IsInsert(r) then r.offset else LastInsert(log)
    ensures LiveCount(log + [r], {}) == LiveCount(log, {}) + if IsInsert(r) then 1 else 0
    ensures MaxId(log + [r]) == if IsInsert(r) then Max(MaxId(log), r.id) else MaxId(log)
  {
    AppendOne(log, r);
    assert (log + [r])[..|log|] == log;
  }

  lemma NewIdInTail(x: Index, log: Log, k: nat, r: Record)
    requires k <= |log| && Appendable(log, r) && MemoryOf(x, log[k..])
    ensures IsInsert(r) ==> r.id !in x.idOffsetMap
  {
    assert Get(x.idOffsetMap, r.id) == OffsetIn(log[k..], r.id);
    OffsetIsInserted(log[k..], r.id);
    if Inserted(log[k..], r.id) {
      var i :| 0 <= i < |log[k..]| && IsInsert(log[k..][i]) && log[k..][i].id == r.id;
      assert IsInsert(log[k + i]) && log[k + i].id == r.id;
    }
  }

  lemma ExecMemory(x: Index, log: Log, r: Record)
    requires MemoryOf(x, log) && (IsInsert(r) || IsTombstone(r))
    ensures MemoryOf(Exec(x, r), log + [r])
  {
    AppendOne(log, r);
    assert (log + [r])[..|log|] == log;
    forall key ensures Get(Exec(x, r).keyIDMap, key) == LastId(log + [r], key) {
      assert Get(x.keyIDMap, key) == LastId(log, key);
    }
    forall id ensures Get(Exec(x, r).idOffsetMap, id) == OffsetIn(log + [r], id) {
      assert Get(x.idOffsetMap, id) == OffsetIn(log, id);
    }
  }

  lemma {:induction false} LastInsertBound(log: Log)
    requires WellFormed(log)
    ensures LastInsert(log) <= LastOffset(log)
  {
    if log != [] && !IsInsert(log[|log| - 1]) { LastInsertBound(log[..|log| - 1]); }
  }

  lemma {:induction false} LastIdIsInserted(log: Log, key: Text)
    ensures LastId(log, key).Some? ==> InsertedAs(log, LastId(log, key).value, key)
    ensures LastId(log, key).None? ==> forall id :: !InsertedAs(log, id, key)
  {
    if log != [] {
      var n := |log| - 1;
      LastIdIsInserted(log[..n], key);
      Snoc(log);
      AppendOne(log[..n], log[n]);
    }
  }

  lemma {:induction false} OffsetIsInserted(log: Log, id: nat)
    ensures OffsetIn(log, id).Some? <==> Inserted(log, id)
    ensures OffsetIn(log, id).Some? ==> IdInsertedAt(log, id, OffsetIn(log, id).value)
  {
    hide IdInsertedAt;
    if log != [] {
      var n := |log| - 1;
      OffsetIsInserted(log[..n], id);
      Snoc(log);
      AppendOne(log[..n], log[n]);
      if OffsetIn(log[..n], id).Some? { IdInsertedInPart(log, 0, n, id, OffsetIn(log[..n], id).value); }
      if IsInsert(log[n]) && log[n].id == id { InsertedHere(log, n); }
    }
  }

  lemma InsertedHere(log: Log, i: nat)
    requires i < |log| && IsInsert(log[i])
    ensures IdInsertedAt(log, log[i].id, log[i].offset)
  {
  }

  lemma IdInsertedInPart(log: Log, i: nat, j: nat, id: nat, offset: nat)
    requires i <= j <= |log|
    ensures IdInsertedAt(log[i..j], id, offset) ==> IdInsertedAt(log, id, offset)
  {
    if IdInsertedAt(log[i..j], id, offset) {
      var k :| 0 <= k < j - i && IsInsert(log[i..j][k]) && log[i..j][k].id == id && log[i..j][k].offset == offset;
      assert log[i + k] == log[i..j][k];
    }
  }

  /** An id inserted early is not inserted again later. */
  lemma {:induction false} NoReinsert(pre: Log, suf: Log, id: nat)
    requires WellFormed(pre + suf) && Inserted(pre, id)
    ensures !Inserted(suf, id)
    decreases |suf|
  {
    if suf != [] {
      var n := |suf| - 1;
      assert pre + suf == (pre + suf[..n]) + [suf[n]];
      AppendOne(pre + suf[..n], suf[n]);
      NoReinsert(pre, suf[..n], id);
      Snoc(suf);
      AppendOne(suf[..n], suf[n]);
      InsertedKey(pre, id);
      var key :| InsertedAs(pre, id, key);
      InsertedInConcat(pre, suf[..n], id, key);
      InsertedKey(pre + suf[..n], id);
    }
  }

  /** A live id that was inserted late is the last one of its key; one inserted early has no successor. */
  lemma {:induction false} LiveIdIsLast(pre: Log, suf: Log, id: nat, key: Text)
    requires WellFormed(pre + suf) && LiveAs(pre + suf, id, key)
    ensures InsertedAs(suf, id, key) ==> LastId(suf, key) == Some(id)
    ensures !InsertedAs(suf, id, key) ==> LastId(suf, key) == None && InsertedAs(pre, id, key)
    decreases |suf|
  {
    hide InsertedAs, Inserted, WellFormed, Tombs, LastId;
    InsertedInConcat(pre, suf, id, key);
    if suf == [] {
      NothingInserted(id, key);
    } else {
      var n := |suf| - 1;
      var shorter, r := pre + suf[..n], suf[n];
      assert pre + suf == shorter + [r];
      AppendOne(shorter, r);
      Snoc(suf);
      AppendOne(suf[..n], r);
      LastIdNext(suf[..n], r, key);
      assert LiveAs(shorter, id, key) ==> HasLive(shorter, key);
      if LiveAs(shorter, id, key) {
        LiveIdIsLast(pre, suf[..n], id, key);
      }
    }
  }

  lemma NothingInserted(id: nat, key: Text)
    ensures !InsertedAs([], id, key) && LastId([], key) == None
  {
  }

  lemma LastIdNext(log: Log, r: Record, key: Text)
    ensures LastId(log + [r], key) == if IsInsert(r) && r.key == key then Some(r.id) else LastId(log, key)
  {
    assert (log + [r])[..|log|] == log;
  }

  // ---- lookups are right -------------------------------------------------------------------------------------

  lemma DiskOffsetOf(d: Disk, log: Log, dead: set<nat>, id: nat)
    requires DiskHolds(d, log, dead) && WellFormed(log)
    ensures DiskOffset(d, id) != 0 <==> Inserted(log, id) && id !in dead
    ensures DiskOffset(d, id) != 0 ==> IdInsertedAt(log, id, DiskOffset(d, id))
  {
    if exists s :: Has(d.ids, s) && s.id == id {
      var s :| Has(d.ids, s) && s.id == id && DiskOffset(d, id) == s.offset;
      var i :| 0 <= i < |log| && IsInsert(log[i]) && log[i].id == id && log[i].offset == s.offset;
      OffsetsIncrease(log, i);
    }
    if Inserted(log, id) && id !in dead {
      var i :| 0 <= i < |log| && IsInsert(log[i]) && log[i].id == id;
      assert IdInsertedAt(log, id, log[i].offset);
      assert Has(d.ids, IdSlot(id, log[i].offset));
    }
  }

  lemma IdInsertedInConcat(pre: Log, suf: Log, id: nat)
    ensures Inserted(pre + suf, id) <==> Inserted(pre, id) || Inserted(suf, id)
  {
    InsertedKey(pre + suf, id);
    InsertedKey(pre, id);
    InsertedKey(suf, id);
    forall key ensures InsertedAs(pre + suf, id, key) <==> InsertedAs(pre, id, key) || InsertedAs(suf, id, key) {
      InsertedInConcat(pre, suf, id, key);
    }
  }

  /** IsDeleted says exactly which ids do not exist. */
  lemma DeletedIsRight(x: Index, h: Hashes, log: Log, k: nat, dead: set<nat>, id: nat)
    requires Reflects(x, h, log, k, dead)
    ensures IsDeleted(x, id) <==> !(Inserted(log, id) && id !in Tombs(log))
  {
    hide WellFormed, Inserted, Tombs, OffsetIn, LiveCount, LastInsert, DiskHolds, DiskValid, MaxId, LastInsertedId;
    var pre, suf := log[..k], log[k..];
    assert log == pre + suf;
    TombsOfConcat(pre, suf);
    WellFormedPrefix(log, k);
    IdInsertedInConcat(pre, suf, id);
    if id in Tombs(pre) { TombsAreInserted(pre, id); }
    if Inserted(pre, id) { NoReinsert(pre, suf, id); }
    OffsetIsInserted(suf, id);
    if Inserted(suf, id) {
      var i :| 0 <= i < |suf| && IsInsert(suf[i]) && suf[i].id == id && suf[i].offset == OffsetIn(suf, id).value;
      OffsetsIncrease(log, k + i);
    }
    assert Get(x.idOffsetMap, id) == OffsetIn(suf, id);
    if x.disk.Some? {
      DiskOffsetOf(x.disk.value, pre, dead, id);
    } else {
      assert pre == [];
    }
  }

  /** An offset found is where the id was inserted, and none is missed for an id that exists. */
  lemma OffsetIsRight(x: Index, h: Hashes, log: Log, k: nat, dead: set<nat>, id: nat)
    requires Reflects(x, h, log, k, dead)
    ensures FindOffset(x, id) != 0 ==> IdInsertedAt(log, id, FindOffset(x, id))
    ensures Inserted(log, id) && id !in Tombs(log) ==> FindOffset(x, id) != 0
  {
    hide WellFormed, Inserted, Tombs, IdInsertedAt, Reflects;
    DeletedIsRight(x, h, log, k, dead, id);
    FoundInMemory(x, h, log, k, dead, id);
    FoundOnDisk(x, h, log, k, dead, id);
  }

  lemma FoundInMemory(x: Index, h: Hashes, log: Log, k: nat, dead: set<nat>, id: nat)
    requires Reflects(x, h, log, k, dead)
    ensures id in x.idOffsetMap ==> IdInsertedAt(log, id, x.idOffsetMap[id])
  {
    hide WellFormed, Inserted, Tombs, OffsetIn, LiveCount, LastInsert, DiskHolds, DiskValid, MaxId, LastInsertedId, IdInsertedAt;
    OffsetIsInserted(log[k..], id);
    assert Get(x.idOffsetMap, id) == OffsetIn(log[k..], id);
    if id in x.idOffsetMap {
      assert log[k..|log|] == log[k..];
      IdInsertedInPart(log, k, |log|, id, x.idOffsetMap[id]);
    }
  }

  lemma FoundOnDisk(x: Index, h: Hashes, log: Log, k: nat, dead: set<nat>, id: nat)
    requires Reflects(x, h, log, k, dead)
    ensures x.disk.Some? && DiskOffset(x.disk.value, id) != 0 ==> IdInsertedAt(log, id, DiskOffset(x.disk.value, id))
  {
    hide WellFormed, Inserted, Tombs, MemoryOf, LiveCount, LastInsert, DiskHolds, DiskValid, MaxId, LastInsertedId, IdInsertedAt, DiskOffset;
    WellFormedPrefix(log, k);
    if x.disk.Some? {
      DiskOffsetOf(x.disk.value, log[..k], dead, id);
      assert log[0..k] == log[..k];
      IdInsertedInPart(log, 0, k, id, DiskOffset(x.disk.value, id));
    }
  }

  /** The record at the offset found for a live id has its key. */
  lemma OffsetOfLive(x: Index, h: Hashes, log: Log, k: nat, dead: set<nat>, id: nat, key: Text)
    requires Reflects(x, h, log, k, dead) && LiveAs(log, id, key)
    ensures InsertedAt(log, id, key, FindOffset(x, id))
  {
    OffsetIsRight(x, h, log, k, dead, id);
    InsertedKey(log, id);
    var i :| 0 <= i < |log| && IsInsert(log[i]) && log[i].id == id && log[i].offset == FindOffset(x, id);
    assert InsertsAs(log[i], id, log[i].key);
    OneKeyPerId(log, id, key, log[i].key);
  }

  lemma DiskIdOf(d: Disk, log: Log, dead: set<nat>, key: Text)
    requires DiskHolds(d, log, dead) && WellFormed(log)
    ensures DiskId(d, key) != 0 ==> InsertedAs(log, DiskId(d, key), key) && DiskId(d, key) !in dead
    ensures DiskId(d, key) == 0 ==> forall id :: InsertedAs(log, id, key) ==> id in dead
  {
    if exists s :: Has(d.keys, s) && s.key == key {
      var s :| Has(d.keys, s) && s.key == key && DiskId(d, key) == s.id;
      assert InsertedAt(log, s.id, key, s.offset);
      assert InsertedAs(log, s.id, key);
      OneKeyPerId(log, s.id, key, key);
    } else {
      forall id | InsertedAs(log, id, key)
        ensures id in dead
      {
        var i :| 0 <= i < |log| && InsertsAs(log[i], id, key);
        assert InsertedAt(log, id, key, log[i].offset);
        assert !Has(d.keys, KeySlot(log[i].offset, id, key));
      }
    }
  }

  /** FindIDBySeriesKey returns the live id of the key, or zero when there is none. */
  lemma LookupIsRight(x: Index, h: Hashes, log: Log, k: nat, dead: set<nat>, key: Text)
    requires Reflects(x, h, log, k, dead)
    ensures FindID(x, key) != 0 ==> LiveAs(log, FindID(x, key), key)
    ensures FindID(x, key) == 0 ==> !HasLive(log, key)
  {
    var pre, suf := log[..k], log[k..];
    assert log == pre + suf;
    WellFormedPrefix(log, k);
    LastIdIsInserted(suf, key);
    assert Get(x.keyIDMap, key) == LastId(suf, key);
    if key in x.keyIDMap {
      var v := x.keyIDMap[key];
      InsertedInConcat(pre, suf, v, key);
      InsertedKey(log, v);
      OneKeyPerId(log, v, key, key);
      DeletedIsRight(x, h, log, k, dead, v);
    }
    if x.disk.Some? {
      var d := DiskId(x.disk.value, key);
      DiskIdOf(x.disk.value, pre, dead, key);
      InsertedInConcat(pre, suf, d, key);
      InsertedKey(log, d);
      DeletedIsRight(x, h, log, k, dead, d);
    }
    if id :| LiveAs(log, id, key) {
      LiveIdIsLast(pre, suf, id, key);
      if FindID(x, key) == 0 { NotMissed(x, h, log, k, dead, key, id); }
    }
  }

  /** A live id is never answered with zero. */
  lemma NotMissed(x: Index, h: Hashes, log: Log, k: nat, dead: set<nat>, key: Text, id: nat)
    requires Reflects(x, h, log, k, dead) && LiveAs(log, id, key)
    ensures FindID(x, key) != 0
  {
    var pre, suf := log[..k], log[k..];
    assert log == pre + suf;
    WellFormedPrefix(log, k);
    LiveIdIsLast(pre, suf, id, key);
    OneKeyPerId(log, id, key, key);
    InsertedKey(log, id);
    DeletedIsRight(x, h, log, k, dead, id);
    assert Get(x.keyIDMap, key) == LastId(suf, key);
    if !InsertedAs(suf, id, key) {
      if x.disk.Some? {
        var d := DiskId(x.disk.value, key);
        DiskIdOf(x.disk.value, pre, dead, key);
        if d != id { OnlyLiveOnDisk(pre, suf, dead, id, d, key); }
      }
    }
  }

  /** Two different ids of one key cannot both have escaped the dead of the tables. */
  lemma OnlyLiveOnDisk(pre: Log, suf: Log, dead: set<nat>, id: nat, other: nat, key: Text)
    requires WellFormed(pre) && Tombs(pre) <= dead
    requires InsertedAs(pre, id, key) && id !in Tombs(pre)
    requires InsertedAs(pre, other, key) && other !in dead
    ensures id == other
  {
    OneLivePerKey(pre, id, other, key);
  }

  // ---- recovery ------------------------------------------------------------------------------------------------

  predicate Flagged(log: Log) { forall i :: 0 <= i < |log| ==> IsInsert(log[i]) || IsTombstone(log[i]) }

  /** What Recover does with the records of all segments: skip up to maxOffset, execute the rest. */
  function Replay(x: Index, log: Log): Index
    requires Flagged(log)
  {
    if log == [] then x
    else
      var y, r := Replay(x, log[..|log| - 1]), log[|log| - 1];
      if r.offset <= y.maxOffset then y else Exec(y, r)
  }

  /** The in-memory maps are thrown away; the header and the tables stay. */
  function Reopened(x: Index): Index { x.(keyIDMap := map[], idOffsetMap := map[], tombstones := {}) }

  /** A compaction cuts the log right after an insert. */
  predicate Cut(log: Log, k: nat) { k <= |log| && (k > 0 ==> IsInsert(log[k - 1])) }

  /** Header and tables of an index file written for the first k records of a log. */
  ghost predicate FileOf(x: Index, h: Hashes, log: Log, k: nat, dead: set<nat>)
  {
    && Cut(log, k) && x.maxOffset == LastInsert(log[..k]) && x.maxSeriesID == LastInsertedId(log[..k])
    && Tombs(log[..k]) <= dead && x.count >= LiveCount(log[..k], dead)
    && (x.disk.None? ==> k == 0)
    && (x.disk.Some? ==> DiskValid(x.disk.value, h) && DiskHolds(x.disk.value, log[..k], dead))
  }

  lemma {:induction false} WellFormedIsFlagged(log: Log)
    requires WellFormed(log)
    ensures Flagged(log)
  {
    if log != [] { WellFormedIsFlagged(log[..|log| - 1]); }
  }

  lemma {:induction false} ReplaySkips(x: Index, log: Log)
    requires Flagged(log) && forall i :: 0 <= i < |log| ==> log[i].offset <= x.maxOffset
    ensures Replay(x, log) == x
  {
    if log != [] { ReplaySkips(x, log[..|log| - 1]); }
  }

  lemma {:induction false} ReplayConcat(x: Index, a: Log, b: Log)
    requires Flagged(a) && Flagged(b)
    ensures Flagged(a + b) && Replay(x, a + b) == Replay(Replay(x, a), b)
  {
    if b == [] {
      assert a + b == a;
    } else {
      var n := |b| - 1;
      assert (a + b)[..|a + b| - 1] == a + b[..n];
      ReplayConcat(x, a, b[..n]);
    }
  }

  /** Replaying a log over an index file of its beginning gives an index that tracks the log. */
  lemma NothingToReplay(x: Index, h: Hashes, log: Log, dead: set<nat>)
    requires WellFormed(log) && Flagged(log) && FileOf(x, h, log, |log|, dead) && x == Reopened(x)
    ensures Tracks(Replay(x, log), h, log, |log|, dead)
  {
    hide DiskHolds, DiskValid;
    assert log[..|log|] == log && log[|log|..] == [];
    forall i | 0 <= i < |log| ensures log[i].offset <= x.maxOffset { OffsetsIncrease(log, i); }
    ReplaySkips(x, log);
  }

  lemma {:induction false} ReplayTracks(x: Index, h: Hashes, log: Log, k: nat, dead: set<nat>)
    requires WellFormed(log) && FileOf(x, h, log, k, dead) && x == Reopened(x)
    ensures Flagged(log) && Tracks(Replay(x, log), h, log, k, dead)
    decreases |log|
  {
    hide DiskHolds, DiskValid;
    WellFormedIsFlagged(log);
    if k == |log| {
      NothingToReplay(x, h, log, dead);
    } else {
      var n := |log| - 1;
      var shorter, r := log[..n], log[n];
      assert shorter[..k] == log[..k] && log == shorter + [r];
      ReplayTracks(x, h, shorter, k, dead);
      LastInsertBound(shorter);
      ExecTracks(Replay(x, shorter), h, shorter, k, dead, r);
    }
  }

  /** Recovery refines replay of the whole log: afterwards lookups answer as the log says. */
  lemma RecoveryIsRight(x: Index, h: Hashes, log: Log, k: nat, dead: set<nat>, key: Text, id: nat)
    requires WellFormed(log) && FileOf(x, h, log, k, dead) && dead <= Tombs(log)
    ensures Flagged(log)
    ensures var y := Replay(Reopened(x), log);
      && (FindID(y, key) != 0 ==> LiveAs(log, FindID(y, key), key))
      && (FindID(y, key) == 0 ==> !HasLive(log, key))
      && (IsDeleted(y, id) <==> !(Inserted(log, id) && id !in Tombs(log)))
      && (LiveAs(log, id, key) ==> InsertedAt(log, id, key, FindOffset(y, id)))
  {
    assert FileOf(Reopened(x), h, log, k, dead);
    ReplayTracks(Reopened(x), h, log, k, dead);
    if LiveAs(log, id, key) { OffsetOfLive(Replay(Reopened(x), log), h, log, k, dead, id, key); }
    LookupIsRight(Replay(Reopened(x), log), h, log, k, dead, key);
    DeletedIsRight(Replay(Reopened(x), log), h, log, k, dead, id);
  }

  /** With no index file, recovery rebuilds exactly the maps that executing every record live built. */
  lemma {:induction false} RecoveryWithoutFile(x: Index, log: Log)
    requires WellFormed(log) && x.maxOffset == 0
    ensures Flagged(log) && Replay(x, log) == ExecAll(x, log)
    ensures Replay(x, log).maxOffset <= LastOffset(log)
    decreases |log|
  {
    WellFormedIsFlagged(log);
    if log != [] {
      RecoveryWithoutFile(x, log[..|log| - 1]);
    }
  }

  function ExecAll(x: Index, log: Log): Index
    requires Flagged(log)
  {
    if log == [] then x else Exec(ExecAll(x, log[..|log| - 1]), log[|log| - 1])
  }
}
