/** The series index as the object it is: fields updated in place, lookups that probe the tables. */
module SeriesIndexObject {
  import opened Arithmetic
  import opened Collections
  import opened Bytes
  import opened SeriesSegment
  import opened SeriesLog
  import opened RobinHood
  import opened Spec = SeriesIndex
  import SeriesKey

  /** A segment's id and the records ForEachEntry visits in it. */
  datatype SegmentLog = SegmentLog(id: uint16, records: Log)

  /** Every offset lies in its segment. */
  predicate InSegment(sg: SegmentLog)
  {
    Flagged(sg.records) && forall i :: 0 <= i < |sg.records| ==> sg.records[i].offset / TWO_32 == sg.id
  }

  predicate InSegments(segments: seq<SegmentLog>) { forall i :: 0 <= i < |segments| ==> InSegment(segments[i]) }

  function AllRecords(segments: seq<SegmentLog>): (log: Log)
    requires InSegments(segments)
    ensures Flagged(log)
  {
    if segments == [] then [] else AllRecords(segments[..|segments| - 1]) + segments[|segments| - 1].records
  }

  class SeriesIndex {
    const hashes: Hashes
    var keyIDMap: map<Text, nat>
    var idOffsetMap: map<nat, nat>
    var tombstones: set<nat>
    var maxSeriesID: nat
    var maxOffset: nat
    var count: nat
    var disk: Option<Disk>

    ghost function State(): Index
      reads this
    {
      Index(keyIDMap, idOffsetMap, tombstones, maxSeriesID, maxOffset, count, disk)
    }

    ghost predicate Valid()
      reads this
    {
      disk.Some? ==> DiskValid(disk.value, hashes)
    }

    /** Open: header and tables from the index file, if there is one, and empty maps. */
    constructor (hashes: Hashes, maxSeriesID: nat, maxOffset: nat, count: nat, disk: Option<Disk>)
      requires disk.Some? ==> DiskValid(disk.value, hashes)
      ensures Valid() && this.hashes == hashes
      ensures State() == Index(map[], map[], {}, maxSeriesID, maxOffset, count, disk)
    {
      this.hashes, this.maxSeriesID, this.maxOffset, this.count, this.disk := hashes, maxSeriesID, maxOffset, count, disk;
      keyIDMap, idOffsetMap, tombstones := map[], map[], {};
    }

    method ExecEntry(r: Record)
      requires IsInsert(r) || IsTombstone(r)
      modifies this`keyIDMap, this`idOffsetMap, this`tombstones, this`maxSeriesID, this`maxOffset
      ensures State() == Exec(old(State()), r)
    {
      if r.flag == INSERT {
        keyIDMap := keyIDMap[r.key := r.id];
        idOffsetMap := idOffsetMap[r.id := r.offset];
        if r.id > maxSeriesID {
          maxSeriesID := r.id;
        }
        if r.offset > maxOffset {
          maxOffset := r.offset;
        }
      } else {
        tombstones := tombstones + {r.id};
      }
    }

    method Insert(key: Text, id: nat, offset: nat)
      modifies this`keyIDMap, this`idOffsetMap, this`tombstones, this`maxSeriesID, this`maxOffset
      ensures State() == Exec(old(State()), Record(INSERT, id, offset, key))
    {
      ExecEntry(Record(INSERT, id, offset, key));
    }

    method Delete(id: nat)
      modifies this`keyIDMap, this`idOffsetMap, this`tombstones, this`maxSeriesID, this`maxOffset
      ensures State() == Exec(old(State()), Record(TOMBSTONE, id, 0, []))
    {
      ExecEntry(Record(TOMBSTONE, id, 0, []));
    }

    /** Recover: whole segments before maxOffset's are skipped without being read. */
    method Recover(segments: seq<SegmentLog>)
      requires InSegments(segments)
      modifies this`keyIDMap, this`idOffsetMap, this`tombstones, this`maxSeriesID, this`maxOffset
      ensures State() == Replay(Reopened(old(State())), AllRecords(segments))
    {
      keyIDMap, idOffsetMap, tombstones := map[], map[], {};
      ghost var x := State();
      var minSegmentID := Split(maxOffset).0;
      for i := 0 to |segments|
        invariant maxOffset / TWO_32 >= minSegmentID
        invariant InSegments(segments[..i]) && State() == Replay(x, AllRecords(segments[..i]))
      {
        var sg := segments[i];
        assert InSegment(sg);
        assert segments[..i + 1][..i] == segments[..i] && segments[..i + 1][i] == sg;
        ReplayConcat(x, AllRecords(segments[..i]), sg.records);
        if sg.id < minSegmentID {
          ReplaySkips(State(), sg.records);
          continue;
        }
        ghost var y := State();
        for j := 0 to |sg.records|
          invariant maxOffset / TWO_32 >= minSegmentID
          invariant State() == Replay(y, sg.records[..j])
        {
          var r := sg.records[j];
          assert sg.records[..j + 1][..j] == sg.records[..j] && sg.records[..j + 1][j] == r;
          if r.offset <= maxOffset {
            continue;
          }
          ExecEntry(r);
        }
        assert sg.records[..|sg.records|] == sg.records;
      }
      assert segments[..|segments|] == segments;
    }

    method FindOffsetByID(id: nat) returns (offset: nat)
      requires Valid()
      ensures offset == FindOffset(State(), id)
    {
      if id in idOffsetMap && idOffsetMap[id] != 0 {
        return idOffsetMap[id];
      } else if disk.None? {
        return 0;
      }
      var t := disk.value.ids;
      var i, probes := LookupEager(t, IdHash(hashes), hashes.ofId(id), (s: IdSlot) => s.id == id);
      if i == -1 {
        return 0;
      }
      assert Has(t, t[i].elem);
      return t[i].elem.offset;
    }

    method IsDeleted(id: nat) returns (deleted: bool)
      requires Valid()
      ensures deleted <==> Spec.IsDeleted(State(), id)
    {
      if id in tombstones {
        return true;
      }
      var offset := FindOffsetByID(id);
      return offset == 0;
    }

    method FindIDBySeriesKey(key: Text) returns (id: nat)
      requires Valid()
      ensures id == FindID(State(), key)
    {
      if key in keyIDMap {
        var v := keyIDMap[key];
        var deleted := IsDeleted(v);
        if v != 0 && !deleted {
          return v;
        }
      }
      if disk.None? {
        return 0;
      }
      var t := disk.value.keys;
      var i, probes := Lookup(t, KeyHash(hashes), hashes.ofKey(key), (s: KeySlot) => s.key == key);
      if i == -1 {
        return 0;
      }
      assert Has(t, t[i].elem);
      var found := t[i].elem.id;
      var gone := IsDeleted(found);
      if gone {
        return 0;
      }
      return found;
    }

    /** FindIDByNameTags checks the tombstones once more; that never changes the answer. */
    method FindIDByNameTags(name: Text, tags: seq<SeriesKey.Tag>) returns (id: nat)
      requires Valid()
      ensures id == FindID(State(), SeriesKey.Encode(name, tags))
    {
      var key := SeriesKey.AppendSeriesKey([], name, tags);
      assert key == SeriesKey.Encode(name, tags);
      id := FindIDBySeriesKey(key);
      if id in tombstones {
        return 0;
      }
    }
  }
}
