/** One segment of the append-only series log (tsdb/series_segment.go): a header, the entries
    one after the other, and zeros up to the fixed size of the segment. */
module SeriesSegment {
  import opened Arithmetic
  import opened Collections
  import opened Bytes
  import SeriesKey

  const HEADER_SIZE: nat := 5
  const ENTRY_HEADER_SIZE: nat := 9
  const INSERT: byte := 1
  const TOMBSTONE: byte := 2
  const HEADER: Text := [0x53, 0x53, 0x45, 0x47, 1]

  // ---- offsets and sizes ---------------------------------------------------------------------------

  type uint16 = x: int | 0 <= x < TWO_16
  type uint32 = x: int | 0 <= x < TWO_32

  /** JoinSeriesOffset: segment id above the position. */
  function Join(segment: uint16, pos: uint32): (offset: nat) { segment * TWO_32 + pos }

  /** SplitSeriesOffset */
  function Split(offset: nat): (r: (uint16, uint32)) { ((offset / TWO_32) % TWO_16, offset % TWO_32) }

  lemma SplitOfJoin(segment: uint16, pos: uint32)
    ensures Split(Join(segment, pos)) == (segment, pos)
  {
    ModUnique(Join(segment, pos), TWO_32, segment, pos);
  }

  /** Offsets order first by segment and then by position. */
  lemma JoinOrder(s0: uint16, p0: uint32, s1: uint16, p1: uint32)
    ensures Join(s0, p0) < Join(s1, p1) <==> s0 < s1 || (s0 == s1 && p0 < p1)
  {
  }

  /** SeriesSegmentSize; the shift is computed in 16 bits and can wrap around. */
  function SegmentSize(id: uint16): (size: nat)
  {
    var shift := (id + 22) % TWO_16;
    if shift >= 28 then Pow2(28) else Pow2(shift)
  }

  /** The documented range, 4MB to 256MB, holds exactly for the ids whose shift does not wrap. */
  lemma SegmentSizeRange(id: uint16)
    ensures Pow2(22) <= SegmentSize(id) <= Pow2(28) <==> id + 22 < TWO_16
    ensures SegmentSize(id) <= Pow2(28)
  {
    hide Pow2;
    var shift := (id + 22) % TWO_16;
    Pow2Monotone(22, 28);
    if shift < 28 { Pow2Monotone(shift, 28); }
    if id + 22 < TWO_16 {
      if shift < 28 { Pow2Monotone(22, shift); }
    } else {
      assert shift == id + 22 - TWO_16;
      Pow2Monotone(shift, 21);
      assert Pow2(21) < Pow2(22) by { Doubled(21); }
    }
  }

  lemma Doubled(k: nat)
    ensures Pow2(k) < Pow2(k + 1) == 2 * Pow2(k)
  {
    Pow2Monotone(0, k);
  }

  /** The first segment has 4MB, and each one twice as much as the one before it, up to 256MB. */
  lemma SegmentSizeDoubles(id: uint16)
    requires id + 23 < TWO_16
    ensures SegmentSize(0) == 4 * 1024 * 1024
    ensures SegmentSize(id + 1) == Min(2 * SegmentSize(id), 256 * 1024 * 1024)
  {
    hide Pow2;
    Megabytes();
    if id + 22 < 28 { Pow2Monotone(id + 23, 28); }
    if id + 23 < 28 { Pow2Monotone(id + 22, 28); }
    assert Pow2(id + 23) == 2 * Pow2(id + 22) by { Doubled(id + 22); }
    if id + 22 >= 28 { assert SegmentSize(id) == SegmentSize(id + 1) == Pow2(28); }
  }

  lemma Megabytes()
    ensures Pow2(22) == 4 * 1024 * 1024 && Pow2(28) == 256 * 1024 * 1024
  {
    assert Pow2(8) == 256;
    assert Pow2(16) == 65536;
    assert Pow2(22) == 4 * 1024 * 1024;
  }

  /** Sizes never shrink from one segment to the next while the shift does not wrap. */
  lemma SegmentSizeGrows(id: uint16)
    requires id + 23 < TWO_16
    ensures SegmentSize(id) <= SegmentSize(id + 1)
  {
    if id + 23 < 28 { Pow2Monotone(id + 22, id + 23); } else if id + 22 < 28 { Pow2Monotone(id + 22, 28); }
  }

  lemma SegmentSizeFits32(id: uint16)
    ensures SegmentSize(id) <= 0x1000_0000
  {
    SegmentSizeRange(id);
    assert Pow2(28) == 0x1000_0000 by { assert Pow2(14) == 0x4000; assert Pow2(21) == 0x20_0000; }
  }

  // ---- entries -----------------------------------------------------------------------------------------

  datatype Entry = Entry(flag: byte, id: nat, key: Text)

  predicate IsValidFlag(flag: byte) { flag == INSERT || flag == TOMBSTONE }

  /** A key whose varint prefix states its own length, as 64 bits add it up. */
  predicate SelfDelimiting(key: Text)
  {
    Uvarint(key).Value? && Wrap(Uvarint(key).x + Uvarint(key).n) == |key|
  }

  predicate ValidEntry(e: Entry)
  {
    && e.id < TWO_64
    && ((e.flag == INSERT && SelfDelimiting(e.key)) || (e.flag == TOMBSTONE && e.key == []))
  }

  lemma SeriesKeysAreSelfDelimiting(name: Text, tags: seq<SeriesKey.Tag>)
    requires SeriesKey.Addressable(name, tags)
    ensures SelfDelimiting(SeriesKey.Encode(name, tags))
  {
    UvarintRoundTrip(|SeriesKey.Payload(name, tags)|, SeriesKey.Payload(name, tags));
    WrapBy(|SeriesKey.Encode(name, tags)|, 0);
  }

  function EncodeEntry(e: Entry): (s: Text)
    ensures |s| == ENTRY_HEADER_SIZE + |e.key|
  {
    [e.flag] + BigEndian(8, e.id) + e.key
  }

  /** The flag, the id with its most significant byte first, and the key. */
  lemma KnownEntry(key: Text)
    ensures EncodeEntry(Entry(INSERT, 258, key)) == [1, 0, 0, 0, 0, 0, 0, 1, 2] + key
    ensures EncodeEntry(Entry(TOMBSTONE, 258, [])) == [2, 0, 0, 0, 0, 0, 0, 1, 2]
    ensures HEADER == Ascii("SSEG") + [1] && |HEADER| == HEADER_SIZE
  {
    hide BigEndian;
    KnownId();
    assert Ascii("SSEG") == [0x53, 0x53, 0x45, 0x47];
  }

  lemma KnownId()
    ensures BigEndian(8, 258) == [0, 0, 0, 0, 0, 0, 1, 2]
  {
    ZeroBytes(6);
    assert BigEndian(7, 1) == BigEndian(6, 0) + [1];
    assert BigEndian(8, 258) == BigEndian(7, 1) + [2];
  }

  lemma {:induction false} ZeroBytes(n: nat)
    ensures BigEndian(n, 0) == Zeros(n)
  {
    if n > 0 { ZeroBytes(n - 1); }
  }

  /** AppendSeriesEntry; nothing where the original panics. */
  method AppendSeriesEntry(dst: Text, flag: byte, id: nat, key: Text) returns (r: Option<Text>)
    ensures r.Some? <==> IsValidFlag(flag)
    ensures r.Some? ==> r.value == dst + EncodeEntry(Entry(flag, id, if flag == INSERT then key else []))
  {
    var buf := BigEndian(8, id);
    var out := dst + [flag];
    out := out + buf;
    if flag == INSERT {
      out := out + key;
    } else if flag != TOMBSTONE {
      return None;
    }
    return Some(out);
  }

  datatype Read = End | Panic | Found(entry: Entry, size: nat)

  /** ReadSeriesEntry */
  function ReadEntry(data: Text): (r: Read)
    requires data != []
    ensures r.Found? ==> r.size == ENTRY_HEADER_SIZE + |r.entry.key|
  {
    if !IsValidFlag(data[0]) then End
    else if |data| < ENTRY_HEADER_SIZE then Panic
    else
      var id := FromBigEndian(data[1..9]);
      if data[0] == INSERT then
        match SeriesKey.ReadSeriesKey(data[9..])
        case None => Panic
        case Some((key, _)) => Found(Entry(INSERT, id, key), ENTRY_HEADER_SIZE + |key|)
      else Found(Entry(TOMBSTONE, id, []), ENTRY_HEADER_SIZE)
  }

  lemma ReadSelfDelimiting(key: Text, rest: Text)
    requires SelfDelimiting(key)
    ensures SeriesKey.ReadSeriesKey(key + rest) == Some((key, rest))
  {
    UvarintFromExtends(key, rest, 0);
    assert (key + rest)[..|key|] == key && (key + rest)[|key|..] == rest;
  }

  /** An entry in front of anything reads back. */
  lemma ReadEntryRoundTrip(e: Entry, rest: Text)
    requires ValidEntry(e)
    ensures ReadEntry(EncodeEntry(e) + rest) == Found(e, |EncodeEntry(e)|)
  {
    hide EncodeEntry, BigEndian, FromBigEndian, SelfDelimiting, SeriesKey.ReadSeriesKey;
    EntryParts(e, rest);
    IdRoundTrip(e.id);
    if e.flag == INSERT { ReadSelfDelimiting(e.key, rest); }
  }

  lemma EntryParts(e: Entry, rest: Text)
    ensures var data := EncodeEntry(e) + rest;
      |data| >= ENTRY_HEADER_SIZE && data[0] == e.flag && data[1..9] == BigEndian(8, e.id) && data[9..] == e.key + rest
  {
    hide BigEndian;
    var data := EncodeEntry(e) + rest;
    assert data == [e.flag] + (BigEndian(8, e.id) + (e.key + rest));
  }

  lemma IdRoundTrip(id: nat)
    requires id < TWO_64
    ensures FromBigEndian(BigEndian(8, id)) == id
  {
    BigEndianRoundTrip(8, id);
    assert Pow256(8) == TWO_64 by { assert Pow256(4) == TWO_32; }
  }

  // ---- the log of one segment -----------------------------------------------------------------------------

  function EncodeAll(es: seq<Entry>): Text
  {
    if es == [] then [] else EncodeEntry(es[0]) + EncodeAll(es[1..])
  }

  lemma {:induction false} EncodeAllAppend(es: seq<Entry>, fs: seq<Entry>)
    ensures EncodeAll(es + fs) == EncodeAll(es) + EncodeAll(fs)
  {
    hide EncodeEntry;
    if es == [] {
      assert es + fs == fs;
    } else {
      assert (es + fs)[1..] == es[1..] + fs;
      EncodeAllAppend(es[1..], fs);
    }
  }

  /** What ForEachEntry hands to its callback. */
  datatype Record = Record(flag: byte, id: nat, offset: nat, key: Text)

  /** The records of the entries written from position pos on. */
  function Records(es: seq<Entry>, segment: uint16, pos: nat): (rs: seq<Record>)
    requires pos + |EncodeAll(es)| < TWO_32
    ensures |rs| == |es|
  {
    if es == [] then []
    else [Record(es[0].flag, es[0].id, Join(segment, pos), es[0].key)]
         + Records(es[1..], segment, pos + |EncodeEntry(es[0])|)
  }

  lemma {:induction false} RecordsInOrder(es: seq<Entry>, segment: uint16, pos: nat, limit: nat)
    requires pos + |EncodeAll(es)| <= limit < TWO_32
    ensures forall i :: 0 <= i < |es| ==> Join(segment, pos) <= Records(es, segment, pos)[i].offset < Join(segment, limit)
    ensures forall i, j :: 0 <= i < j < |es| ==>
      Records(es, segment, pos)[i].offset < Records(es, segment, pos)[j].offset
  {
    if es != [] {
      RecordsInOrder(es[1..], segment, pos + |EncodeEntry(es[0])|, limit);
    }
  }

  /** The i-th record's offset is where the i-th entry starts. */
  lemma {:induction false} RecordAt(es: seq<Entry>, segment: uint16, pos: nat, i: nat)
    requires pos + |EncodeAll(es)| < TWO_32 && i < |es|
    ensures |EncodeAll(es[..i])| <= |EncodeAll(es)|
    ensures Records(es, segment, pos)[i]
         == Record(es[i].flag, es[i].id, Join(segment, pos + |EncodeAll(es[..i])|), es[i].key)
  {
    EncodeAllAppend(es[..i], es[i..]);
    assert es[..i] + es[i..] == es;
    if i > 0 {
      RecordAt(es[1..], segment, pos + |EncodeEntry(es[0])|, i - 1);
      assert es[1..][..i - 1] == es[..i][1..];
      assert es[1..][i - 1] == es[i];
    }
  }

  predicate AllValid(es: seq<Entry>) { forall i :: 0 <= i < |es| ==> ValidEntry(es[i]) }

  /** The contents of the file: header, entries, zero padding. */
  function Image(id: uint16, es: seq<Entry>): (s: Text)
    requires HEADER_SIZE + |EncodeAll(es)| <= SegmentSize(id)
    ensures |s| == SegmentSize(id)
  {
    HEADER + EncodeAll(es) + Zeros(SegmentSize(id) - HEADER_SIZE - |EncodeAll(es)|)
  }

  /** Where the i-th entry of an image starts, and what is there. */
  function Start(es: seq<Entry>, i: nat): nat
    requires i <= |es|
  {
    HEADER_SIZE + |EncodeAll(es[..i])|
  }

  lemma ImageAt(id: uint16, es: seq<Entry>, i: nat)
    requires HEADER_SIZE + |EncodeAll(es)| <= SegmentSize(id)
    requires i <= |es|
    ensures Start(es, i) <= SegmentSize(id)
    ensures Image(id, es)[Start(es, i)..]
         == EncodeAll(es[i..]) + Zeros(SegmentSize(id) - HEADER_SIZE - |EncodeAll(es)|)
  {
    hide EncodeAll, SegmentSize;
    EncodeAllAppend(es[..i], es[i..]);
    assert es[..i] + es[i..] == es;
  }

  lemma StartNext(es: seq<Entry>, i: nat)
    requires i < |es|
    ensures Start(es, i + 1) == Start(es, i) + |EncodeEntry(es[i])|
  {
    assert es[..i + 1] == es[..i] + [es[i]];
    EncodeAllAppend(es[..i], [es[i]]);
    assert EncodeAll([es[i]]) == EncodeEntry(es[i]) + EncodeAll([]);
  }

  /** Reading at an entry's start finds that entry; reading after the last one finds the end. */
  lemma ReadImage(id: uint16, es: seq<Entry>, i: nat)
    requires HEADER_SIZE + |EncodeAll(es)| <= SegmentSize(id) && AllValid(es) && i <= |es|
    ensures Start(es, i) <= SegmentSize(id)
    ensures i < |es| ==>
      Start(es, i) < SegmentSize(id) && ReadEntry(Image(id, es)[Start(es, i)..]) == Found(es[i], |EncodeEntry(es[i])|)
    ensures i == |es| && Start(es, i) < SegmentSize(id) ==> ReadEntry(Image(id, es)[Start(es, i)..]) == End
  {
    hide ReadEntry, EncodeEntry, SegmentSize, EncodeAll, Image, Start, ValidEntry;
    var pad := Zeros(SegmentSize(id) - HEADER_SIZE - |EncodeAll(es)|);
    ImageAt(id, es, i);
    if i < |es| {
      FirstOf(es, i, pad);
      ReadEntryRoundTrip(es[i], EncodeAll(es[i + 1..]) + pad);
    } else {
      NothingLeft(es, pad);
      ReadZeros(Image(id, es)[Start(es, i)..]);
    }
  }

  /** The i-th entry comes first in what is left from there. */
  lemma FirstOf(es: seq<Entry>, i: nat, pad: Text)
    requires i < |es|
    ensures EncodeAll(es[i..]) + pad == EncodeEntry(es[i]) + (EncodeAll(es[i + 1..]) + pad)
  {
    hide EncodeEntry;
    assert es[i..][1..] == es[i + 1..];
  }

  lemma NothingLeft(es: seq<Entry>, pad: Text)
    ensures EncodeAll(es[|es|..]) + pad == pad
  {
  }

  lemma ReadZeros(data: Text)
    ensures data != [] && data[0] == 0 ==> ReadEntry(data) == End
  {
  }

  datatype WriteResult = NotWritable | Written(offset: nat)

  class SeriesSegment {
    const id: uint16
    var data: Text
    var size: uint32
    var writable: bool
    ghost var entries: seq<Entry>

    /** The file holds exactly the entries; `size` may not be known yet. */
    ghost predicate Holds()
      reads this
    {
      && HEADER_SIZE + |EncodeAll(entries)| <= SegmentSize(id)
      && AllValid(entries)
      && data == Image(id, entries)
    }

    ghost predicate Valid()
      reads this
    {
      Holds() && size == HEADER_SIZE + |EncodeAll(entries)|
    }

    /** CreateSeriesSegment followed by InitForWrite. */
    constructor (id: uint16)
      requires HEADER_SIZE <= SegmentSize(id)
      ensures Valid() && this.id == id && entries == [] && writable
    {
      this.id := id;
      data := HEADER + Zeros(SegmentSize(id) - HEADER_SIZE);
      size := HEADER_SIZE;
      writable := true;
      entries := [];
      new;
      assert HEADER + [] == HEADER;
    }

    /** CanWrite; the sum is computed in 32 bits. */
    predicate CanWrite(d: Text)
      reads this
    {
      writable && (size + |d| % TWO_32) % TWO_32 <= SegmentSize(id)
    }

    /** Accepts an entry when its end, in 32 bits, is in the segment; an entry that fits is appended.  One so long
        that its end wraps into the segment is accepted too, and then the size is lost. */
    method WriteLogEntry(d: Text, ghost e: Entry) returns (r: WriteResult)
      requires Valid()
      requires ValidEntry(e) && d == EncodeEntry(e)
      modifies this`data, this`size, this`entries
      ensures r.Written? <==> writable && (old(size) + |d|) % TWO_32 <= SegmentSize(id)
      ensures r.Written? ==> r.offset == Join(id, old(size)) && size == (old(size) + |d|) % TWO_32 <= SegmentSize(id)
      ensures r.NotWritable? ==> Valid() && data == old(data) && size == old(size) && entries == old(entries)
      ensures r.Written? && old(size) + |d| <= SegmentSize(id) ==>
        Valid() && entries == old(entries) + [e] && size == old(size) + |d| && r.offset < Join(id, size)
      ensures r.Written? && old(size) + |d| > SegmentSize(id) ==>
        data == (old(data)[..old(size)] + d)[..SegmentSize(id)] && entries == old(entries)
    {
      hide EncodeEntry, EncodeAll, SegmentSize;
      SegmentSizeFits32(id);
      SumIn32(size, |d|);
      if !CanWrite(d) {
        return NotWritable;
      }
      r := Written(Join(id, size));
      if size + |d| <= SegmentSize(id) {
        data := data[..size] + d + data[size + |d|..];
        EncodeAllOne(entries, e);
        ghost var n := SegmentSize(id) - HEADER_SIZE - |EncodeAll(entries)|;
        assert data == HEADER + EncodeAll(entries + [e]) + Zeros(n - |d|);
        entries := entries + [e];
      } else {
        data := (data[..size] + d)[..SegmentSize(id)];
      }
      size := (size + |d| % TWO_32) % TWO_32;
    }

    /** InitForWrite finds the end of the data again, whatever `size` was. */
    method InitForWrite()
      requires Holds()
      modifies this`size, this`writable
      ensures Valid() && writable
    {
      hide ReadEntry, EncodeEntry, EncodeAll, SegmentSize, Image;
      SegmentSizeFits32(id);
      size := HEADER_SIZE;
      ghost var i := 0;
      ReadImage(id, entries, 0);
      assert entries[..0] == [];
      StartOfNone(entries);
      while size < |data|
        invariant i <= |entries| && size == Start(entries, i) <= |data|
        modifies this`size
        decreases |data| - size
      {
        ReadImage(id, entries, i);
        var r := ReadEntry(data[size..]);
        if !r.Found? {
          break;
        }
        StartNext(entries, i);
        ReadImage(id, entries, i + 1);
        size := size + r.size;
        i := i + 1;
      }
      ReadImage(id, entries, i);
      assert entries[..|entries|] == entries;
      writable := true;
    }

    /** ForEachEntry visits exactly the written entries, in order, at their offsets. */
    method ForEachEntry() returns (seen: seq<Record>)
      requires Holds()
      ensures HEADER_SIZE + |EncodeAll(entries)| < TWO_32
      ensures seen == Records(entries, id, HEADER_SIZE)
    {
      hide ReadEntry, EncodeEntry, EncodeAll, SegmentSize, Image;
      SegmentSizeFits32(id);
      seen := [];
      var pos := HEADER_SIZE;
      ReadImage(id, entries, 0);
      StartOfNone(entries);
      while pos < |data|
        invariant |seen| <= |entries| && pos == Start(entries, |seen|) <= |data|
        invariant forall j :: 0 <= j < |seen| ==> seen[j] == Records(entries, id, HEADER_SIZE)[j]
        decreases |data| - pos
      {
        ghost var i := |seen|;
        ReadImage(id, entries, i);
        var r := ReadEntry(data[pos..]);
        if !r.Found? {
          break;
        }
        RecordAt(entries, id, HEADER_SIZE, i);
        StartNext(entries, i);
        ReadImage(id, entries, i + 1);
        seen := seen + [Record(r.entry.flag, r.entry.id, Join(id, pos), r.entry.key)];
        pos := pos + r.size;
      }
      ReadImage(id, entries, |seen|);
    }
  }

  lemma SumIn32(size: uint32, n: nat)
    ensures (size + n % TWO_32) % TWO_32 == (size + n) % TWO_32
    ensures size + n < TWO_32 ==> (size + n) % TWO_32 == size + n
  {
    var x := size + n % TWO_32;
    assert n == TWO_32 * (n / TWO_32) + n % TWO_32;
    assert x == TWO_32 * (x / TWO_32) + x % TWO_32;
    ModUnique(size + n, TWO_32, n / TWO_32 + x / TWO_32, x % TWO_32);
  }

  /** CanWrite is right exactly when the end of the entry does not wrap into the segment. */
  lemma AcceptanceIsExact(id: uint16, size: uint32, n: nat)
    requires size <= SegmentSize(id)
    ensures ((size + n) % TWO_32 <= SegmentSize(id) <==> size + n <= SegmentSize(id)) <==>
      size + n < TWO_32 || (size + n) % TWO_32 > SegmentSize(id)
  {
    hide SegmentSize;
    SegmentSizeFits32(id);
    SumIn32(size, n);
  }

  /** CreateSeriesSegment: the header is written, the file cut or extended to the size of the segment, and the header
      read back.  This fails exactly for the three ids whose wrapped size is less than the header's. */
  method Create(id: uint16) returns (r: Option<SeriesSegment>)
    ensures r.None? <==> 65514 <= id <= 65516
    ensures r.Some? ==> fresh(r.value) && r.value.Valid() && r.value.id == id && r.value.entries == [] && r.value.writable
  {
    SmallSegments(id);
    if SegmentSize(id) < HEADER_SIZE {
      return None;
    }
    var segment := new SeriesSegment(id);
    return Some(segment);
  }

  lemma SmallSegments(id: uint16)
    ensures SegmentSize(id) < HEADER_SIZE <==> 65514 <= id <= 65516
  {
    var shift := (id + 22) % TWO_16;
    assert Pow2(2) == 4 && Pow2(3) == 8;
    if shift <= 2 { Pow2Monotone(shift, 2); } else if shift < 28 { Pow2Monotone(3, shift); } else { Pow2Monotone(3, 28); }
  }

  lemma EncodeAllOne(es: seq<Entry>, e: Entry)
    ensures EncodeAll(es + [e]) == EncodeAll(es) + EncodeEntry(e)
  {
    EncodeAllAppend(es, [e]);
    assert EncodeAll([e]) == EncodeEntry(e) + EncodeAll([]);
  }

  lemma StartOfNone(es: seq<Entry>)
    ensures Start(es, 0) == HEADER_SIZE
  {
    assert es[..0] == [];
  }

  // ---- several segments -------------------------------------------------------------------------------------

  /** A segment as read: its id and contents. */
  datatype Segment = Segment(id: uint16, data: Text)

  /** FindSegment and ReadSeriesKeyFromSegments; nothing where the original panics. */
  function ReadKeyFromSegments(segments: seq<Segment>, offset: nat): (r: Option<Text>)
  {
    var (id, pos) := Split(offset);
    if segments == [] then Some([])
    else if segments[0].id != id then ReadKeyFromSegments(segments[1..], offset)
    else if pos > |segments[0].data| then None
    else match SeriesKey.ReadSeriesKey(segments[0].data[pos..])
      case None => None
      case Some((key, _)) => Some(key)
  }

  /** Reading just past the header of an inserted entry gives its key back. */
  lemma {:induction false} KeyAtOffset(segments: seq<Segment>, k: nat, es: seq<Entry>, i: nat)
    requires k < |segments|
    requires forall j :: 0 <= j < k ==> segments[j].id != segments[k].id
    requires HEADER_SIZE + |EncodeAll(es)| <= SegmentSize(segments[k].id) && AllValid(es)
    requires segments[k].data == Image(segments[k].id, es)
    requires i < |es| && es[i].flag == INSERT
    ensures HEADER_SIZE + |EncodeAll(es)| < TWO_32
    ensures ReadKeyFromSegments(segments, Records(es, segments[k].id, HEADER_SIZE)[i].offset + ENTRY_HEADER_SIZE)
         == Some(es[i].key)
  {
    hide EncodeEntry, EncodeAll, SegmentSize, Image, Split, Join, SeriesKey.ReadSeriesKey;
    var id := segments[k].id;
    SegmentSizeFits32(id);
    RecordAt(es, id, HEADER_SIZE, i);
    var offset := Records(es, id, HEADER_SIZE)[i].offset + ENTRY_HEADER_SIZE;
    var pos := Start(es, i) + ENTRY_HEADER_SIZE;
    EntryBody(id, es, i);
    JoinShift(id, Start(es, i));
    SplitOfJoin(id, pos);
    if k == 0 {
      var more :| segments[0].data[pos..] == es[i].key + more;
      ReadSelfDelimiting(es[i].key, more);
    } else {
      assert segments[0].id != id;
      KeyAtOffset(segments[1..], k - 1, es, i);
    }
  }

  lemma JoinShift(id: uint16, pos: nat)
    requires pos + ENTRY_HEADER_SIZE < TWO_32
    ensures Join(id, pos) + ENTRY_HEADER_SIZE == Join(id, pos + ENTRY_HEADER_SIZE)
  {
  }

  lemma EntryBody(id: uint16, es: seq<Entry>, i: nat)
    requires HEADER_SIZE + |EncodeAll(es)| <= SegmentSize(id) && i < |es|
    ensures Start(es, i) + ENTRY_HEADER_SIZE <= SegmentSize(id)
    ensures exists more :: Image(id, es)[Start(es, i) + ENTRY_HEADER_SIZE..] == es[i].key + more
  {
    hide SegmentSize, Image, EncodeAll, EncodeEntry, Start;
    ImageAt(id, es, i);
    var pad := Zeros(SegmentSize(id) - HEADER_SIZE - |EncodeAll(es)|);
    var more := EncodeAll(es[i + 1..]) + pad;
    FirstOf(es, i, pad);
    EntryParts(es[i], more);
    Later(Image(id, es), Start(es, i), ENTRY_HEADER_SIZE);
  }

  lemma Later(s: Text, i: nat, n: nat)
    requires i <= |s| && n <= |s[i..]|
    ensures s[i + n..] == s[i..][n..]
  {
  }
}
