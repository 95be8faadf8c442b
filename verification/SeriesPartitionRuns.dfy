/** Every run of a series partition: series are created and deleted, a compaction is built from a snapshot
    and swapped in later, and the process restarts, in any order.  Over all runs the index answers
    as a plain catalogue from keys to ids does. */
module SeriesPartitionRuns {
  import opened Arithmetic
  import opened Collections
  import opened Bytes
  import opened SeriesSegment
  import opened SeriesLog
  import opened SeriesIndex
  import opened SeriesPartition
  import SeriesKey

  /** `nextId` is the next id; `building` is a compaction that has been built and not yet swapped in. */
  datatype Partition = Partition(id: nat, log: Log, index: Index, nextId: nat, file: Option<File>, building: Option<File>)

  datatype Op =
    | Create(key: Text, offset: nat)
    | Delete(id: nat, offset: nat)
    | Build(f: File)
    | Swap
    | Restart(segments: seq<Log>)

  function NewPartition(id: nat): Partition { Partition(id, [], Opened(None), id + 1, None, None) }

  /** The log hands out growing offsets; a compaction writes a file for the log as it is; a restart finds the log in
      segments, cut anywhere. */
  ghost predicate Enabled(h: Hashes, p: Partition, op: Op)
  {
    match op
    case Create(_, offset) => offset > LastOffset(p.log)
    case Delete(_, offset) => offset > LastOffset(p.log)
    case Build(f) => p.building.None? && exists k: nat :: FileOf(Opened(Some(f)), h, p.log, k, Tombs(p.log))
    case Swap => p.building.Some?
    case Restart(segments) => Flatten(segments) == p.log
  }

  /** MaxSeriesID */
  method MaxSeriesID(log: Log) returns (max: nat)
    ensures max == MaxId(log)
  {
    max := 0;
    for i := 0 to |log|
      invariant max == MaxId(log[..i])
    {
      assert log[..i + 1][..i] == log[..i];
      if IsInsert(log[i]) && log[i].id > max {
        max := log[i].id;
      }
    }
    assert log[..|log|] == log;
  }

  /** The next id as openSegments finds it again: the last segment with an id from `next` on decides. */
  function ScanBack(segments: seq<Log>, next: nat): nat
  {
    if segments == [] then next
    else
      var max := MaxId(segments[|segments| - 1]);
      if max >= next then max + PARTITION_N else ScanBack(segments[..|segments| - 1], next)
  }

  method OpenSegments(segments: seq<Log>, id: nat) returns (next: nat)
    ensures next == ScanBack(segments, id + 1)
  {
    next := id + 1;
    var i := |segments|;
    assert segments[..i] == segments;
    while i > 0
      invariant 0 <= i <= |segments| && next == id + 1 && ScanBack(segments[..i], next) == ScanBack(segments, next)
    {
      assert segments[..i][..i - 1] == segments[..i - 1];
      i := i - 1;
      var max := MaxSeriesID(segments[i]);
      if max >= next {
        next := max + PARTITION_N;
        break;
      }
    }
  }

  /** The same from the log as a whole. */
  function RestartSeq(log: Log, next: nat): nat { if MaxId(log) >= next then MaxId(log) + PARTITION_N else next }

  /** Ids grow along the log. */
  predicate Ascending(log: Log)
  {
    forall i, j :: 0 <= i < j < |log| && IsInsert(log[i]) && IsInsert(log[j]) ==> log[i].id < log[j].id
  }

  lemma {:induction false} MaxIdConcat(a: Log, b: Log)
    ensures MaxId(a + b) == Max(MaxId(a), MaxId(b))
  {
    if b == [] {
      assert a + b == a;
    } else {
      var n := |b| - 1;
      assert (a + b)[..|a + b| - 1] == a + b[..n];
      MaxIdConcat(a, b[..n]);
    }
  }

  lemma {:induction false} MaxIdIs(log: Log) returns (i: nat)
    requires MaxId(log) > 0
    ensures i < |log| && IsInsert(log[i]) && log[i].id == MaxId(log)
  {
    var n := |log| - 1;
    if IsInsert(log[n]) && log[n].id == MaxId(log) {
      i := n;
    } else {
      i := MaxIdIs(log[..n]);
    }
  }

  /** An id of a later part is greater than those of an earlier one. */
  lemma LaterIsGreater(a: Log, b: Log)
    requires Ascending(a + b) && MaxId(b) > 0
    ensures MaxId(a) < MaxId(b)
  {
    hide MaxId;
    var j := MaxIdIs(b);
    assert (a + b)[|a| + j] == b[j];
    forall i | 0 <= i < |a| && IsInsert(a[i]) ensures a[i].id < MaxId(b) { assert (a + b)[i] == a[i]; }
    MaxIdBelow(a, MaxId(b));
  }

  /** However the log is cut into segments, scanning them from the back finds what a scan of it all would. */
  lemma {:induction false} ScanBackIsEnough(segments: seq<Log>, next: nat)
    requires next > 0 && Ascending(Flatten(segments))
    ensures ScanBack(segments, next) == RestartSeq(Flatten(segments), next)
  {
    hide MaxId;
    if segments == [] {
      NoIds();
    } else {
      var n := |segments| - 1;
      var front, last := Flatten(segments[..n]), segments[n];
      assert Flatten(segments) == front + last;
      MaxIdConcat(front, last);
      if MaxId(last) >= next {
        LaterIsGreater(front, last);
      } else {
        forall i, j | 0 <= i < j < |front| && IsInsert(front[i]) && IsInsert(front[j]) ensures front[i].id < front[j].id {
          assert (front + last)[i] == front[i] && (front + last)[j] == front[j];
        }
        ScanBackIsEnough(segments[..n], next);
      }
    }
  }

  lemma NoIds()
    ensures MaxId([]) == 0
  {
  }

  ghost function Append(p: Partition, r: Record): Partition
    requires IsInsert(r) || IsTombstone(r)
  {
    p.(log := p.log + [r], index := Exec(p.index, r))
  }

  ghost function Apply(h: Hashes, p: Partition, op: Op): Partition
    requires Enabled(h, p, op) && Flagged(p.log)
  {
    match op
    case Create(key, offset) =>
      if FindID(p.index, key) != 0 then p
      else Append(p, Record(INSERT, p.nextId, offset, key)).(nextId := p.nextId + PARTITION_N)
    case Delete(id, offset) =>
      if IsDeleted(p.index, id) then p else Append(p, Record(TOMBSTONE, id, offset, []))
    case Build(f) => p.(building := Some(f))
    case Swap => p.(index := Replay(Opened(p.building), p.log), file := p.building, building := None)
    case Restart(segments) =>
      p.(index := Replay(Opened(p.file), p.log), nextId := ScanBack(segments, p.id + 1), building := None)
  }

  // ---- the invariant ---------------------------------------------------------------------------------------

  /** A file (or none) from which recovery over this log is possible. */
  ghost predicate Usable(h: Hashes, log: Log, file: Option<File>)
  {
    exists k: nat, dead :: FileOf(Opened(file), h, log, k, dead) && dead <= Tombs(log)
  }

  ghost predicate IndexRight(h: Hashes, p: Partition)
  {
    exists k: nat, dead :: Reflects(p.index, h, p.log, k, dead)
  }

  /** Ids grow by the number of partitions, so each one names its partition. */
  ghost predicate IdsRight(p: Partition)
  {
    && p.nextId == RestartSeq(p.log, p.id + 1) && Ascending(p.log)
    && p.nextId % PARTITION_N == (p.id + 1) % PARTITION_N
    && forall i :: 0 <= i < |p.log| && IsInsert(p.log[i]) ==>
         p.id < p.log[i].id < p.nextId && p.log[i].id % PARTITION_N == (p.id + 1) % PARTITION_N
  }

  ghost predicate Inv(h: Hashes, p: Partition)
  {
    IndexRight(h, p) && Usable(h, p.log, p.file) && Usable(h, p.log, p.building) && IdsRight(p)
  }

  lemma InvIsWellFormed(h: Hashes, p: Partition)
    requires Inv(h, p)
    ensures WellFormed(p.log) && Flagged(p.log)
  {
    WellFormedIsFlagged(p.log);
  }

  lemma NewPartitionInv(h: Hashes, id: nat)
    ensures Inv(h, NewPartition(id))
  {
    var p := NewPartition(id);
    assert Reflects(p.index, h, p.log, 0, {});
    assert FileOf(Opened(None), h, p.log, 0, {});
  }

  lemma UsableAfterAppend(h: Hashes, log: Log, r: Record, file: Option<File>)
    requires Usable(h, log, file)
    ensures Usable(h, log + [r], file)
  {
    hide Opened, DiskHolds, DiskValid, LiveCount, LastInsert, LastInsertedId, MaxId, FileOf, Tombs, WellFormed, Appendable;
    var k: nat, dead :| FileOf(Opened(file), h, log, k, dead) && dead <= Tombs(log);
    Appended(log, r);
    FileAfterAppend(h, log, r, file, k, dead);
  }

  lemma FileAfterAppend(h: Hashes, log: Log, r: Record, file: Option<File>, k: nat, dead: set<nat>)
    requires FileOf(Opened(file), h, log, k, dead)
    ensures FileOf(Opened(file), h, log + [r], k, dead)
  {
    hide Opened, DiskHolds, DiskValid, LiveCount, LastInsert, LastInsertedId, Tombs;
    assert (log + [r])[..k] == log[..k];
  }

  lemma RecoveredIsRight(h: Hashes, p: Partition, file: Option<File>)
    requires Inv(h, p) && Usable(h, p.log, file)
    ensures Flagged(p.log) && IndexRight(h, p.(index := Replay(Opened(file), p.log)))
  {
    InvIsWellFormed(h, p);
    var k: nat, dead :| FileOf(Opened(file), h, p.log, k, dead) && dead <= Tombs(p.log);
    ReplayTracks(Opened(file), h, p.log, k, dead);
    assert Reflects(Replay(Opened(file), p.log), h, p.log, k, dead);
  }

  /** The record an operation writes keeps the discipline of the log. */
  lemma CreateIsAppendable(h: Hashes, p: Partition, key: Text, offset: nat)
    requires Inv(h, p) && offset > LastOffset(p.log) && FindID(p.index, key) == 0
    ensures Appendable(p.log, Record(INSERT, p.nextId, offset, key))
  {
    var k: nat, dead :| Reflects(p.index, h, p.log, k, dead);
    LookupIsRight(p.index, h, p.log, k, dead, key);
  }

  lemma DeleteIsAppendable(h: Hashes, p: Partition, id: nat, offset: nat)
    requires Inv(h, p) && offset > LastOffset(p.log) && !IsDeleted(p.index, id)
    ensures Appendable(p.log, Record(TOMBSTONE, id, offset, []))
  {
    var k: nat, dead :| Reflects(p.index, h, p.log, k, dead);
    DeletedIsRight(p.index, h, p.log, k, dead, id);
  }

  /** The partition after a record has been appended; an insert uses up the next id. */
  ghost function Advance(p: Partition, r: Record): Partition
    requires IsInsert(r) || IsTombstone(r)
  {
    Append(p, r).(nextId := if IsInsert(r) then p.nextId + PARTITION_N else p.nextId)
  }

  lemma AppendKeepsInv(h: Hashes, p: Partition, r: Record)
    requires Inv(h, p) && Appendable(p.log, r) && (IsInsert(r) ==> r.id == p.nextId)
    ensures Inv(h, Advance(p, r))
  {
    hide IdsRight, Usable, Reflects, Exec;
    var k: nat, dead :| Reflects(p.index, h, p.log, k, dead);
    ExecReflects(p.index, h, p.log, k, dead, r);
    UsableAfterAppend(h, p.log, r, p.file);
    UsableAfterAppend(h, p.log, r, p.building);
    AppendKeepsIds(p, r);
  }

  lemma AppendKeepsIds(p: Partition, r: Record)
    requires IdsRight(p) && (IsInsert(r) || IsTombstone(r)) && (IsInsert(r) ==> r.id == p.nextId)
    ensures IdsRight(Advance(p, r))
  {
    hide Exec, MaxId, Ascending;
    var q := Advance(p, r);
    NextIdAfter(p, r);
    AppendKeepsAscending(p.log, r, p.nextId);
    SameResidue(p.nextId, q.nextId);
    NextIdIsLater(p);
    hide RestartSeq;
    forall i | 0 <= i < |q.log| && IsInsert(q.log[i])
      ensures q.id < q.log[i].id < q.nextId && q.log[i].id % PARTITION_N == (q.id + 1) % PARTITION_N
    {
      if i < |p.log| { assert q.log[i] == p.log[i]; }
    }
  }

  lemma SameResidue(x: nat, y: nat)
    requires y == x || y == x + PARTITION_N
    ensures y % PARTITION_N == x % PARTITION_N
  {
  }

  lemma NextIdIsLater(p: Partition)
    requires IdsRight(p)
    ensures p.nextId > p.id
  {
    hide MaxId, Ascending;
  }

  lemma NextIdAfter(p: Partition, r: Record)
    requires IdsRight(p) && (IsInsert(r) ==> r.id == p.nextId)
    ensures RestartSeq(p.log + [r], p.id + 1) == if IsInsert(r) then p.nextId + PARTITION_N else p.nextId
  {
    hide Ascending;
    assert (p.log + [r])[..|p.log|] == p.log;
    MaxIdBelow(p.log, p.nextId);
  }

  lemma AppendKeepsAscending(log: Log, r: Record, next: nat)
    requires Ascending(log) && (IsInsert(r) ==> r.id == next)
    requires forall i :: 0 <= i < |log| && IsInsert(log[i]) ==> log[i].id < next
    ensures Ascending(log + [r])
  {
    var more := log + [r];
    forall i, j | 0 <= i < j < |more| && IsInsert(more[i]) && IsInsert(more[j])
      ensures more[i].id < more[j].id
    {
      assert more[i] == log[i];
      if j < |log| { assert more[j] == log[j]; }
    }
  }

  lemma ExecReflects(x: Index, h: Hashes, log: Log, k: nat, dead: set<nat>, r: Record)
    requires Reflects(x, h, log, k, dead) && Appendable(log, r)
    ensures Reflects(Exec(x, r), h, log + [r], k, dead)
  {
    ExecTracks(x, h, log, k, dead, r);
  }

  lemma {:induction false} MaxIdBelow(log: Log, bound: nat)
    requires bound > 0 && forall i :: 0 <= i < |log| && IsInsert(log[i]) ==> log[i].id < bound
    ensures MaxId(log) < bound
  {
    if log != [] { MaxIdBelow(log[..|log| - 1], bound); }
  }

  lemma CreateKeepsInv(h: Hashes, p: Partition, key: Text, offset: nat)
    requires Inv(h, p) && Flagged(p.log) && Enabled(h, p, Create(key, offset))
    ensures Inv(h, Apply(h, p, Create(key, offset)))
  {
    hide Inv, FindID, Exec, Appendable;
    if FindID(p.index, key) == 0 {
      CreateIsAppendable(h, p, key, offset);
      AppendKeepsInv(h, p, Record(INSERT, p.nextId, offset, key));
    }
  }

  lemma DeleteKeepsInv(h: Hashes, p: Partition, id: nat, offset: nat)
    requires Inv(h, p) && Flagged(p.log) && Enabled(h, p, Delete(id, offset))
    ensures Inv(h, Apply(h, p, Delete(id, offset)))
  {
    hide Inv, IsDeleted, Exec, Appendable;
    if !IsDeleted(p.index, id) {
      DeleteIsAppendable(h, p, id, offset);
      AppendKeepsInv(h, p, Record(TOMBSTONE, id, offset, []));
    }
  }

  /** Swapping in a compaction and restarting both rebuild the index from a file and the log. */
  lemma ReloadKeepsInv(h: Hashes, p: Partition, file: Option<File>)
    requires Inv(h, p) && Usable(h, p.log, file)
    ensures Flagged(p.log) && Inv(h, p.(index := Replay(Opened(file), p.log), file := file, building := None))
  {
    hide IndexRight, Usable, Opened, Replay, IdsRight, Flagged;
    RecoveredIsRight(h, p, file);
    NoFileIsUsable(h, p.log);
    var q := p.(index := Replay(Opened(file), p.log));
    IndexRightOnly(h, q, q.(file := file, building := None));
    IdsRightOnly(p, q.(file := file, building := None));
  }

  lemma IdsRightOnly(p: Partition, q: Partition)
    requires IdsRight(p) && p.id == q.id && p.log == q.log && p.nextId == q.nextId
    ensures IdsRight(q)
  {
  }

  lemma IndexRightOnly(h: Hashes, p: Partition, q: Partition)
    requires IndexRight(h, p) && p.log == q.log && p.index == q.index
    ensures IndexRight(h, q)
  {
  }

  lemma BuildKeepsInv(h: Hashes, p: Partition, f: File)
    requires Inv(h, p) && Enabled(h, p, Build(f)) && Flagged(p.log)
    ensures Inv(h, Apply(h, p, Build(f)))
  {
    hide FileOf, Reflects, Opened, Flagged;
    var k: nat :| FileOf(Opened(Some(f)), h, p.log, k, Tombs(p.log));
  }

  lemma SwapKeepsInv(h: Hashes, p: Partition)
    requires Inv(h, p) && Enabled(h, p, Swap)
    ensures Flagged(p.log) && Inv(h, Apply(h, p, Swap))
  {
    hide IndexRight, Usable, Opened, Replay, IdsRight, Flagged;
    ReloadKeepsInv(h, p, p.building);
  }

  lemma RestartKeepsInv(h: Hashes, p: Partition, segments: seq<Log>)
    requires Inv(h, p) && Enabled(h, p, Restart(segments))
    ensures Flagged(p.log) && Inv(h, Apply(h, p, Restart(segments)))
  {
    hide IndexRight, Usable, Opened, Replay, IdsRight, Flagged, ScanBack;
    RestartKeepsNextId(h, p, segments);
    ReloadKeepsInv(h, p, p.file);
    assert Apply(h, p, Restart(segments)) == p.(index := Replay(Opened(p.file), p.log), building := None);
  }

  lemma OpKeepsInv(h: Hashes, p: Partition, op: Op)
    requires Inv(h, p) && Enabled(h, p, op)
    ensures Flagged(p.log) && Inv(h, Apply(h, p, op))
  {
    InvIsWellFormed(h, p);
    hide Inv, Enabled, Apply, Flagged;
    match op
    case Create(key, offset) => CreateKeepsInv(h, p, key, offset);
    case Delete(id, offset) => DeleteKeepsInv(h, p, id, offset);
    case Build(f) => BuildKeepsInv(h, p, f);
    case Swap => SwapKeepsInv(h, p);
    case Restart(segments) => RestartKeepsInv(h, p, segments);
  }

  lemma NoFileIsUsable(h: Hashes, log: Log)
    ensures Usable(h, log, None)
  {
    assert FileOf(Opened(None), h, log, 0, {});
  }

  // ---- refinement of a catalogue -------------------------------------------------------------------------------

  /** What a partition is for: live series by key, and the next id. */
  datatype Catalogue = Catalogue(live: map<Text, nat>, next: nat)

  function Act(c: Catalogue, op: Op): Catalogue
  {
    match op
    case Create(key, _) =>
      if key in c.live then c else Catalogue(c.live[key := c.next], c.next + PARTITION_N)
    case Delete(id, _) => c.(live := map key | key in c.live && c.live[key] != id :: c.live[key])
    case _ => c
  }

  ghost predicate Describes(c: Catalogue, p: Partition)
  {
    && c.next == p.nextId
    && forall id, key :: LiveAs(p.log, id, key) <==> key in c.live && c.live[key] == id
  }

  lemma LiveAfterAppend(log: Log, r: Record, id: nat, key: Text)
    requires WellFormed(log) && Appendable(log, r)
    ensures LiveAs(log + [r], id, key) <==>
      (LiveAs(log, id, key) && !(IsTombstone(r) && r.id == id)) || InsertsAs(r, id, key)
  {
    AppendOne(log, r);
    if InsertsAs(r, id, key) && id in Tombs(log) { TombsAreInserted(log, id); }
  }

  /** What the index answers while it is right. */
  lemma IndexAnswers(h: Hashes, p: Partition, key: Text, id: nat)
    requires IndexRight(h, p)
    ensures WellFormed(p.log)
    ensures FindID(p.index, key) != 0 ==> LiveAs(p.log, FindID(p.index, key), key)
    ensures FindID(p.index, key) == 0 ==> !HasLive(p.log, key)
    ensures IsDeleted(p.index, id) <==> !(Inserted(p.log, id) && id !in Tombs(p.log))
    ensures LiveAs(p.log, id, key) ==> InsertedAt(p.log, id, key, FindOffset(p.index, id))
  {
    var k: nat, dead :| Reflects(p.index, h, p.log, k, dead);
    if LiveAs(p.log, id, key) { OffsetOfLive(p.index, h, p.log, k, dead, id, key); }
    LookupIsRight(p.index, h, p.log, k, dead, key);
    DeletedIsRight(p.index, h, p.log, k, dead, id);
  }

  /** While the catalogue describes the log, the index answers as the catalogue does. */
  lemma AnswersAsCatalogue(h: Hashes, p: Partition, c: Catalogue, key: Text, id: nat)
    requires IndexRight(h, p) && Describes(c, p)
    ensures FindID(p.index, key) == if key in c.live then c.live[key] else 0
    ensures IsDeleted(p.index, id) <==> id !in c.live.Values
    ensures key in c.live ==> InsertedAt(p.log, c.live[key], key, FindOffset(p.index, c.live[key]))
  {
    hide IndexRight, FindID, IsDeleted, Tombs, FindOffset;
    IndexAnswers(h, p, key, id);
    if key in c.live {
      assert LiveAs(p.log, c.live[key], key) && HasLive(p.log, key);
      IndexAnswers(h, p, key, c.live[key]);
    }
    InsertedKey(p.log, id);
    if id in c.live.Values {
      var key' :| key' in c.live && c.live[key'] == id;
      assert LiveAs(p.log, id, key');
    }
    assert forall key' :: InsertedAs(p.log, id, key') && id !in Tombs(p.log) ==> LiveAs(p.log, id, key');
  }

  lemma CreateRefines(h: Hashes, p: Partition, c: Catalogue, key: Text, offset: nat)
    requires Inv(h, p) && Flagged(p.log) && Enabled(h, p, Create(key, offset)) && Describes(c, p)
    ensures Describes(Act(c, Create(key, offset)), Apply(h, p, Create(key, offset)))
  {
    hide IndexRight, Usable, IdsRight, FindID, Appendable, Exec, LiveAs, WellFormed;
    InvIsWellFormed(h, p);
    AnswersAsCatalogue(h, p, c, key, 0);
    ZeroIsNotLive(p, c, key);
    if FindID(p.index, key) == 0 {
      var r := Record(INSERT, p.nextId, offset, key);
      CreateIsAppendable(h, p, key, offset);
      forall id: nat, key' {:trigger LiveAs(p.log + [r], id, key')}
        ensures LiveAs(p.log + [r], id, key') <==> LiveAs(p.log, id, key') || (id == p.nextId && key' == key)
      {
        LiveAfterAppend(p.log, r, id, key');
      }
    }
  }

  lemma ZeroIsNotLive(p: Partition, c: Catalogue, key: Text)
    requires WellFormed(p.log) && Describes(c, p)
    ensures key in c.live ==> c.live[key] != 0
  {
    if key in c.live {
      assert LiveAs(p.log, c.live[key], key);
      OneKeyPerId(p.log, c.live[key], key, key);
    }
  }

  lemma DeleteRefines(h: Hashes, p: Partition, c: Catalogue, gone: nat, offset: nat)
    requires Inv(h, p) && Flagged(p.log) && Enabled(h, p, Delete(gone, offset)) && Describes(c, p)
    ensures Describes(Act(c, Delete(gone, offset)), Apply(h, p, Delete(gone, offset)))
  {
    hide IndexRight, Usable, IdsRight, IsDeleted, Appendable, Exec, LiveAs, WellFormed;
    InvIsWellFormed(h, p);
    AnswersAsCatalogue(h, p, c, [], gone);
    if IsDeleted(p.index, gone) {
      assert Act(c, Delete(gone, offset)).live == c.live;
    } else {
      var r := Record(TOMBSTONE, gone, offset, []);
      DeleteIsAppendable(h, p, gone, offset);
      forall id: nat, key {:trigger LiveAs(p.log + [r], id, key)}
        ensures LiveAs(p.log + [r], id, key) <==> LiveAs(p.log, id, key) && id != gone
      {
        LiveAfterAppend(p.log, r, id, key);
      }
    }
  }

  /** What neither changes the log nor the next id is nothing to the catalogue. */
  lemma SameRefines(p: Partition, q: Partition, c: Catalogue)
    requires Describes(c, p) && q.log == p.log && q.nextId == p.nextId
    ensures Describes(c, q)
  {
    hide LiveAs;
  }

  lemma RestartRefines(h: Hashes, p: Partition, c: Catalogue, segments: seq<Log>)
    requires Inv(h, p) && Flagged(p.log) && Enabled(h, p, Restart(segments)) && Describes(c, p)
    ensures Describes(c, Apply(h, p, Restart(segments)))
  {
    hide Inv, Flagged, Replay, Opened, ScanBack, Describes;
    RestartKeepsNextId(h, p, segments);
    SameRefines(p, Apply(h, p, Restart(segments)), c);
  }

  lemma OpRefines(h: Hashes, p: Partition, c: Catalogue, op: Op)
    requires Inv(h, p) && Flagged(p.log) && Enabled(h, p, op) && Describes(c, p)
    ensures Describes(Act(c, op), Apply(h, p, op))
  {
    hide Inv, Flagged, Replay, Opened, ScanBack, Describes, FindID, IsDeleted, Exec, FileOf, Reflects;
    match op
    case Create(key, offset) => CreateRefines(h, p, c, key, offset);
    case Delete(id, offset) => DeleteRefines(h, p, c, id, offset);
    case Restart(segments) => RestartRefines(h, p, c, segments);
    case _ => SameRefines(p, Apply(h, p, op), c);
  }

  lemma RestartKeepsNextId(h: Hashes, p: Partition, segments: seq<Log>)
    requires Inv(h, p) && Flatten(segments) == p.log
    ensures ScanBack(segments, p.id + 1) == p.nextId
  {
    hide IndexRight, Usable, MaxId, Ascending, ScanBack;
    ScanBackIsEnough(segments, p.id + 1);
  }

  ghost predicate IsRun(h: Hashes, p: Partition, ops: seq<Op>)
    decreases |ops|
  {
    Flagged(p.log) && (ops == [] || (Enabled(h, p, ops[0]) && IsRun(h, Apply(h, p, ops[0]), ops[1..])))
  }

  ghost function After(h: Hashes, p: Partition, ops: seq<Op>): Partition
    requires IsRun(h, p, ops)
    decreases |ops|
  {
    if ops == [] then p else After(h, Apply(h, p, ops[0]), ops[1..])
  }

  lemma {:induction false} SamePartition(h: Hashes, p: Partition, ops: seq<Op>)
    requires IsRun(h, p, ops)
    ensures After(h, p, ops).id == p.id
    decreases |ops|
  {
    hide Enabled, Flagged, FindID, IsDeleted, Exec, Replay, ScanBack;
    if ops != [] { SamePartition(h, Apply(h, p, ops[0]), ops[1..]); }
  }

  function ActAll(c: Catalogue, ops: seq<Op>): Catalogue
    decreases |ops|
  {
    if ops == [] then c else ActAll(Act(c, ops[0]), ops[1..])
  }

  lemma {:induction false} RunRefines(h: Hashes, p: Partition, c: Catalogue, ops: seq<Op>)
    requires IsRun(h, p, ops) && Inv(h, p) && Describes(c, p)
    ensures Inv(h, After(h, p, ops)) && Describes(ActAll(c, ops), After(h, p, ops))
    decreases |ops|
  {
    hide Inv, Apply, Enabled, Act, Describes, Flagged;
    if ops != [] {
      OpKeepsInv(h, p, ops[0]);
      OpRefines(h, p, c, ops[0]);
      RunRefines(h, Apply(h, p, ops[0]), Act(c, ops[0]), ops[1..]);
    }
  }

  /** Over every run, compactions and restarts included, lookups answer as the catalogue does:
      the live id of a key or zero, deleted exactly for the ids that are not live, and for a live id the offset of the
      record that inserted it with its key. */
  lemma PartitionRefinesCatalogue(h: Hashes, id: nat, ops: seq<Op>, key: Text, series: nat)
    requires IsRun(h, NewPartition(id), ops)
    ensures var p, c := After(h, NewPartition(id), ops), ActAll(Catalogue(map[], id + 1), ops);
      && FindID(p.index, key) == (if key in c.live then c.live[key] else 0)
      && (IsDeleted(p.index, series) <==> series !in c.live.Values)
      && p.nextId == c.next
      && (key in c.live ==> InsertedAt(p.log, c.live[key], key, FindOffset(p.index, c.live[key])))
  {
    NewPartitionInv(h, id);
    NewCatalogue(id);
    RunRefines(h, NewPartition(id), Catalogue(map[], id + 1), ops);
    hide IndexRight, Usable, IdsRight, FindID, IsDeleted, After, ActAll, IsRun, FindOffset;
    AnswersAsCatalogue(h, After(h, NewPartition(id), ops), ActAll(Catalogue(map[], id + 1), ops), key, series);
  }

  lemma NewCatalogue(id: nat)
    ensures Describes(Catalogue(map[], id + 1), NewPartition(id))
  {
  }

  lemma Residues(x: nat, id: nat)
    ensures id < PARTITION_N && x % PARTITION_N == (id + 1) % PARTITION_N ==> (x - 1) % PARTITION_N == id
  {
  }

  lemma IdsOfInv(h: Hashes, p: Partition, i: nat, j: nat)
    requires Inv(h, p) && p.id < PARTITION_N && i < |p.log| && IsInsert(p.log[i])
    ensures (p.log[i].id - 1) % 8 == p.id
    ensures j < |p.log| && j != i && IsInsert(p.log[j]) ==> p.log[j].id != p.log[i].id
  {
    hide IndexRight, Usable, RestartSeq;
    Residues(p.log[i].id, p.id);
  }

  /** In every run, no id is given out twice, and each one leads back to its partition. */
  lemma IdsNameTheirPartition(h: Hashes, id: nat, ops: seq<Op>, i: nat)
    requires IsRun(h, NewPartition(id), ops) && id < PARTITION_N
    requires var p := After(h, NewPartition(id), ops); i < |p.log| && IsInsert(p.log[i])
    ensures var p := After(h, NewPartition(id), ops);
      && (p.log[i].id - 1) % 8 == id
      && forall j :: 0 <= j < |p.log| && j != i && IsInsert(p.log[j]) ==> p.log[j].id != p.log[i].id
  {
    hide Inv, After, IsRun, Describes, ActAll;
    NewPartitionInv(h, id);
    NewCatalogue(id);
    RunRefines(h, NewPartition(id), Catalogue(map[], id + 1), ops);
    SamePartition(h, NewPartition(id), ops);
    var p := After(h, NewPartition(id), ops);
    forall j | 0 <= j < |p.log| && j != i && IsInsert(p.log[j]) ensures p.log[j].id != p.log[i].id {
      IdsOfInv(h, p, i, j);
    }
    IdsOfInv(h, p, i, i);
  }

  // ---- reading keys back -------------------------------------------------------------------------------------

  /** A segment and the entries written to it. */
  datatype Written = Written(segment: Segment, entries: seq<Entry>)

  predicate Filled(w: Written)
  {
    && HEADER_SIZE + |EncodeAll(w.entries)| <= SegmentSize(w.segment.id) && AllValid(w.entries)
    && w.segment.data == Image(w.segment.id, w.entries)
  }

  predicate OnDisk(ws: seq<Written>)
  {
    && (forall i :: 0 <= i < |ws| ==> Filled(ws[i]))
    && forall i, j :: 0 <= i < j < |ws| ==> ws[i].segment.id != ws[j].segment.id
  }

  function RecordsOf(w: Written): Log
    requires Filled(w)
  {
    SegmentSizeFits32(w.segment.id);
    Records(w.entries, w.segment.id, HEADER_SIZE)
  }

  function LogOf(ws: seq<Written>): Log
    requires OnDisk(ws)
  {
    if ws == [] then [] else LogOf(ws[..|ws| - 1]) + RecordsOf(ws[|ws| - 1])
  }

  function SegmentsOf(ws: seq<Written>): seq<Segment> { seq(|ws|, i requires 0 <= i < |ws| => ws[i].segment) }

  lemma {:induction false} WhereWritten(ws: seq<Written>, i: nat) returns (k: nat, j: nat)
    requires OnDisk(ws) && i < |LogOf(ws)|
    ensures k < |ws| && j < |RecordsOf(ws[k])| && LogOf(ws)[i] == RecordsOf(ws[k])[j]
  {
    hide RecordsOf, Filled;
    var n := |ws| - 1;
    var front := LogOf(ws[..n]);
    if i < |front| {
      k, j := WhereWritten(ws[..n], i);
    } else {
      k, j := n, i - |front|;
    }
  }

  /** seriesKeyByOffset, which adds the size of the entry's header to the position; nothing where the original panics. */
  function KeyByOffset(segments: seq<Segment>, offset: nat): Option<Text>
  {
    if offset == 0 || segments == [] then Some([])
    else
      var (id, pos) := Split(offset);
      if segments[0].id != id then KeyByOffset(segments[1..], offset)
      else
        var at := (pos + ENTRY_HEADER_SIZE) % TWO_32;
        if at > |segments[0].data| then None
        else match SeriesKey.ReadSeriesKey(segments[0].data[at..]) case None => None case Some((key, _)) => Some(key)
  }

  lemma {:induction false} SameKeyRead(segments: seq<Segment>, id: uint16, pos: nat)
    requires 0 < pos && pos + ENTRY_HEADER_SIZE < TWO_32
    ensures KeyByOffset(segments, Join(id, pos)) == ReadKeyFromSegments(segments, Join(id, pos) + ENTRY_HEADER_SIZE)
  {
    hide Split, SeriesKey.ReadSeriesKey;
    SplitOfJoin(id, pos);
    SplitOfJoin(id, pos + ENTRY_HEADER_SIZE);
    if segments != [] { SameKeyRead(segments[1..], id, pos); }
  }

  /** An inserted record's offset leads to its key in the segments. */
  lemma KeyIsReadBack(ws: seq<Written>, id: nat, key: Text, offset: nat)
    requires OnDisk(ws) && InsertedAt(LogOf(ws), id, key, offset)
    ensures KeyByOffset(SegmentsOf(ws), offset) == Some(key)
  {
    hide KeyByOffset, Join, Image, AllValid, LogOf, EncodeAll, EncodeEntry, SegmentSize;
    var i :| 0 <= i < |LogOf(ws)| && InsertsAs(LogOf(ws)[i], id, key) && LogOf(ws)[i].offset == offset;
    var k, j := WhereWritten(ws, i);
    var segments, sid, es := SegmentsOf(ws), ws[k].segment.id, ws[k].entries;
    SegmentSizeFits32(sid);
    RecordAt(es, sid, HEADER_SIZE, j);
    KeyAtOffset(segments, k, es, j);
    EntryBody(sid, es, j);
    SameKeyRead(segments, sid, Start(es, j));
  }

  /** SeriesKey: in every run, the key of a live id is read back from the segments. */
  lemma LiveKeysAreReadBack(h: Hashes, id: nat, ops: seq<Op>, ws: seq<Written>, key: Text)
    requires IsRun(h, NewPartition(id), ops) && OnDisk(ws) && After(h, NewPartition(id), ops).log == LogOf(ws)
    ensures var p, c := After(h, NewPartition(id), ops), ActAll(Catalogue(map[], id + 1), ops);
      key in c.live ==> KeyByOffset(SegmentsOf(ws), FindOffset(p.index, c.live[key])) == Some(key)
  {
    hide OnDisk, LogOf, KeyByOffset, SegmentsOf, FindOffset, After, ActAll, IsRun, FindID, IsDeleted, InsertedAt;
    var p, c := After(h, NewPartition(id), ops), ActAll(Catalogue(map[], id + 1), ops);
    PartitionRefinesCatalogue(h, id, ops, key, 0);
    if key in c.live { KeyIsReadBack(ws, c.live[key], key, FindOffset(p.index, c.live[key])); }
  }

  /** In every run the index knows the greatest id given out. */
  lemma IndexKnowsGreatestId(h: Hashes, id: nat, ops: seq<Op>)
    requires IsRun(h, NewPartition(id), ops)
    ensures var p := After(h, NewPartition(id), ops); p.index.maxSeriesID == MaxId(p.log)
  {
    hide Inv, After, IsRun, Describes, ActAll;
    NewPartitionInv(h, id);
    NewCatalogue(id);
    RunRefines(h, NewPartition(id), Catalogue(map[], id + 1), ops);
    GreatestIdOfInv(h, After(h, NewPartition(id), ops));
  }

  lemma GreatestIdOfInv(h: Hashes, p: Partition)
    requires Inv(h, p)
    ensures p.index.maxSeriesID == MaxId(p.log)
  {
    hide Usable, MaxId, LastInsertedId, MemoryOf, DiskHolds, DiskValid, WellFormed, Tombs, LiveCount, LastInsert, RestartSeq;
    var k: nat, dead :| Reflects(p.index, h, p.log, k, dead);
    var pre, suf := p.log[..k], p.log[k..];
    assert p.log == pre + suf;
    MaxIdConcat(pre, suf);
    forall i, j | 0 <= i < j < |pre| && IsInsert(pre[i]) && IsInsert(pre[j]) ensures pre[i].id < pre[j].id {
      assert p.log[i] == pre[i] && p.log[j] == pre[j];
    }
    LastIsGreatest(pre);
  }

  lemma {:induction false} LastIsGreatest(log: Log)
    requires Ascending(log)
    ensures LastInsertedId(log) == MaxId(log)
  {
    if log != [] {
      var n := |log| - 1;
      LastIsGreatest(log[..n]);
      if MaxId(log[..n]) > 0 {
        var i := MaxIdIs(log[..n]);
        assert log[i] == log[..n][i];
      }
    }
  }
}
