/** The meaning of the series log (tsdb/series_partition.go): which series ids exist, which key each
    stands for, and which are deleted.  The log is the truth; indexes only speed it up. */
module SeriesLog {
  import opened Bytes
  import opened SeriesSegment

  type Log = seq<Record>

  predicate IsInsert(r: Record) { r.flag == INSERT }
  predicate IsTombstone(r: Record) { r.flag == TOMBSTONE }

  predicate InsertsAs(r: Record, id: nat, key: Text) { IsInsert(r) && r.id == id && r.key == key }

  ghost predicate InsertedAs(log: Log, id: nat, key: Text)
  {
    exists i :: 0 <= i < |log| && InsertsAs(log[i], id, key)
  }

  ghost predicate Inserted(log: Log, id: nat)
  {
    exists i :: 0 <= i < |log| && IsInsert(log[i]) && log[i].id == id
  }

  function Tombs(log: Log): set<nat>
  {
    if log == [] then {}
    else Tombs(log[..|log| - 1]) + if IsTombstone(log[|log| - 1]) then {log[|log| - 1].id} else {}
  }

  /** The series exists: inserted under this key and never deleted. */
  ghost predicate LiveAs(log: Log, id: nat, key: Text) { InsertedAs(log, id, key) && id !in Tombs(log) }

  ghost predicate HasLive(log: Log, key: Text) { exists id :: LiveAs(log, id, key) }

  function LastOffset(log: Log): nat { if log == [] then 0 else log[|log| - 1].offset }

  /** May this record be appended: ids are new, a key is inserted only while it has no live id,
      and only live ids are deleted. */
  ghost predicate Appendable(log: Log, r: Record)
  {
    && r.offset > LastOffset(log)
    && (IsInsert(r) || IsTombstone(r))
    && (IsInsert(r) ==> r.id != 0 && !Inserted(log, r.id) && !HasLive(log, r.key))
    && (IsTombstone(r) ==> Inserted(log, r.id) && r.id !in Tombs(log))
  }

  ghost predicate WellFormed(log: Log)
  {
    log == [] || (WellFormed(log[..|log| - 1]) && Appendable(log[..|log| - 1], log[|log| - 1]))
  }

  // ---- appending ------------------------------------------------------------------------------------

  lemma AppendOne(log: Log, r: Record)
    ensures Tombs(log + [r]) == Tombs(log) + if IsTombstone(r) then {r.id} else {}
    ensures forall id, key :: InsertedAs(log + [r], id, key) <==> InsertedAs(log, id, key) || InsertsAs(r, id, key)
    ensures forall id :: Inserted(log + [r], id) <==> Inserted(log, id) || (IsInsert(r) && r.id == id)
    ensures WellFormed(log + [r]) <==> WellFormed(log) && Appendable(log, r)
    ensures LastOffset(log + [r]) == r.offset
  {
    hide Inserted, InsertedAs, HasLive, InsertsAs;
    var l := log + [r];
    assert l[..|log|] == log && l[|log|] == r;
    forall id, key
      ensures InsertedAs(l, id, key) <==> InsertedAs(log, id, key) || InsertsAs(r, id, key)
    {
      InsertedAsAppend(log, r, id, key);
    }
    forall id
      ensures Inserted(l, id) <==> Inserted(log, id) || (IsInsert(r) && r.id == id)
    {
      InsertedAppend(log, r, id);
    }
  }

  lemma InsertedAsAppend(log: Log, r: Record, id: nat, key: Text)
    ensures InsertedAs(log + [r], id, key) <==> InsertedAs(log, id, key) || InsertsAs(r, id, key)
  {
    hide InsertsAs;
    var l, n := log + [r], |log|;
    if InsertedAs(log, id, key) {
      var i :| 0 <= i < n && InsertsAs(log[i], id, key);
      assert InsertsAs(l[i], id, key);
    }
    if InsertsAs(r, id, key) { assert InsertsAs(l[n], id, key); }
    if InsertedAs(l, id, key) {
      var i :| 0 <= i < |l| && InsertsAs(l[i], id, key);
      assert i < n ==> InsertsAs(log[i], id, key);
    }
  }

  lemma InsertedAppend(log: Log, r: Record, id: nat)
    ensures Inserted(log + [r], id) <==> Inserted(log, id) || (IsInsert(r) && r.id == id)
  {
    var l, n := log + [r], |log|;
    if Inserted(log, id) {
      var i :| 0 <= i < n && IsInsert(log[i]) && log[i].id == id;
      assert l[i] == log[i];
    }
    if IsInsert(r) && r.id == id { assert l[n] == r; }
    if Inserted(l, id) {
      var i :| 0 <= i < |l| && IsInsert(l[i]) && l[i].id == id;
      assert i < n ==> log[i] == l[i];
    }
  }

  lemma InsertedKey(log: Log, id: nat)
    ensures Inserted(log, id) <==> exists key :: InsertedAs(log, id, key)
  {
    if Inserted(log, id) {
      var i :| 0 <= i < |log| && IsInsert(log[i]) && log[i].id == id;
      assert InsertsAs(log[i], id, log[i].key);
      assert InsertedAs(log, id, log[i].key);
    }
    if key :| InsertedAs(log, id, key) {
      var i :| 0 <= i < |log| && InsertsAs(log[i], id, key);
    }
  }

  lemma Snoc(log: Log)
    requires log != []
    ensures log == log[..|log| - 1] + [log[|log| - 1]]
  {
  }

  lemma {:induction false} WellFormedPrefix(log: Log, k: nat)
    requires WellFormed(log) && k <= |log|
    ensures WellFormed(log[..k])
  {
    if k == |log| {
      assert log[..k] == log;
    } else {
      assert log[..k] == log[..|log| - 1][..k];
      WellFormedPrefix(log[..|log| - 1], k);
    }
  }

  lemma {:induction false} TombsOfConcat(a: Log, b: Log)
    ensures Tombs(a + b) == Tombs(a) + Tombs(b)
  {
    if b == [] {
      assert a + b == a;
    } else {
      var m := |b| - 1;
      assert a + b == (a + b[..m]) + [b[m]];
      AppendOne(a + b[..m], b[m]);
      TombsOfConcat(a, b[..m]);
    }
  }

  lemma InsertedInConcat(a: Log, b: Log, id: nat, key: Text)
    ensures InsertedAs(a + b, id, key) <==> InsertedAs(a, id, key) || InsertedAs(b, id, key)
  {
    if InsertedAs(a, id, key) {
      var i :| 0 <= i < |a| && InsertsAs(a[i], id, key);
      assert InsertsAs((a + b)[i], id, key);
    }
    if InsertedAs(b, id, key) {
      var i :| 0 <= i < |b| && InsertsAs(b[i], id, key);
      assert InsertsAs((a + b)[|a| + i], id, key);
    }
    if InsertedAs(a + b, id, key) {
      var i :| 0 <= i < |a + b| && InsertsAs((a + b)[i], id, key);
      if i < |a| { assert InsertsAs(a[i], id, key); } else { assert InsertsAs(b[i - |a|], id, key); }
    }
  }

  // ---- what well-formedness gives ------------------------------------------------------------------------

  lemma {:induction false} OffsetsIncrease(log: Log, i: nat)
    requires WellFormed(log) && i < |log|
    ensures 0 < log[i].offset <= LastOffset(log)
    ensures forall j :: i < j < |log| ==> log[i].offset < log[j].offset
  {
    var n := |log| - 1;
    if i < n {
      OffsetsIncrease(log[..n], i);
      assert LastOffset(log[..n]) < log[n].offset;
      forall j | i < j < |log| ensures log[i].offset < log[j].offset {
        if j < n { assert log[..n][i].offset < log[..n][j].offset; }
      }
    } else {
      assert LastOffset(log[..n]) < log[n].offset;
    }
  }

  /** An id stands for one key, and is not zero. */
  lemma {:induction false} OneKeyPerId(log: Log, id: nat, key0: Text, key1: Text)
    requires WellFormed(log) && InsertedAs(log, id, key0) && InsertedAs(log, id, key1)
    ensures key0 == key1 && id != 0
    decreases |log|
  {
    var n := |log| - 1;
    Snoc(log);
    AppendOne(log[..n], log[n]);
    InsertedKey(log[..n], id);
    if InsertedAs(log[..n], id, key0) && InsertedAs(log[..n], id, key1) {
      OneKeyPerId(log[..n], id, key0, key1);
    }
  }

  /** A key has at most one live id: what makes key lookups well defined. */
  lemma {:induction false} OneLivePerKey(log: Log, id0: nat, id1: nat, key: Text)
    requires WellFormed(log) && LiveAs(log, id0, key) && LiveAs(log, id1, key)
    ensures id0 == id1
    decreases |log|
  {
    var n := |log| - 1;
    Snoc(log);
    AppendOne(log[..n], log[n]);
    assert LiveAs(log[..n], id0, key) || LiveAs(log[..n], id1, key) ==> HasLive(log[..n], key);
    if LiveAs(log[..n], id0, key) && LiveAs(log[..n], id1, key) {
      OneLivePerKey(log[..n], id0, id1, key);
    }
  }

  /** Only inserted ids are tombstoned. */
  lemma {:induction false} TombsAreInserted(log: Log, id: nat)
    requires WellFormed(log) && id in Tombs(log)
    ensures Inserted(log, id)
    decreases |log|
  {
    var n := |log| - 1;
    Snoc(log);
    AppendOne(log[..n], log[n]);
    if id in Tombs(log[..n]) { TombsAreInserted(log[..n], id); }
  }
}
