/** Fields in line protocol text (models/points.go: Fields.MarshalBinary, appendField, the field iterator,
    scanFieldValue and Split; pkg/escape for keys): `key=value,key=value`. */
module FieldText {
  import opened Arithmetic
  import opened Collections
  import opened Bytes
  import opened Escaping

  // ---- string values --------------------------------------------------------------------------------------

  predicate SpecialInString(c: byte) { c == QUOTE || c == BACKSLASH }

  /** EscapeStringField */
  function EscapeString(s: Text): Text
  {
    if s == [] then [] else (if SpecialInString(s[0]) then [BACKSLASH, s[0]] else [s[0]]) + EscapeString(s[1..])
  }

  function UnescapeString(s: Text): Text
  {
    if |s| >= 2 && s[0] == BACKSLASH && SpecialInString(s[1]) then [s[1]] + UnescapeString(s[2..])
    else if s == [] then []
    else [s[0]] + UnescapeString(s[1..])
  }

  /** unescapeStringField */
  method UnescapeStringField(s: Text) returns (out: Text)
    ensures out == UnescapeString(s)
  {
    hide UnescapeString;
    if BACKSLASH !in s {
      PlainString(s);
      return s;
    }
    out := [];
    assert s[0..] == s;
    var i := 0;
    while i < |s|
      invariant 0 <= i <= |s| && out + UnescapeString(s[i..]) == UnescapeString(s)
    {
      UnescapeStringAt(s, i, out);
      if s[i] == BACKSLASH && i + 1 < |s| && s[i + 1] == BACKSLASH {
        out := out + [BACKSLASH];
        i := i + 2;
        continue;
      }
      if s[i] == BACKSLASH && i + 1 < |s| && s[i + 1] == QUOTE {
        out := out + [QUOTE];
        i := i + 2;
        continue;
      }
      out := out + [s[i]];
      i := i + 1;
    }
    UnescapeNoString();
    assert s[i..] == [];
  }

  lemma UnescapeNoString()
    ensures UnescapeString([]) == []
  {
  }

  lemma UnescapeStringAt(s: Text, i: nat, out: Text)
    requires i < |s|
    ensures out + UnescapeString(s[i..]) ==
      if s[i] == BACKSLASH && i + 1 < |s| && SpecialInString(s[i + 1])
      then out + [s[i + 1]] + UnescapeString(s[i + 2..])
      else out + [s[i]] + UnescapeString(s[i + 1..])
  {
    assert s[i..][1..] == s[i + 1..];
    if i + 1 < |s| { assert s[i..][2..] == s[i + 2..]; }
  }

  lemma {:induction false} PlainString(s: Text)
    requires BACKSLASH !in s
    ensures UnescapeString(s) == s
  {
    if s != [] { PlainString(s[1..]); }
  }

  lemma {:induction false} StringRoundTrip(s: Text)
    ensures UnescapeString(EscapeString(s)) == s
  {
    if s != [] {
      var e, rest := EscapeString(s), EscapeString(s[1..]);
      StringRoundTrip(s[1..]);
      assert s == [s[0]] + s[1..];
      if SpecialInString(s[0]) { assert e[2..] == rest; } else { assert e[1..] == rest; }
    }
  }

  // ---- field keys -------------------------------------------------------------------------------------------

  predicate SpecialInKey(c: byte) { c == COMMA || c == QUOTE || c == SPACE || c == EQUALS }

  /** escape.String */
  function EscapeKey(s: Text): Text
  {
    if s == [] then [] else (if SpecialInKey(s[0]) then [BACKSLASH, s[0]] else [s[0]]) + EscapeKey(s[1..])
  }

  function UnescapeKey(s: Text): Text
  {
    if |s| >= 2 && s[0] == BACKSLASH && SpecialInKey(s[1]) then [s[1]] + UnescapeKey(s[2..])
    else if s == [] then []
    else [s[0]] + UnescapeKey(s[1..])
  }

  lemma {:induction false} KeyRoundTrip(s: Text)
    ensures UnescapeKey(EscapeKey(s)) == s
  {
    if s != [] {
      var e, rest := EscapeKey(s), EscapeKey(s[1..]);
      KeyRoundTrip(s[1..]);
      assert s == [s[0]] + s[1..];
      if SpecialInKey(s[0]) { assert e[2..] == rest; } else { assert e[1..] == rest; }
    }
  }

  /** An escape somewhere: what escape.IsEscaped looks for. */
  ghost predicate HasEscape(s: Text)
  {
    exists i :: 0 <= i && i + 1 < |s| && s[i] == BACKSLASH && SpecialInKey(s[i + 1])
  }

  /** The next backslash at or after pos, or the end. */
  function NextBackslash(s: Text, pos: nat): (i: nat)
    requires pos <= |s|
    ensures pos <= i <= |s| && (i < |s| ==> s[i] == BACKSLASH) && forall j :: pos <= j < i ==> s[j] != BACKSLASH
    decreases |s| - pos
  {
    if pos == |s| || s[pos] == BACKSLASH then pos else NextBackslash(s, pos + 1)
  }

  method IsEscaped(b0: Text) returns (found: bool)
    ensures found <==> HasEscape(b0)
  {
    var b := b0;
    ghost var at := 0;
    while |b| > 0
      invariant 0 <= at <= |b0| && b == b0[at..]
      invariant forall i :: 0 <= i < at && i + 1 < |b0| && b0[i] == BACKSLASH ==> !SpecialInKey(b0[i + 1])
      decreases |b|
    {
      var i := NextBackslash(b, 0);
      assert forall k :: at <= k < at + i ==> b0[k] == b[k - at];
      if i == |b| {
        return false;
      }
      assert b0[at + i] == b[i];
      if i + 1 < |b| && SpecialInKey(b[i + 1]) {
        assert b0[at + i + 1] == b[i + 1];
        return true;
      }
      assert i + 1 < |b| ==> b0[at + i + 1] == b[i + 1];
      at := at + i + 1;
      b := b[i + 1..];
    }
    return false;
  }

  lemma {:induction false} NoEscapeNoChange(s: Text)
    requires !HasEscape(s)
    ensures UnescapeKey(s) == s
    decreases |s|
  {
    if s != [] {
      assert !HasEscape(s[1..]);
      NoEscapeNoChange(s[1..]);
    }
  }

  lemma {:induction false} UnescapeSkips(s: Text, k: nat)
    requires k <= |s| && forall j :: 0 <= j < k ==> s[j] != BACKSLASH
    ensures UnescapeKey(s) == s[..k] + UnescapeKey(s[k..])
  {
    hide UnescapeKey;
    if k == 0 {
      assert s[0..] == s && s[..0] == [];
    } else {
      var rest := UnescapeKey(s[k..]);
      UnescapeSkips(s[1..], k - 1);
      assert s[1..][k - 1..] == s[k..];
      assert s == [s[0]] + s[1..];
      UnescapeKeyStep(s[0], s[1..]);
      assert [s[0]] + s[1..][..k - 1] == s[..k];
      assert [s[0]] + (s[1..][..k - 1] + rest) == s[..k] + rest;
    }
  }

  /** escape.AppendUnescaped, which moves whole stretches between backslashes. */
  method AppendUnescaped(dst: Text, src0: Text) returns (out: Text)
    ensures out == dst + UnescapeKey(src0)
  {
    hide UnescapeKey;
    out := dst;
    var src := src0;
    var pos := 0;
    assert src[..0] == [] && src[0..] == src;
    while |src| > 0
      invariant 0 <= pos <= |src| && out + (src[..pos] + UnescapeKey(src[pos..])) == dst + UnescapeKey(src0)
      decreases |src| - pos, |src|
    {
      var next := NextBackslash(src, pos);
      ThroughBackslash(src, pos, next);
      if next == |src| || next + 1 >= |src| {
        return out + src;
      }
      if SpecialInKey(src[next + 1]) {
        assert out + (src[..next] + UnescapeKey(src[next + 1..])) == (out + src[..next]) + UnescapeKey(src[next + 1..]);
        out := out + src[..next];
        src := src[next + 1..];
        pos := 0;
        assert src[..0] == [] && src[0..] == src;
      } else {
        pos := next + 1;
      }
    }
    assert UnescapeKey([]) == [] by { UnescapeNothing(); }
    assert src[..pos] == [] && src[pos..] == [];
  }

  lemma UnescapeNothing()
    ensures UnescapeKey([]) == []
  {
  }

  /** What one round of AppendUnescaped may conclude. */
  lemma ThroughBackslash(s: Text, pos: nat, next: nat)
    requires pos <= next <= |s| && (forall j :: pos <= j < next ==> s[j] != BACKSLASH) && (next < |s| ==> s[next] == BACKSLASH)
    ensures next + 1 >= |s| ==> s[..pos] + UnescapeKey(s[pos..]) == s
    ensures next + 1 < |s| && SpecialInKey(s[next + 1]) ==>
      s[..pos] + UnescapeKey(s[pos..]) == s[..next] + UnescapeKey(s[next + 1..])
    ensures next + 1 < |s| && !SpecialInKey(s[next + 1]) ==>
      s[..pos] + UnescapeKey(s[pos..]) == s[..next + 1] + UnescapeKey(s[next + 1..])
  {
    hide UnescapeKey;
    var t := s[pos..];
    UnescapeSkips(t, next - pos);
    var r := s[next..];
    assert t[next - pos..] == r && s[..pos] + t[..next - pos] == s[..next];
    assert s[..pos] + (t[..next - pos] + UnescapeKey(r)) == s[..next] + UnescapeKey(r);
    AtBackslash(r);
    if next < |s| {
      assert r[1..] == s[next + 1..] && s[..next] + [BACKSLASH] == s[..next + 1];
      assert s[..next] + ([BACKSLASH] + UnescapeKey(r[1..])) == s[..next + 1] + UnescapeKey(r[1..]);
    }
    assert s[..next] + r == s;
  }

  lemma AtBackslash(r: Text)
    requires r != [] ==> r[0] == BACKSLASH
    ensures |r| <= 1 ==> UnescapeKey(r) == r
    ensures |r| > 1 ==> UnescapeKey(r) == (if SpecialInKey(r[1]) then [] else [BACKSLASH]) + UnescapeKey(r[1..])
  {
    if |r| > 1 {
      assert r[2..] == r[1..][1..];
    } else if |r| == 1 {
      assert r[1..] == [] && r == [BACKSLASH];
    }
  }

  /** A backslash goes in front of every comma, quote, space and equals sign of a field key. */
  lemma {:induction false} EscapedKeyBytes(s: Text)
    ensures EscapeKey(s) == ByByte(Ascii(",\" ="), s)
  {
    assert Ascii(",\" =") == [COMMA, QUOTE, SPACE, EQUALS];
    if s != [] { EscapedKeyBytes(s[1..]); }
  }

  lemma EscapedKey(s: Text, prev: byte)
    ensures Guarded(EQUALS, prev, EscapeKey(s))
    ensures EndsInBackslash(EscapeKey(s)) <==> EndsInBackslash(s)
    ensures EscapeKey(s) == [] <==> s == []
  {
    hide EscapeKey, EndsInBackslash, Guarded;
    KeyIsGuarded(s, prev);
    KeyKeepsEnd(s);
  }

  lemma {:induction false} KeyIsGuarded(s: Text, prev: byte)
    ensures Guarded(EQUALS, prev, EscapeKey(s))
    decreases |s|
  {
    if s != [] {
      var e, rest := EscapeKey(s), EscapeKey(s[1..]);
      KeyIsGuarded(s[1..], s[0]);
      if SpecialInKey(s[0]) {
        assert e == [BACKSLASH] + ([s[0]] + rest);
        assert e[1..] == [s[0]] + rest && ([s[0]] + rest)[1..] == rest;
      } else {
        assert e[1..] == rest;
      }
    }
  }

  lemma {:induction false} KeyKeepsEnd(s: Text)
    ensures EndsInBackslash(EscapeKey(s)) <==> EndsInBackslash(s)
    ensures EscapeKey(s) == [] <==> s == []
  {
    if s != [] {
      var first, rest := if SpecialInKey(s[0]) then [BACKSLASH, s[0]] else [s[0]], EscapeKey(s[1..]);
      KeyKeepsEnd(s[1..]);
      assert EscapeKey(s) == first + rest;
      assert rest == [] ==> EscapeKey(s)[|first| - 1] == s[0];
    }
  }

  // ---- scanning a value ---------------------------------------------------------------------------------------

  /** scanFieldValue: quotes protect commas, and a backslash protects a quote or a backslash. */
  function ScanValue(buf: Text, i: nat, quoted: bool): (j: nat)
    ensures j >= i && (i <= |buf| ==> j <= |buf|)
    decreases if i < |buf| then |buf| - i else 0
  {
    if i >= |buf| then i
    else if buf[i] == BACKSLASH && i + 1 < |buf| && SpecialInString(buf[i + 1]) then ScanValue(buf, i + 2, quoted)
    else if buf[i] == QUOTE then ScanValue(buf, i + 1, !quoted)
    else if buf[i] == COMMA && !quoted then i
    else ScanValue(buf, i + 1, quoted)
  }

  method ScanFieldValue(buf: Text, i0: nat) returns (i: nat)
    ensures i == ScanValue(buf, i0, false)
  {
    i := i0;
    var quoted := false;
    while i < |buf|
      invariant i >= i0 && ScanValue(buf, i, quoted) == ScanValue(buf, i0, false)
      decreases |buf| - i
    {
      if buf[i] == BACKSLASH && i + 1 < |buf| && (buf[i + 1] == QUOTE || buf[i + 1] == BACKSLASH) {
        i := i + 2;
        continue;
      }
      if buf[i] == QUOTE {
        i := i + 1;
        quoted := !quoted;
        continue;
      }
      if buf[i] == COMMA && !quoted {
        break;
      }
      i := i + 1;
    }
  }

  /** The state after scanning v, inside quotes or not; none if a comma outside quotes stops the scan. */
  function Through(v: Text, quoted: bool): Option<bool>
    decreases |v|
  {
    if v == [] then Some(quoted)
    else if v[0] == BACKSLASH && |v| >= 2 && SpecialInString(v[1]) then Through(v[2..], quoted)
    else if v[0] == QUOTE then Through(v[1..], !quoted)
    else if v[0] == COMMA && !quoted then None
    else Through(v[1..], quoted)
  }

  /** A value whose end the scan finds: no comma outside quotes, and closed quotes unless nothing follows. */
  predicate Scanned(v: Text, last: bool) { Through(v, false).Some? && (last || Through(v, false) == Some(false)) }

  /** The scan stops inside v, or goes on behind it. */
  lemma {:induction false} ScanThrough(buf: Text, i: nat, v: Text, quoted: bool)
    requires i + |v| <= |buf| && buf[i..i + |v|] == v
    requires i + |v| < |buf| ==> buf[i + |v|] == COMMA
    ensures match Through(v, quoted)
      case None => ScanValue(buf, i, quoted) < i + |v|
      case Some(q) => ScanValue(buf, i, quoted) == ScanValue(buf, i + |v|, q)
    decreases |v|
  {
    if v != [] {
      assert buf[i] == v[0];
      if v[0] == BACKSLASH && |v| >= 2 && SpecialInString(v[1]) {
        assert buf[i + 1] == v[1];
        assert buf[i + 2..i + 2 + |v[2..]|] == v[2..];
        ScanThrough(buf, i + 2, v[2..], quoted);
      } else {
        if |v| >= 2 { assert buf[i + 1] == v[1]; }
        assert buf[i + 1..i + 1 + |v[1..]|] == v[1..];
        ScanThrough(buf, i + 1, v[1..], if v[0] == QUOTE then !quoted else quoted);
      }
    }
  }

  /** The scan finds the end of a value that a comma or nothing follows, exactly when it is scanned. */
  lemma ScanFindsEnd(buf: Text, i: nat, v: Text)
    requires i + |v| <= |buf| && buf[i..i + |v|] == v
    requires i + |v| < |buf| ==> buf[i + |v|] == COMMA
    ensures ScanValue(buf, i, false) == i + |v| <==> Scanned(v, i + |v| == |buf|)
  {
    hide Through;
    ScanThrough(buf, i, v, false);
  }

  lemma {:induction false} QuotedIsScanned(s: Text)
    ensures Through(EscapeString(s) + [QUOTE], true) == Some(false)
    decreases |s|
  {
    if s != [] {
      var v, rest := EscapeString(s) + [QUOTE], EscapeString(s[1..]) + [QUOTE];
      QuotedIsScanned(s[1..]);
      if SpecialInString(s[0]) {
        assert v == [BACKSLASH, s[0]] + rest;
        assert v[2..] == rest;
      } else {
        assert v == [s[0]] + rest;
        assert v[1..] == rest;
      }
    } else {
      assert EscapeString(s) + [QUOTE] == [QUOTE];
      assert Through([QUOTE][1..], false) == Some(false);
    }
  }

  // ---- sections of fields -----------------------------------------------------------------------------------------

  /** Texts joined by commas. */
  function Section(ts: seq<Text>): Text
  {
    if ts == [] then []
    else if |ts| == 1 then ts[0]
    else ts[0] + [COMMA] + Section(ts[1..])
  }

  /** The first text of a section and what follows it. */
  lemma FirstText(buf: Text, at: nat, ts: seq<Text>)
    requires ts != [] && at <= |buf| && buf[at..] == Section(ts)
    ensures var n := |ts[0]|;
      && at + n <= |buf| && buf[at..at + n] == ts[0]
      && (|ts| == 1 ==> at + n == |buf|)
      && (|ts| > 1 ==> at + n < |buf| && buf[at + n] == COMMA && buf[at + n + 1..] == Section(ts[1..]))
  {
    var f := ts[0];
    if |ts| > 1 {
      var x := f + [COMMA] + Section(ts[1..]);
      assert buf[at..] == x;
      assert forall k :: 0 <= k < |x| ==> buf[at + k] == x[k];
    } else {
      assert buf[at..] == f;
    }
  }

  lemma {:induction false} SectionAppend(ts: seq<Text>, t: Text)
    ensures Section(ts + [t]) == Section(ts) + (if ts == [] then [] else [COMMA]) + t
  {
    if ts == [] {
      assert ts + [t] == [t];
    } else {
      assert (ts + [t])[1..] == ts[1..] + [t];
      SectionAppend(ts[1..], t);
      if |ts| == 1 { assert ts[1..] == []; }
    }
  }

  /** A field as it stands in the text. */
  datatype Parts = Parts(key: Text, value: Text)

  /** The key's equals signs are escaped, and the one behind it is not. */
  predicate GoodKey(p: Parts) { Guarded(EQUALS, 0, p.key) && !EndsInBackslash(p.key) }

  function FieldOf(p: Parts): (s: Text)
    ensures |s| == |p.key| + 1 + |p.value|
  {
    p.key + [EQUALS] + p.value
  }

  /** Which byte comes before matters only to text that starts with the stop byte. */
  lemma GuardedAnyway(c: byte, prev: byte, s: Text)
    requires Guarded(c, 0, s)
    ensures Guarded(c, prev, s)
  {
  }

  lemma CutField(buf: Text, at: nat, p: Parts)
    requires at + |FieldOf(p)| <= |buf| && buf[at..at + |FieldOf(p)|] == FieldOf(p)
    ensures buf[at..at + |p.key|] == p.key && buf[at + |p.key|] == EQUALS && buf[at + |p.key| + 1..at + |FieldOf(p)|] == p.value
  {
    var f := FieldOf(p);
    assert forall k :: 0 <= k < |f| ==> buf[at + k] == f[k] by {
      var cut := buf[at..at + |f|];
      assert forall k :: 0 <= k < |f| ==> cut[k] == buf[at + k];
    }
    assert forall k :: 0 <= k < |p.key| ==> f[k] == p.key[k];
  }

  /** Scanning a field finds its key, and its value exactly when that is scanned. */
  lemma ScanField(buf: Text, at: nat, p: Parts)
    requires GoodKey(p) && at + |FieldOf(p)| <= |buf| && buf[at..at + |FieldOf(p)|] == FieldOf(p)
    requires Before(buf, at) != BACKSLASH
    requires at + |FieldOf(p)| < |buf| ==> buf[at + |FieldOf(p)|] == COMMA
    ensures ScanTo(buf, at, EQUALS) == at + |p.key| < |buf|
    ensures ScanValue(buf, at + |p.key| + 1, false) == at + |FieldOf(p)| <==> Scanned(p.value, at + |FieldOf(p)| == |buf|)
    ensures buf[at..at + |p.key|] == p.key && buf[at + |p.key| + 1..at + |FieldOf(p)|] == p.value
  {
    hide Guarded, Scanned, ScanTo, ScanValue;
    CutField(buf, at, p);
    GuardedAnyway(EQUALS, Before(buf, at), p.key);
    ScanExactly(buf, at, EQUALS, p.key);
    ScanFindsEnd(buf, at + |p.key| + 1, p.value);
  }

  // ---- the field iterator -------------------------------------------------------------------------------------------

  datatype Kind = Empty | String | Integer | Unsigned | Float | Boolean

  /** What Next leaves in the iterator; `text` is the value, without the suffix of an integer. */
  datatype Item = Item(key: Text, kind: Kind, text: Text)

  /** First bytes of numbers: 0123456789-.nNiIu */
  predicate StartsNumber(c: byte)
  {
    48 <= c <= 57 || c == 45 || c == 46 || c == 110 || c == 78 || c == 105 || c == 73 || c == 117
  }

  /** The type of a value by its first and last byte. */
  function Classify(key: Text, v: Text): Item
  {
    if v == [] then Item(key, Empty, v)
    else if v[0] == QUOTE then Item(key, String, v)
    else if StartsNumber(v[0]) then
      if v[|v| - 1] == 105 then Item(key, Integer, v[..|v| - 1])
      else if v[|v| - 1] == 117 then Item(key, Unsigned, v[..|v| - 1])
      else Item(key, Float, v)
    else Item(key, Boolean, v)
  }

  lemma NumbersStartWith(c: byte)
    ensures StartsNumber(c) <==> c in Ascii("0123456789-.nNiIu")
  {
    var s := Ascii("0123456789-.nNiIu");
    assert s == [48, 49, 50, 51, 52, 53, 54, 55, 56, 57, 45, 46, 110, 78, 105, 73, 117];
  }

  /** All the fields from a position on. */
  function Iterate(buf: Text, at: nat): seq<Item>
    decreases if at < |buf| then |buf| - at else 0
  {
    if at >= |buf| then []
    else
      var e := ScanTo(buf, at, EQUALS);
      if e >= |buf| then [Classify(UnescapeKey(buf[at..e]), [])]
      else
        var j := ScanValue(buf, e + 1, false);
        [Classify(UnescapeKey(buf[at..e]), buf[e + 1..j])] + Iterate(buf, j + 1)
  }

  datatype Next = End | Shown | Panic

  class FieldIterator {
    const fields: Text
    const capacity: nat
    var start: nat
    var end: nat
    var item: Item

    /** A slice of bytes has a capacity, which may be more than its length. */
    constructor (fields: Text, capacity: nat)
      requires capacity >= |fields|
      ensures this.fields == fields && this.capacity == capacity && end == 0
    {
      this.fields, this.capacity, start, end, item := fields, capacity, 0, 0, Item([], Empty, []);
    }

    /** Without an equals sign the empty value is cut from one past the end, which panics if the slice ends there. */
    method Next() returns (r: Next)
      modifies this
      ensures start == old(end) && (r.End? <==> old(end) >= |fields|)
      ensures r.Panic? <==> old(end) < |fields| && ScanTo(fields, old(end), EQUALS) >= |fields| >= capacity
      ensures r.Shown? ==> Iterate(fields, old(end)) == [item] + Iterate(fields, end)
      ensures r.End? ==> Iterate(fields, old(end)) == [] && end == old(end) && item == old(item)
    {
      hide UnescapeKey, ScanTo, ScanValue, Classify, HasEscape;
      start := end;
      if start >= |fields| {
        return End;
      }
      var e := ScanToLoop(fields, start, EQUALS);
      var key := fields[start..e];
      var escaped := IsEscaped(key);
      if escaped {
        key := AppendUnescaped([], key);
      } else {
        NoEscapeNoChange(key);
      }
      assert key == UnescapeKey(fields[start..e]);
      if e >= |fields| {
        if e + 1 > capacity {
          return Panic;
        }
        end := e + 2;
        item := Classify(key, []);
        return Shown;
      }
      var j := ScanFieldValue(fields, e + 1);
      end := j + 1;
      item := Classify(key, fields[e + 1..j]);
      return Shown;
    }
  }

  function ItemOf(p: Parts): Item { Classify(UnescapeKey(p.key), p.value) }

  /** Different values are shown differently. */
  lemma ClassifyInjective(key: Text, v: Text, u: Text)
    ensures Classify(key, v) == Classify(key, u) ==> v == u
  {
    if v != [] { assert v == v[..|v| - 1] + [v[|v| - 1]]; }
    if u != [] { assert u == u[..|u| - 1] + [u[|u| - 1]]; }
  }

  /** The first field is found, and the rest as if it stood alone, exactly when the value is scanned. */
  lemma IterateFirst(buf: Text, at: nat, p: Parts, ts: seq<Text>)
    requires ts != [] && ts[0] == FieldOf(p) && GoodKey(p) && at <= |buf| && buf[at..] == Section(ts) && Before(buf, at) != BACKSLASH
    ensures Iterate(buf, at) != []
    ensures Iterate(buf, at)[0] == ItemOf(p) <==> Scanned(p.value, |ts| == 1)
    ensures Scanned(p.value, |ts| == 1) ==>
      var next := at + |ts[0]| + 1;
      && Iterate(buf, at) == [ItemOf(p)] + Iterate(buf, next)
      && (|ts| == 1 ==> Iterate(buf, next) == [])
      && (|ts| > 1 ==> next <= |buf| && buf[next..] == Section(ts[1..]) && Before(buf, next) != BACKSLASH)
  {
    hide ScanTo, ScanValue, FieldOf, GoodKey, Classify, UnescapeKey, Section, Scanned, Iterate;
    FirstText(buf, at, ts);
    ScanField(buf, at, p);
    var e, key := at + |p.key|, UnescapeKey(p.key);
    var j := ScanValue(buf, e + 1, false);
    IterateStep(buf, at);
    ClassifyInjective(key, buf[e + 1..j], p.value);
    assert |p.value| == at + |ts[0]| - (e + 1);
    if |ts| == 1 { PastTheEnd(buf, at + |ts[0]| + 1); }
  }

  lemma IterateStep(buf: Text, at: nat)
    requires at < |buf| && ScanTo(buf, at, EQUALS) < |buf|
    ensures var e := ScanTo(buf, at, EQUALS);
      var j := ScanValue(buf, e + 1, false);
      Iterate(buf, at) == [Classify(UnescapeKey(buf[at..e]), buf[e + 1..j])] + Iterate(buf, j + 1)
  {
    hide ScanTo, ScanValue, Classify, UnescapeKey;
  }

  lemma PastTheEnd(buf: Text, at: nat)
    requires at >= |buf|
    ensures Iterate(buf, at) == []
  {
  }

  // ---- marshalling ----------------------------------------------------------------------------------------------

  type uint64 = x: int | 0 <= x < TWO_64

  type Digits = s: Text | forall i :: 0 <= i < |s| ==> IsDigit(s[i])

  /** What strconv.AppendFloat writes in format 'f'. */
  datatype FloatForm = Finite(negative: bool, whole: nat, fraction: Digits) | NotANumber | PlusInf | MinusInf

  function FloatText(f: FloatForm): Text
  {
    match f
    case Finite(negative, whole, fraction) =>
      Ascii(if negative then "-" else "") + Decimal(whole) + if fraction == [] then [] else Ascii(".") + fraction
    case NotANumber => Ascii("NaN")
    case PlusInf => Ascii("+Inf")
    case MinusInf => Ascii("-Inf")
  }

  /** The values appendField tells apart; the other integer types are converted to int64, and what is of no such type to
      a string. */
  datatype Value =
    | Int(i: int64)
    | Uint(u: uint64)
    | Number(f: FloatForm)
    | Truth(b: bool)
    | Str(s: Text)
    | Raw(bytes: Text)
    | Nothing

  datatype Field = Field(key: Text, value: Value)

  function ValueText(v: Value): Text
  {
    match v
    case Int(i) => Decimal(i) + Ascii("i")
    case Uint(u) => Decimal(u) + Ascii("u")
    case Number(f) => FloatText(f)
    case Truth(b) => Ascii(if b then "true" else "false")
    case Str(s) => [QUOTE] + EscapeString(s) + [QUOTE]
    case Raw(bytes) => bytes
    case Nothing => []
  }

  /** appendField */
  function Marshalled(f: Field): Parts { Parts(EscapeKey(f.key), ValueText(f.value)) }

  function AllMarshalled(fs: seq<Field>): (ts: seq<Text>)
    ensures |ts| == |fs| && forall i :: 0 <= i < |fs| ==> ts[i] == FieldOf(Marshalled(fs[i]))
  {
    seq(|fs|, i requires 0 <= i < |fs| => FieldOf(Marshalled(fs[i])))
  }

  /** Fields.MarshalBinary over its sorted keys. */
  method MarshalBinary(fs: seq<Field>) returns (b: Text)
    ensures b == Section(AllMarshalled(fs))
  {
    hide Section, EscapeKey, ValueText;
    b := [];
    assert b == Section(AllMarshalled(fs[..0])) by { SectionOfNone(); }
    for i := 0 to |fs|
      invariant b == Section(AllMarshalled(fs[..i]))
    {
      var ts := AllMarshalled(fs[..i]);
      assert AllMarshalled(fs[..i + 1]) == ts + [FieldOf(Marshalled(fs[i]))];
      SectionAppend(ts, FieldOf(Marshalled(fs[i])));
      if i > 0 {
        b := b + [COMMA];
      }
      b := b + EscapeKey(fs[i].key);
      b := b + [EQUALS];
      b := b + ValueText(fs[i].value);
    }
    assert fs[..|fs|] == fs;
  }

  /** Two fields as they are written. */
  lemma TwoFieldsWritten(f: Field, g: Field)
    ensures Section(AllMarshalled([f, g])) == ByByte(Ascii(",\" ="), f.key) + Ascii("=") + ValueText(f.value)
      + Ascii(",") + ByByte(Ascii(",\" ="), g.key) + Ascii("=") + ValueText(g.value)
  {
    hide EscapeKey, ValueText, ByByte;
    EscapedKeyBytes(f.key);
    EscapedKeyBytes(g.key);
    assert Ascii(",") == [COMMA] && Ascii("=") == [EQUALS];
    var ts := AllMarshalled([f, g]);
    assert ts == [ts[0], ts[1]] && ts[1..] == [ts[1]];
  }

  /** A string is written in quotes, with a backslash in front of every quote and backslash. */
  lemma {:induction false} StringWritten(s: Text)
    ensures ValueText(Str(s)) == Ascii("\"") + ByByte(Ascii("\\\""), s) + Ascii("\"")
  {
    EscapedStringBytes(s);
    assert Ascii("\"") == [QUOTE];
  }

  lemma {:induction false} EscapedStringBytes(s: Text)
    ensures EscapeString(s) == ByByte(Ascii("\\\""), s)
  {
    assert Ascii("\\\"") == [BACKSLASH, QUOTE];
    if s != [] { EscapedStringBytes(s[1..]); }
  }

  lemma SectionOfNone()
    ensures Section([]) == []
  {
  }

  lemma MarshalledKey(f: Field)
    requires !EndsInBackslash(f.key)
    ensures GoodKey(Marshalled(f)) && UnescapeKey(Marshalled(f).key) == f.key
  {
    EscapedKey(f.key, 0);
    KeyRoundTrip(f.key);
  }

  lemma StringIsScanned(s: Text)
    ensures Through(ValueText(Str(s)), false) == Some(false)
  {
    QuotedIsScanned(s);
    var v := ValueText(Str(s));
    assert v == [QUOTE] + (EscapeString(s) + [QUOTE]);
    assert v[1..] == EscapeString(s) + [QUOTE];
  }

  lemma {:induction false} PlainIsScanned(v: Text)
    requires COMMA !in v && QUOTE !in v
    ensures Through(v, false) == Some(false)
    decreases |v|
  {
    if v != [] {
      PlainIsScanned(v[1..]);
      if |v| >= 2 { PlainIsScanned(v[2..]); }
    }
  }

  /** Digits, a sign and a point are neither comma nor quote. */
  predicate IsPlain(s: Text) { COMMA !in s && QUOTE !in s }

  lemma DecimalIsPlain(t: int)
    ensures var s := Decimal(t); s != [] && IsPlain(s) && (IsDigit(s[0]) || s[0] == '-' as int) && IsDigit(s[|s| - 1])
  {
    DecimalIs(t);
    var s := Decimal(t);
    if t < 0 {
      var digits := s[1..];
      assert s == [s[0]] + digits;
      assert forall c :: c in digits ==> IsDigit(c);
    } else {
      assert forall c :: c in s ==> IsDigit(c);
    }
  }

  lemma FiniteIsPlain(negative: bool, whole: nat, fraction: Digits)
    ensures var s := FloatText(Finite(negative, whole, fraction));
      s != [] && IsPlain(s) && (IsDigit(s[0]) || s[0] == '-' as int) && IsDigit(s[|s| - 1])
  {
    hide Decimal;
    DecimalIsPlain(whole);
    var sign, tail := Ascii(if negative then "-" else ""), if fraction == [] then [] else Ascii(".") + fraction;
    assert sign == if negative then ['-' as int] else [];
    assert tail == if fraction == [] then [] else ['.' as int] + fraction;
    assert forall c :: c in fraction ==> IsDigit(c);
    assert FloatText(Finite(negative, whole, fraction)) == sign + Decimal(whole) + tail;
  }

  lemma SpecialText(f: FloatForm)
    requires !f.Finite?
    ensures FloatText(f) == if f == NotANumber then [78, 97, 78] else if f == PlusInf then [43, 73, 110, 102] else [45, 73, 110, 102]
  {
    hide Decimal;
  }

  lemma FloatIsPlain(f: FloatForm)
    ensures var s := FloatText(f);
      && s != [] && IsPlain(s) && s[|s| - 1] != 'i' as int && s[|s| - 1] != 'u' as int
      && (StartsNumber(s[0]) <==> f != PlusInf) && s[0] != QUOTE
  {
    hide FloatText;
    if f.Finite? { FiniteIsPlain(f.negative, f.whole, f.fraction); } else { SpecialText(f); }
  }

  lemma TruthIsPlain(b: bool)
    ensures var s := Ascii(if b then "true" else "false"); s != [] && IsPlain(s) && !StartsNumber(s[0]) && s[0] != QUOTE
  {
    assert Ascii("true") == ['t' as int, 'r' as int, 'u' as int, 'e' as int];
    assert Ascii("false") == ['f' as int, 'a' as int, 'l' as int, 's' as int, 'e' as int];
  }

  /** Whatever is not raw bytes is scanned to its end. */
  lemma TypedIsScanned(v: Value)
    requires !v.Raw?
    ensures Through(ValueText(v), false) == Some(false)
  {
    hide Through, Decimal, FloatText, EscapeString;
    match v
    case Int(i) => DecimalIsPlain(i); PlainIsScanned(ValueText(v));
    case Uint(u) => DecimalIsPlain(u); PlainIsScanned(ValueText(v));
    case Number(f) => FloatIsPlain(f); PlainIsScanned(ValueText(v));
    case Truth(b) => TruthIsPlain(b); PlainIsScanned(ValueText(v));
    case Str(t) => StringIsScanned(t);
    case Nothing => PlainIsScanned(ValueText(v));
  }

  /** StringValue of an item. */
  function StringValue(item: Item): Text
    requires |item.text| >= 2
  {
    UnescapeString(item.text[1..|item.text| - 1])
  }

  /** What was marshalled is what the iterator shows: the key, the kind, and the value; raw bytes are of the kind they
      look like. */
  predicate Shows(item: Item, f: Field)
  {
    && item.key == f.key
    && match f.value
       case Int(i) => item.kind == Integer && IsDecimal(item.text, i)
       case Uint(u) => item.kind == Unsigned && IsDecimal(item.text, u)
       case Number(x) => item.kind == Float && item.text == FloatText(x)
       case Truth(b) => item.kind == Boolean && item.text == Ascii(if b then "true" else "false")
       case Str(s) => item.kind == String && |item.text| >= 2 && StringValue(item) == s
       case Raw(bytes) => item == Classify(f.key, bytes)
       case Nothing => item.kind == Empty && item.text == []
  }

  predicate ShowsAll(items: seq<Item>, fs: seq<Field>)
  {
    |items| == |fs| && forall i :: 0 <= i < |fs| ==> Shows(items[i], fs[i])
  }

  /** A marshalled field is shown as it is, except for positive infinity, which looks like a boolean. */
  lemma MarshalledIsShown(f: Field)
    requires UnescapeKey(Marshalled(f).key) == f.key
    ensures Shows(ItemOf(Marshalled(f)), f) <==> f.value != Number(PlusInf)
  {
    hide UnescapeKey, EscapeKey, EscapeString, UnescapeString, IsDecimal, FloatText, Decimal;
    var v := ValueText(f.value);
    match f.value
    case Int(i) => SuffixedIsShown(f.key, i, 'i' as int);
    case Uint(u) => SuffixedIsShown(f.key, u, 'u' as int);
    case Number(x) => FloatIsPlain(x);
    case Truth(b) => TruthIsPlain(b);
    case Str(t) =>
      assert v[0] == QUOTE && v[1..|v| - 1] == EscapeString(t);
      StringRoundTrip(t);
    case Raw(_) =>
    case Nothing =>
  }

  lemma SuffixedIsShown(key: Text, t: int, suffix: byte)
    requires suffix == 'i' as int || suffix == 'u' as int
    ensures var item := Classify(key, Decimal(t) + [suffix]);
      item.key == key && item.kind == (if suffix == 'i' as int then Integer else Unsigned) && IsDecimal(item.text, t)
    ensures Ascii("i") == ['i' as int] && Ascii("u") == ['u' as int]
  {
    hide IsDecimal;
    DecimalIsPlain(t);
    DecimalIs(t);
    var v := Decimal(t) + [suffix];
    assert v[..|v| - 1] == Decimal(t) && v[0] == Decimal(t)[0];
  }

  /** The key does not end in a backslash, and raw bytes are scanned to their end. */
  predicate Scannable(f: Field, last: bool) { !EndsInBackslash(f.key) && (f.value.Raw? ==> Scanned(f.value.bytes, last)) }

  predicate Readable(f: Field, last: bool) { Scannable(f, last) && f.value != Number(PlusInf) }

  /** The iterator shows every field with its key, kind and value if and only if every field is readable. */
  lemma FieldsRoundTrip(fs: seq<Field>)
    ensures ShowsAll(Iterate(Section(AllMarshalled(fs)), 0), fs) <==>
      forall i :: 0 <= i < |fs| ==> Readable(fs[i], i == |fs| - 1)
  {
    hide Iterate, ShowsAll, Readable;
    var buf := Section(AllMarshalled(fs));
    if fs == [] {
      NothingToIterate();
    } else {
      assert buf[0..] == buf;
      IterateMarshalled(buf, 0, fs);
    }
  }

  /** Without raw bytes, that is if and only if no key ends in a backslash and nothing is positive infinity. */
  lemma TypedFieldsRoundTrip(fs: seq<Field>)
    requires forall i :: 0 <= i < |fs| ==> !fs[i].value.Raw?
    ensures ShowsAll(Iterate(Section(AllMarshalled(fs)), 0), fs) <==>
      forall i :: 0 <= i < |fs| ==> !EndsInBackslash(fs[i].key) && fs[i].value != Number(PlusInf)
  {
    hide Iterate, ShowsAll, Section, AllMarshalled, EndsInBackslash;
    FieldsRoundTrip(fs);
    forall i | 0 <= i < |fs|
      ensures Readable(fs[i], i == |fs| - 1) <==> !EndsInBackslash(fs[i].key) && fs[i].value != Number(PlusInf)
    {
    }
  }

  lemma NothingToIterate()
    ensures ShowsAll(Iterate([], 0), [])
  {
  }

  lemma {:induction false} IterateMarshalled(buf: Text, at: nat, fs: seq<Field>)
    requires fs != [] && at <= |buf| && buf[at..] == Section(AllMarshalled(fs)) && Before(buf, at) != BACKSLASH
    ensures ShowsAll(Iterate(buf, at), fs) <==> forall i :: 0 <= i < |fs| ==> Readable(fs[i], i == |fs| - 1)
    decreases |fs|
  {
    hide Iterate, Section, GoodKey, Marshalled, ItemOf, Shows, FieldOf, Scanned, Scannable, EndsInBackslash, Before, Through, ValueText;
    var p, ts := Marshalled(fs[0]), AllMarshalled(fs);
    if EndsInBackslash(fs[0].key) {
      BackslashSwallowsKey(buf, at, fs);
      assert !Readable(fs[0], 0 == |fs| - 1) by { NotScannable(fs[0], 0 == |fs| - 1); }
    } else {
      MarshalledKey(fs[0]);
      IterateFirst(buf, at, p, ts);
      FirstIsShown(fs[0], Iterate(buf, at)[0], |fs| == 1);
      assert p.value == Marshalled(fs[0]).value;
      if !Readable(fs[0], |fs| == 1) {
        assert !Shows(Iterate(buf, at)[0], fs[0]);
      } else if |fs| > 1 {
        assert ts[1..] == AllMarshalled(fs[1..]);
        IterateMarshalled(buf, at + |ts[0]| + 1, fs[1..]);
        ShowsMore(ItemOf(p), Iterate(buf, at + |ts[0]| + 1), fs);
        ReadableRest(fs);
      }
    }
  }

  lemma NotScannable(f: Field, last: bool)
    requires EndsInBackslash(f.key)
    ensures !Scannable(f, last)
  {
  }

  lemma ReadableRest(fs: seq<Field>)
    requires |fs| > 1
    ensures (forall i :: 0 <= i < |fs| ==> Readable(fs[i], i == |fs| - 1)) <==>
      Readable(fs[0], false) && forall i :: 0 <= i < |fs| - 1 ==> Readable(fs[1..][i], i == |fs| - 2)
  {
    hide Readable;
    var rest := fs[1..];
    assert forall i :: 0 <= i < |rest| ==> rest[i] == fs[i + 1];
    if forall i :: 0 <= i < |rest| ==> Readable(rest[i], i == |fs| - 2) {
      forall i | 0 < i < |fs| ensures Readable(fs[i], i == |fs| - 1) { assert rest[i - 1] == fs[i]; }
    }
    if forall i :: 0 <= i < |fs| ==> Readable(fs[i], i == |fs| - 1) {
      forall i | 0 <= i < |rest| ensures Readable(rest[i], i == |fs| - 2) { assert rest[i] == fs[i + 1]; }
    }
  }

  /** An item with the right key shows its field exactly when the field is readable. */
  lemma FirstIsShown(f: Field, item: Item, last: bool)
    requires !EndsInBackslash(f.key) && UnescapeKey(Marshalled(f).key) == f.key
    requires item == ItemOf(Marshalled(f)) <==> Scanned(Marshalled(f).value, last)
    ensures Scannable(f, last) <==> Scanned(Marshalled(f).value, last)
    ensures Shows(item, f) <==> Readable(f, last)
    ensures Readable(f, last) ==> item == ItemOf(Marshalled(f))
  {
    hide Through, EndsInBackslash, UnescapeKey, Classify, EscapeString, EscapeKey, IsDecimal, FloatText, Decimal;
    MarshalledIsShown(f);
    if !f.value.Raw? { TypedIsScanned(f.value); }
    KeyOfClassified(f.key, ValueText(f.value));
  }

  lemma KeyOfClassified(key: Text, v: Text)
    ensures Classify(key, v).key == key
  {
  }

  lemma ShowsMore(item: Item, items: seq<Item>, fs: seq<Field>)
    requires fs != [] && Shows(item, fs[0])
    ensures ShowsAll([item] + items, fs) <==> ShowsAll(items, fs[1..])
  {
    hide Shows;
    var all := [item] + items;
    if ShowsAll(all, fs) {
      forall i | 0 <= i < |fs[1..]| ensures Shows(items[i], fs[1..][i]) {
        assert all[i + 1] == items[i] && fs[i + 1] == fs[1..][i];
      }
    }
    if ShowsAll(items, fs[1..]) {
      forall i | 0 <= i < |fs| ensures Shows(all[i], fs[i]) {
        if i > 0 { assert all[i] == items[i - 1] && fs[i] == fs[1..][i - 1]; }
      }
    }
  }

  // ---- keys that end in a backslash -----------------------------------------------------------------------------

  lemma UnescapeKeyStep(c: byte, rest: Text)
    ensures SpecialInKey(c) ==> UnescapeKey([BACKSLASH, c] + rest) == [c] + UnescapeKey(rest)
    ensures c != BACKSLASH || rest == [] || !SpecialInKey(rest[0]) ==> UnescapeKey([c] + rest) == [c] + UnescapeKey(rest)
  {
    assert ([BACKSLASH, c] + rest)[2..] == rest;
    assert ([c] + rest)[1..] == rest;
  }

  lemma EscapeNothing()
    ensures EscapeKey([]) == []
  {
  }

  lemma EscapeKeyStep(s: Text, t: Text)
    requires s != []
    ensures EscapeKey(s) + t == (if SpecialInKey(s[0]) then [BACKSLASH, s[0]] else [s[0]]) + (EscapeKey(s[1..]) + t)
  {
  }

  /** Escaped text never starts with a special byte. */
  lemma EscapedStart(s: Text, t: Text)
    requires t == [] || !SpecialInKey(t[0])
    ensures EscapeKey(s) + t == [] || !SpecialInKey((EscapeKey(s) + t)[0])
  {
  }

  lemma {:induction false} UnescapeThrough(s: Text, t: Text)
    requires t == [] || !SpecialInKey(t[0])
    ensures UnescapeKey(EscapeKey(s) + t) == s + UnescapeKey(t)
  {
    hide UnescapeKey, EscapeKey;
    if s == [] {
      EscapeNothing();
      assert EscapeKey(s) + t == t;
    } else {
      var rest := EscapeKey(s[1..]) + t;
      UnescapeThrough(s[1..], t);
      UnescapeKeyStep(s[0], rest);
      EscapedStart(s[1..], t);
      EscapeKeyStep(s, t);
      assert s + UnescapeKey(t) == [s[0]] + (s[1..] + UnescapeKey(t)) by { assert s == [s[0]] + s[1..]; }
    }
  }

  lemma {:induction false} EscapeKeyConcat(s: Text, t: Text)
    ensures EscapeKey(s + t) == EscapeKey(s) + EscapeKey(t)
  {
    if s == [] {
      assert s + t == t;
    } else {
      assert (s + t)[1..] == s[1..] + t;
      EscapeKeyConcat(s[1..], t);
    }
  }

  lemma EscapeBackslash()
    ensures EscapeKey([BACKSLASH]) == [BACKSLASH]
  {
    assert [BACKSLASH][1..] == [];
  }

  /** The equals sign after such a key is taken for an escaped one. */
  lemma WrongKey(k: Text, raw: Text)
    requires EndsInBackslash(k) && |raw| > |EscapeKey(k)| && raw[..|EscapeKey(k)| + 1] == EscapeKey(k) + [EQUALS]
    ensures UnescapeKey(raw) != k
  {
    hide EscapeKey;
    var m, front := |EscapeKey(k)|, k[..|k| - 1];
    assert k == front + [BACKSLASH];
    EscapeKeyConcat(front, [BACKSLASH]);
    EscapeBackslash();
    var t := [BACKSLASH, EQUALS] + raw[m + 1..];
    assert raw == raw[..m + 1] + raw[m + 1..];
    assert raw == EscapeKey(front) + t;
    UnescapeThrough(front, t);
    assert t[2..] == raw[m + 1..];
    assert UnescapeKey(t)[0] == EQUALS;
    assert UnescapeKey(raw)[|front|] == EQUALS && k[|front|] == BACKSLASH;
  }

  lemma BackslashSwallowsKey(buf: Text, at: nat, fs: seq<Field>)
    requires fs != [] && at <= |buf| && buf[at..] == Section(AllMarshalled(fs)) && Before(buf, at) != BACKSLASH
    requires EndsInBackslash(fs[0].key)
    ensures !ShowsAll(Iterate(buf, at), fs)
  {
    hide UnescapeKey, EscapeKey, ScanTo, ScanValue, Section, EndsInBackslash, Guarded, Iterate, FieldOf;
    var ts, p := AllMarshalled(fs), Marshalled(fs[0]);
    var x := EscapeKey(fs[0].key);
    var e := ScanTo(buf, at, EQUALS);
    FirstText(buf, at, ts);
    CutField(buf, at, p);
    EscapedKey(fs[0].key, Before(buf, at));
    ScanSwallows(buf, at, x);
    assert buf[at..e][..|x| + 1] == x + [EQUALS] by { OneMore(buf, at, |x|, e); }
    WrongKey(fs[0].key, buf[at..e]);
    FirstItem(buf, at);
  }

  lemma OneMore(buf: Text, at: nat, n: nat, e: nat)
    requires at + n < e <= |buf|
    ensures buf[at..e][..n + 1] == buf[at..at + n] + [buf[at + n]]
  {
  }

  lemma FirstItem(buf: Text, at: nat)
    requires at < |buf|
    ensures Iterate(buf, at) != [] && Iterate(buf, at)[0].key == UnescapeKey(buf[at..ScanTo(buf, at, EQUALS)])
  {
    hide UnescapeKey, ScanTo, ScanValue;
  }

  lemma ScanSwallows(buf: Text, at: nat, x: Text)
    requires at + |x| < |buf| && buf[at..at + |x|] == x && buf[at + |x|] == EQUALS
    requires Guarded(EQUALS, Before(buf, at), x) && EndsInBackslash(x)
    ensures ScanTo(buf, at, EQUALS) > at + |x|
  {
    ScanPast(buf, at, EQUALS, x);
    assert buf[at + |x| - 1] == x[|x| - 1];
  }
}
