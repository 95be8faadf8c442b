/** Tags in a series key of line protocol text (models/points.go, walkTags and parseTags;
    platform/models/points.go, AppendHashKey): `name,key=value,key=value` with escapes. */
module TagText {
  import opened Bytes
  import opened Escaping

  datatype Tag = Tag(key: Text, value: Text)

  // ---- writing ------------------------------------------------------------------------------------------

  function OneTag(t: Tag): Text { [COMMA] + EscapeTag(t.key) + [EQUALS] + EscapeTag(t.value) }

  /** AppendHashKey leaves out tags without a value. */
  function HashKey(tags: seq<Tag>): Text
  {
    if tags == [] then []
    else (if tags[0].value == [] then [] else OneTag(tags[0])) + HashKey(tags[1..])
  }

  /** AppendMakeKey, for a name that has been unescaped. */
  function Key(name: Text, tags: seq<Tag>): Text { EscapeMeasurement(name) + HashKey(tags) }

  /** The key of a name and one tag, byte by byte. */
  lemma KeyOfOneTag(name: Text, t: Tag)
    requires t.value != []
    ensures Key(name, [t])
      == ByByte(Ascii(", "), name) + Ascii(",") + ByByte(Ascii(", ="), t.key) + Ascii("=") + ByByte(Ascii(", ="), t.value)
  {
    hide EscapeTag, EscapeMeasurement, ByByte;
    EscapedBytes(name);
    EscapedBytes(t.key);
    EscapedBytes(t.value);
    assert Ascii(",") == [COMMA] && Ascii("=") == [EQUALS];
    assert [t][1..] == [] && HashKey([]) == [];
    assert HashKey([t]) == OneTag(t);
  }

  function WithValue(tags: seq<Tag>): seq<Tag>
  {
    if tags == [] then [] else (if tags[0].value == [] then [] else [tags[0]]) + WithValue(tags[1..])
  }

  lemma {:induction false} OnlyTagsWithValue(tags: seq<Tag>)
    ensures HashKey(WithValue(tags)) == HashKey(tags)
    ensures forall i :: 0 <= i < |WithValue(tags)| ==> WithValue(tags)[i].value != []
  {
    if tags != [] {
      OnlyTagsWithValue(tags[1..]);
      if tags[0].value != [] {
        var ts := WithValue(tags);
        assert ts[0] == tags[0] && ts[1..] == WithValue(tags[1..]);
      } else {
        assert WithValue(tags) == WithValue(tags[1..]);
      }
    }
  }

  predicate NeedsEscape(s: Text) { COMMA in s || SPACE in s || EQUALS in s }

  lemma PlainTag(s: Text)
    requires !NeedsEscape(s)
    ensures EscapeTag(s) == s
  {
    NothingToEscape(COMMA, s);
    NothingToEscape(SPACE, s);
    NothingToEscape(EQUALS, s);
    assert TAG_CODES[..2] == [COMMA, SPACE] && [COMMA, SPACE][..1] == [COMMA];
    assert EscapeAll([COMMA], s) == s by { assert [COMMA][..0] == []; }
    assert EscapeAll([COMMA, SPACE], s) == s;
  }

  /** AppendHashKey: escapes only when some tag needs it. */
  method AppendHashKey(dst: Text, tags: seq<Tag>) returns (out: Text)
    ensures out == dst + HashKey(tags)
  {
    hide EscapeAll, HashKey, NeedsEscape;
    HashKeyOfNone();
    assert tags[..0] == [];
    var escape := exists i :: 0 <= i < |tags| && (NeedsEscape(tags[i].key) || NeedsEscape(tags[i].value));
    out := dst;
    for i := 0 to |tags|
      invariant out == dst + HashKey(tags[..i])
    {
      var k, v := tags[i].key, tags[i].value;
      if escape {
        k := EscapeWith(TAG_CODES, tags[i].key);
        v := EscapeWith(TAG_CODES, tags[i].value);
      } else {
        PlainTag(k);
        PlainTag(v);
      }
      HashKeyNext(tags, i);
      EmptyStaysEmpty(tags[i].value);
      if |v| == 0 {
        continue;
      }
      AssembleTag(dst, HashKey(tags[..i]), k, v);
      out := out + [COMMA];
      out := out + k;
      out := out + [EQUALS];
      out := out + v;
    }
    assert tags[..|tags|] == tags;
  }

  lemma AssembleTag(dst: Text, done: Text, k: Text, v: Text)
    ensures dst + done + [COMMA] + k + [EQUALS] + v == dst + (done + ([COMMA] + k + [EQUALS] + v))
  {
  }

  lemma EmptyStaysEmpty(s: Text)
    ensures EscapeTag(s) == [] <==> s == []
  {
    EscapeAllKeepsEnd(TAG_CODES, s);
  }

  lemma {:induction false} HashKeyConcat(a: seq<Tag>, b: seq<Tag>)
    ensures HashKey(a + b) == HashKey(a) + HashKey(b)
  {
    hide OneTag;
    if a == [] {
      assert a + b == b;
    } else {
      assert (a + b)[1..] == a[1..] + b;
      HashKeyConcat(a[1..], b);
    }
  }

  lemma HashKeyNext(tags: seq<Tag>, i: nat)
    requires i < |tags|
    ensures HashKey(tags[..i + 1]) == HashKey(tags[..i]) + if tags[i].value == [] then [] else OneTag(tags[i])
  {
    hide OneTag;
    assert tags[..i + 1] == tags[..i] + [tags[i]];
    HashKeyConcat(tags[..i], [tags[i]]);
    assert [tags[i]][1..] == [];
  }

  // ---- reading --------------------------------------------------------------------------------------------

  /** The loop of walkTags from position i on; a tag without a value is passed over. */
  function Walk(buf: Text, i: nat): seq<Tag>
    decreases if i < |buf| then |buf| - i else 0
  {
    if i >= |buf| then []
    else
      var e := ScanTo(buf, i, EQUALS);
      if e >= |buf| then []
      else
        var j := ScanTo(buf, e + 1, COMMA);
        if j == e + 1 then Walk(buf, j)
        else [Tag(UnescapeTag(buf[i..e]), UnescapeTag(buf[e + 1..j]))] + Walk(buf, j + 1)
  }

  lemma WalkStep(buf: Text, i: nat, e: nat, j: nat)
    requires i < |buf| && e == ScanTo(buf, i, EQUALS) < |buf| && j == ScanTo(buf, e + 1, COMMA)
    ensures j == e + 1 ==> Walk(buf, i) == Walk(buf, j)
    ensures j > e + 1 ==>
      Walk(buf, i) == [Tag(UnescapeTag(buf[i..e]), UnescapeTag(buf[e + 1..j]))] + Walk(buf, j + 1)
  {
    hide ScanTo, UnescapeTag;
  }

  lemma NothingToWalk(buf: Text, i: nat)
    requires ScanTo(buf, i, EQUALS) >= |buf|
    ensures Walk(buf, i) == []
  {
    hide ScanTo, UnescapeTag;
  }

  function TagsOf(buf: Text): seq<Tag>
  {
    if buf == [] || ScanTo(buf, 0, COMMA) == 0 then [] else Walk(buf, ScanTo(buf, 0, COMMA) + 1)
  }

  method WalkTags(buf: Text) returns (tags: seq<Tag>)
    ensures tags == TagsOf(buf)
  {
    hide ScanTo, UnescapeAll, Walk;
    tags := [];
    if |buf| == 0 {
      return;
    }
    var pos := ScanToLoop(buf, 0, COMMA);
    if pos == 0 {
      return;
    }
    var hasEscape := BACKSLASH in buf;
    var i := pos + 1;
    while i < |buf|
      invariant i > 0 && tags + Walk(buf, i) == TagsOf(buf)
      decreases |buf| - i
    {
      var e := ScanToLoop(buf, i, EQUALS);
      var key := buf[i..e];
      if e + 1 > |buf| {
        NothingToWalk(buf, i);
        WalkPastEnd(buf, e + 1);
        i := e + 1;
        continue;
      }
      var j := ScanToLoop(buf, e + 1, COMMA);
      WalkStep(buf, i, e, j);
      var value := buf[e + 1..j];
      if |value| == 0 {
        i := j;
        continue;
      }
      if hasEscape {
        key := UnescapeWith(TAG_CODES, key);
        value := UnescapeWith(TAG_CODES, value);
      } else {
        NoBackslash(TAG_CODES, key);
        NoBackslash(TAG_CODES, value);
      }
      assert tags + ([Tag(key, value)] + Walk(buf, j + 1)) == (tags + [Tag(key, value)]) + Walk(buf, j + 1);
      tags := tags + [Tag(key, value)];
      i := j + 1;
    }
    WalkPastEnd(buf, i);
  }

  // ---- round trip -----------------------------------------------------------------------------------------

  /** Nothing in front of a separator ends in a backslash; the last value has no separator after it. */
  predicate Separable(tags: seq<Tag>)
  {
    forall i :: 0 <= i < |tags| ==>
      !EndsInBackslash(tags[i].key) && (i + 1 < |tags| ==> !EndsInBackslash(tags[i].value))
  }

  lemma EscapedText(s: Text, prev: byte)
    ensures Guarded(COMMA, prev, EscapeTag(s)) && Guarded(EQUALS, prev, EscapeTag(s)) && Guarded(SPACE, prev, EscapeTag(s))
    ensures EndsInBackslash(EscapeTag(s)) <==> EndsInBackslash(s)
    ensures EscapeTag(s) == [] <==> s == []
    ensures UnescapeTag(EscapeTag(s)) == s
  {
    assert TAG_CODES[0] == COMMA && TAG_CODES[1] == SPACE && TAG_CODES[2] == EQUALS;
    EscapeAllGuards(COMMA, TAG_CODES, prev, s);
    EscapeAllGuards(SPACE, TAG_CODES, prev, s);
    EscapeAllGuards(EQUALS, TAG_CODES, prev, s);
    EscapeAllKeepsEnd(TAG_CODES, s);
    TagRoundTrip(s);
  }

  /** Where the parts of the first tag of a list lie in the buffer. */
  lemma FirstTag(buf: Text, p: nat, tags: seq<Tag>)
    requires tags != [] && tags[0].value != [] && p <= |buf| && buf[p..] == HashKey(tags)
    ensures var k, v := EscapeTag(tags[0].key), EscapeTag(tags[0].value);
      var e := p + 1 + |k|;
      && e + 1 + |v| <= |buf| && buf[p] == COMMA && buf[p + 1..e] == k && buf[e] == EQUALS
      && buf[e + 1..e + 1 + |v|] == v && buf[e + 1 + |v|..] == HashKey(tags[1..])
  {
    hide EscapeTag, HashKey;
    var k, v, rest := EscapeTag(tags[0].key), EscapeTag(tags[0].value), HashKey(tags[1..]);
    FirstTagText(tags);
    CutFront(buf, p, [COMMA], k + ([EQUALS] + (v + rest)));
    CutFront(buf, p + 1, k, [EQUALS] + (v + rest));
    CutFront(buf, p + 1 + |k|, [EQUALS], v + rest);
    CutFront(buf, p + 2 + |k|, v, rest);
    assert buf[p] == buf[p..p + 1][0] && buf[p + 1 + |k|] == buf[p + 1 + |k|..p + 2 + |k|][0];
  }

  lemma FirstTagText(tags: seq<Tag>)
    requires tags != [] && tags[0].value != []
    ensures HashKey(tags)
         == [COMMA] + (EscapeTag(tags[0].key) + ([EQUALS] + (EscapeTag(tags[0].value) + HashKey(tags[1..]))))
  {
    hide EscapeTag;
  }

  lemma CutFront(buf: Text, p: nat, a: Text, b: Text)
    requires p <= |buf| && buf[p..] == a + b
    ensures p + |a| <= |buf| && buf[p..p + |a|] == a && buf[p + |a|..] == b
  {
    assert buf[p..p + |a|] == buf[p..][..|a|] && buf[p + |a|..] == buf[p..][|a|..];
  }

  lemma {:induction false} WalkHashKey(buf: Text, p: nat, tags: seq<Tag>)
    requires p <= |buf| && buf[p..] == HashKey(tags) && Separable(tags)
    requires forall i :: 0 <= i < |tags| ==> tags[i].value != []
    ensures Walk(buf, p + 1) == tags
    decreases |tags|
  {
    hide EscapeTag, UnescapeTag, ScanTo, Guarded, HashKey, Walk, EndsInBackslash;
    if tags == [] {
      assert HashKey([]) == [] by { HashKeyOfNone(); }
      WalkPastEnd(buf, p + 1);
    } else {
      FirstTag(buf, p, tags);
      var k, v := EscapeTag(tags[0].key), EscapeTag(tags[0].value);
      var e := p + 1 + |k|;
      var j := e + 1 + |v|;
      EscapedText(tags[0].key, COMMA);
      EscapedText(tags[0].value, EQUALS);
      ScanExactly(buf, p + 1, EQUALS, k);
      if |tags| == 1 {
        HashKeyOfNone();
        assert tags[1..] == [] && buf[e + 1..] == v;
        ScanToEnd(buf, e + 1, COMMA, v);
      } else {
        HashKeyStarts(tags[1..]);
        assert buf[j] == buf[j..][0];
        ScanExactly(buf, e + 1, COMMA, v);
      }
      WalkStep(buf, p + 1, e, j);
      WalkHashKey(buf, j, tags[1..]);
      assert tags == [tags[0]] + tags[1..];
    }
  }

  lemma HashKeyOfNone()
    ensures HashKey([]) == []
  {
  }

  lemma HashKeyStarts(tags: seq<Tag>)
    requires tags != [] && tags[0].value != []
    ensures HashKey(tags) != [] && HashKey(tags)[0] == COMMA
  {
  }

  /** Walking the key of a name and tags gives back the tags that have a value, unchanged. */
  lemma TagsComeBack(name: Text, tags: seq<Tag>)
    requires name != [] && (WithValue(tags) != [] ==> !EndsInBackslash(name)) && Separable(WithValue(tags))
    ensures TagsOf(Key(name, tags)) == WithValue(tags)
  {
    hide EscapeTag, UnescapeTag, ScanTo, Guarded, HashKey, Walk, EscapeMeasurement, WithValue;
    var buf, n := Key(name, tags), EscapeMeasurement(name);
    OnlyTagsWithValue(tags);
    EscapedName(name);
    assert buf[..|n|] == n && buf[|n|..] == HashKey(tags);
    assert buf[0..0 + |n|] == n;
    if WithValue(tags) == [] {
      HashKeyOfNone();
      assert buf[0..] == n;
      ScanToEnd(buf, 0, COMMA, n);
    } else {
      HashKeyStarts(WithValue(tags));
      assert buf[|n|] == buf[|n|..][0];
      ScanExactly(buf, 0, COMMA, n);
    }
    WalkHashKey(buf, |n|, WithValue(tags));
  }

  lemma EscapedName(name: Text)
    ensures Guarded(COMMA, 0, EscapeMeasurement(name)) && Guarded(SPACE, 0, EscapeMeasurement(name))
    ensures EndsInBackslash(EscapeMeasurement(name)) <==> EndsInBackslash(name)
    ensures EscapeMeasurement(name) == [] <==> name == []
  {
    assert MEASUREMENT_CODES[0] == COMMA && MEASUREMENT_CODES[1] == SPACE;
    EscapeAllGuards(COMMA, MEASUREMENT_CODES, 0, name);
    EscapeAllGuards(SPACE, MEASUREMENT_CODES, 0, name);
    EscapeAllKeepsEnd(MEASUREMENT_CODES, name);
  }

  // ---- what goes wrong otherwise ------------------------------------------------------------------------------

  /** How many unescaped bytes c there are in s, when `prev` is the byte before s. */
  function Free(c: byte, prev: byte, s: Text): nat
    decreases |s|
  {
    if s == [] then 0 else (if s[0] == c && prev != BACKSLASH then 1 else 0) + Free(c, s[0], s[1..])
  }

  function Last(prev: byte, s: Text): byte { if s == [] then prev else s[|s| - 1] }

  lemma {:induction false} FreeConcat(c: byte, prev: byte, s: Text, t: Text)
    ensures Free(c, prev, s + t) == Free(c, prev, s) + Free(c, Last(prev, s), t)
    decreases |s|
  {
    if s == [] {
      assert s + t == t;
    } else {
      assert (s + t)[1..] == s[1..] + t;
      FreeConcat(c, s[0], s[1..], t);
    }
  }

  lemma {:induction false} GuardedHasNoneFree(c: byte, prev: byte, s: Text)
    requires Guarded(c, prev, s)
    ensures Free(c, prev, s) == 0
    decreases |s|
  {
    if s != [] { GuardedHasNoneFree(c, s[0], s[1..]); }
  }

  lemma FreeIn(c: byte, buf: Text, i: nat, j: nat)
    requires i <= j <= |buf|
    ensures Free(c, Before(buf, i), buf[i..]) >= Free(c, Before(buf, j), buf[j..])
    ensures i < j && buf[j - 1] == c && Before(buf, j - 1) != BACKSLASH ==>
      Free(c, Before(buf, i), buf[i..]) > Free(c, Before(buf, j), buf[j..])
  {
    var s := buf[i..j];
    assert s + buf[j..] == buf[i..];
    FreeConcat(c, Before(buf, i), s, buf[j..]);
    assert Last(Before(buf, i), s) == Before(buf, j);
    if i < j {
      var t := buf[i..j - 1];
      assert t + [buf[j - 1]] == s;
      FreeConcat(c, Before(buf, i), t, [buf[j - 1]]);
      assert Last(Before(buf, i), t) == Before(buf, j - 1);
    }
  }

  lemma {:induction false} ScanStops(buf: Text, i: nat, stop: byte)
    ensures var j := ScanTo(buf, i, stop); j < |buf| ==> buf[j] == stop && Before(buf, j) != BACKSLASH
    decreases if i < |buf| then |buf| - i else 0
  {
    if i < |buf| && !(buf[i] == stop && (i == 0 || buf[i - 1] != BACKSLASH)) { ScanStops(buf, i + 1, stop); }
  }

  /** Every tag found takes one unescaped equals sign and, but for the first, one unescaped comma. */
  lemma {:induction false} WalkIsBounded(buf: Text, i: nat)
    requires i <= |buf|
    ensures |Walk(buf, i)| <= Free(EQUALS, Before(buf, i), buf[i..])
    ensures |Walk(buf, i)| <= 1 + Free(COMMA, Before(buf, i), buf[i..])
    decreases |buf| - i
  {
    hide ScanTo, Free, UnescapeTag, Walk, Before;
    if i >= |buf| {
      WalkPastEnd(buf, i);
    } else {
      var e := ScanTo(buf, i, EQUALS);
      ScanStops(buf, i, EQUALS);
      if e < |buf| {
        var j := ScanTo(buf, e + 1, COMMA);
        ScanStops(buf, e + 1, COMMA);
        FreeIn(EQUALS, buf, i, e + 1);
        FreeIn(EQUALS, buf, e + 1, j);
        FreeIn(COMMA, buf, i, j);
        WalkStep(buf, i, e, j);
        if j == e + 1 {
          WalkIsBounded(buf, j);
        } else if j < |buf| {
          FreeIn(EQUALS, buf, j, j + 1);
          FreeIn(COMMA, buf, i, j + 1);
          WalkIsBounded(buf, j + 1);
        } else {
          WalkPastEnd(buf, j + 1);
        }
      } else {
        NothingToWalk(buf, i);
      }
    }
  }

  lemma {:induction false} FreeAreAtMostAll(c: byte, prev: byte, s: Text)
    ensures Free(c, prev, s) <= multiset(s)[c]
    decreases |s|
  {
    if s != [] {
      assert s == [s[0]] + s[1..];
      FreeAreAtMostAll(c, s[0], s[1..]);
    }
  }

  /** Of any text whatever: it has at least as many commas as walkTags finds tags. */
  lemma TagsAtMostCommas(buf: Text)
    ensures |TagsOf(buf)| <= multiset(buf)[COMMA]
  {
    hide ScanTo, Walk, Free;
    if buf != [] {
      var p := ScanTo(buf, 0, COMMA);
      ScanStops(buf, 0, COMMA);
      FreeAreAtMostAll(COMMA, 0, buf);
      assert buf[0..] == buf;
      if p < |buf| {
        WalkIsBounded(buf, p + 1);
        FreeIn(COMMA, buf, 0, p + 1);
      } else {
        WalkPastEnd(buf, p + 1);
      }
    }
  }

  /** parseTags: the tags are stored into a slice with room for one tag per comma, which is always enough. */
  method ParseTags(buf: Text) returns (tags: seq<Tag>)
    ensures tags == TagsOf(buf)
  {
    if |buf| == 0 {
      return [];
    }
    var n := multiset(buf)[COMMA];
    var dst := new Tag[n](_ => Tag([], []));
    TagsAtMostCommas(buf);
    var walked := WalkTags(buf);
    for i := 0 to |walked|
      invariant |walked| <= dst.Length && dst[..i] == walked[..i]
    {
      dst[i] := walked[i];
    }
    return dst[..|walked|];
  }

  /** How many separators stay unescaped in the text of some tags. */
  lemma {:induction false} FreeSeparators(prev: byte, tags: seq<Tag>)
    requires forall i :: 0 <= i < |tags| ==> tags[i].value != []
    ensures Free(COMMA, prev, HashKey(tags)) <= |tags| && Free(EQUALS, prev, HashKey(tags)) <= |tags|
    ensures tags != [] && prev == BACKSLASH ==> Free(COMMA, prev, HashKey(tags)) < |tags|
    ensures !Separable(tags) ==> Free(COMMA, prev, HashKey(tags)) < |tags| || Free(EQUALS, prev, HashKey(tags)) < |tags|
    decreases |tags|
  {
    hide EscapeTag, UnescapeTag, Free, HashKey;
    if tags == [] {
      HashKeyOfNone();
      FreeInNothing(prev);
    } else {
      var last := Last(EQUALS, EscapeTag(tags[0].value));
      FreeSeparators(last, tags[1..]);
      FreeInFirst(COMMA, prev, tags);
      FreeInFirst(EQUALS, prev, tags);
      EscapedText(tags[0].value, EQUALS);
      assert |tags| > 1 ==> tags[1..] != [];
      if !Separable(tags) && !EndsInBackslash(tags[0].key) && (|tags| > 1 ==> !EndsInBackslash(tags[0].value)) {
        var i :| 0 <= i < |tags| && !(!EndsInBackslash(tags[i].key) && (i + 1 < |tags| ==> !EndsInBackslash(tags[i].value)));
        assert tags[1..][i - 1] == tags[i];
        assert !Separable(tags[1..]);
      }
    }
  }

  lemma FreeInNothing(prev: byte)
    ensures Free(COMMA, prev, []) == Free(EQUALS, prev, []) == 0
  {
  }

  lemma FreeInOne(c: byte, prev: byte, x: byte)
    ensures Free(c, prev, [x]) == if x == c && prev != BACKSLASH then 1 else 0
  {
    assert [x][1..] == [];
  }

  lemma FreeInFirst(c: byte, prev: byte, tags: seq<Tag>)
    requires tags != [] && tags[0].value != [] && (c == COMMA || c == EQUALS)
    ensures Free(c, prev, HashKey(tags)) ==
      (if (if c == COMMA then prev != BACKSLASH else !EndsInBackslash(tags[0].key)) then 1 else 0)
      + Free(c, Last(EQUALS, EscapeTag(tags[0].value)), HashKey(tags[1..]))
  {
    hide EscapeTag, UnescapeTag, Free, HashKey;
    var k, v, rest := EscapeTag(tags[0].key), EscapeTag(tags[0].value), HashKey(tags[1..]);
    EscapedText(tags[0].key, COMMA);
    EscapedText(tags[0].value, EQUALS);
    FirstTagText(tags);
    FreeConcat(c, prev, [COMMA], k + ([EQUALS] + (v + rest)));
    FreeConcat(c, COMMA, k, [EQUALS] + (v + rest));
    FreeConcat(c, Last(COMMA, k), [EQUALS], v + rest);
    FreeConcat(c, EQUALS, v, rest);
    FreeInOne(c, prev, COMMA);
    FreeInOne(c, Last(COMMA, k), EQUALS);
    GuardedHasNoneFree(c, COMMA, k);
    GuardedHasNoneFree(c, EQUALS, v);
  }

  /** A separator lost to a backslash leaves too few tags. */
  lemma TooFewTags(name: Text, tags: seq<Tag>)
    requires name != [] && WithValue(tags) != [] && (EndsInBackslash(name) || !Separable(WithValue(tags)))
    ensures |TagsOf(Key(name, tags))| < |WithValue(tags)|
  {
    hide EscapeTag, ScanTo, Guarded, HashKey, Walk, EscapeMeasurement, WithValue, Separable, Free;
    var buf, n, ts := Key(name, tags), EscapeMeasurement(name), WithValue(tags);
    OnlyTagsWithValue(tags);
    EscapedName(name);
    FreeSeparators(Last(0, n), ts);
    FreeConcat(COMMA, 0, n, HashKey(ts));
    GuardedHasNoneFree(COMMA, 0, n);
    var p := ScanTo(buf, 0, COMMA);
    ScanStops(buf, 0, COMMA);
    assert buf[0..] == buf && buf[|n|..] == HashKey(ts);
    assert Before(buf, |n|) == Last(0, n);
    if p < |buf| {
      WalkIsBounded(buf, p + 1);
      FreeIn(COMMA, buf, 0, p + 1);
      ScanPast(buf, 0, COMMA, n) by { assert buf[0..0 + |n|] == n; }
      assert p >= |n|;
      FreeIn(EQUALS, buf, |n|, p + 1);
    } else {
      WalkPastEnd(buf, p + 1);
    }
  }

  lemma WalkPastEnd(buf: Text, i: nat)
    requires i >= |buf|
    ensures Walk(buf, i) == []
  {
  }

  /** The tags come back if and only if the name is not empty and neither it nor anything before a separator
      ends in a backslash. */
  lemma TagsRoundTrip(name: Text, tags: seq<Tag>)
    ensures TagsOf(Key(name, tags)) == WithValue(tags) <==>
      WithValue(tags) == [] || (name != [] && !EndsInBackslash(name) && Separable(WithValue(tags)))
  {
    hide Separable, ScanTo, Walk, HashKey, EscapeMeasurement;
    if name == [] {
      NamelessKey(tags);
    } else if WithValue(tags) == [] {
      assert Separable([]) by { NoneIsSeparable(); }
      TagsComeBack(name, tags);
    } else if !EndsInBackslash(name) && Separable(WithValue(tags)) {
      TagsComeBack(name, tags);
    } else {
      TooFewTags(name, tags);
    }
  }

  lemma NoneIsSeparable()
    ensures Separable([])
  {
  }

  lemma NamelessKey(tags: seq<Tag>)
    ensures TagsOf(Key([], tags)) == []
  {
    EscapedName([]);
    OnlyTagsWithValue(tags);
    assert Key([], tags) == HashKey(WithValue(tags));
    if WithValue(tags) != [] { HashKeyStarts(WithValue(tags)); }
  }

  /** A tag key that ends in a backslash swallows the separator: `n,a\=b` has no tag. */
  lemma BackslashSwallowsTag()
    ensures TagsOf([110, COMMA, 97, BACKSLASH, EQUALS, 98]) == []
  {
    var buf := [110, COMMA, 97, BACKSLASH, EQUALS, 98];
    assert ScanTo(buf, 0, COMMA) == ScanTo(buf, 1, COMMA) == 1;
    assert ScanTo(buf, 5, EQUALS) == ScanTo(buf, 6, EQUALS) == 6;
    assert ScanTo(buf, 2, EQUALS) == ScanTo(buf, 3, EQUALS) == ScanTo(buf, 4, EQUALS) == ScanTo(buf, 5, EQUALS);
  }
}
