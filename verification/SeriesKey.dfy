/** The binary series key of tsdb/series_file.go: a varint total length, then the measurement
    name, the tag count and the tags, each string behind a two-byte length. */
module SeriesKey {
  import opened Arithmetic
  import opened Collections
  import opened Bytes

  datatype Tag = Tag(key: Text, value: Text)

  // ---- the format -----------------------------------------------------------------------------

  /** A string behind its length, which is truncated to 16 bits. */
  function Field(s: Text): (f: Text)
    ensures |f| == 2 + |s|
  {
    BigEndian(2, |s|) + s
  }

  function EncodeTag(t: Tag): Text { Field(t.key) + Field(t.value) }

  function EncodeTags(tags: seq<Tag>): Text
  {
    if tags == [] then [] else EncodeTag(tags[0]) + EncodeTags(tags[1..])
  }

  function Payload(name: Text, tags: seq<Tag>): Text
  {
    Field(name) + PutUvarint(|tags|) + EncodeTags(tags)
  }

  function Encode(name: Text, tags: seq<Tag>): Text
  {
    PutUvarint(|Payload(name, tags)|) + Payload(name, tags)
  }

  /** The key of cpu,host=a: its length, the name behind its own, the number of tags, and the tag behind two more. */
  lemma KnownKey()
    ensures Encode(Ascii("cpu"), [Tag(Ascii("host"), Ascii("a"))])
      == [15, 0, 3] + Ascii("cpu") + [1, 0, 4] + Ascii("host") + [0, 1] + Ascii("a")
  {
    hide Field, EncodeTags, PutUvarint;
    var name, tag := Ascii("cpu"), Tag(Ascii("host"), Ascii("a"));
    OneTagEncoded(tag);
    FieldOfShort(name);
    assert PutUvarint(1) == [1] && PutUvarint(15) == [15] by { OneByte(1); OneByte(15); }
    assert Payload(name, [tag]) == [0, 3] + name + [1] + ([0, 4] + tag.key + [0, 1] + tag.value);
  }

  lemma OneByte(x: nat)
    requires x < 128
    ensures PutUvarint(x) == [x]
  {
  }

  lemma OneTagEncoded(t: Tag)
    requires |t.key| < 256 && |t.value| < 256
    ensures EncodeTags([t]) == [0, |t.key|] + t.key + [0, |t.value|] + t.value
  {
    hide Field;
    FieldOfShort(t.key);
    FieldOfShort(t.value);
    assert [t][1..] == [] && EncodeTags([]) == [];
    assert EncodeTags([t]) == EncodeTag(t);
  }

  lemma FieldOfShort(s: Text)
    requires |s| < 256
    ensures Field(s) == [0, |s|] + s
  {
    assert BigEndian(0, 0) == [] && BigEndian(1, 0) == [0];
    assert BigEndian(2, |s|) == BigEndian(1, 0) + [|s|];
  }

  /** Every length in memory fits a signed 64-bit integer. */
  predicate Addressable(name: Text, tags: seq<Tag>) { Fits(|Encode(name, tags)|) && Fits(|tags|) }

  lemma PayloadFits(name: Text, tags: seq<Tag>)
    requires Addressable(name, tags)
    ensures Fits(|Payload(name, tags)|)
  {
  }

  /** No string is longer than its two-byte length can say. */
  predicate Short16(name: Text, tags: seq<Tag>)
  {
    |name| < TWO_16 && forall i :: 0 <= i < |tags| ==> ShortTag(tags[i])
  }

  lemma {:induction false} EncodeTagsAppend(tags: seq<Tag>, t: Tag)
    ensures EncodeTags(tags + [t]) == EncodeTags(tags) + EncodeTag(t)
  {
    if tags == [] {
      assert tags + [t] == [t] && EncodeTags([t]) == EncodeTag(t) + EncodeTags([]);
    } else {
      assert (tags + [t])[1..] == tags[1..] + [t];
      EncodeTagsAppend(tags[1..], t);
    }
  }

  lemma EncodeNoTags()
    ensures EncodeTags([]) == []
  {
  }

  // ---- sizes --------------------------------------------------------------------------------------

  /** Tags.Size: bytes of all keys and values. */
  function TagsSize(tags: seq<Tag>): nat
  {
    if tags == [] then 0 else |tags[0].key| + |tags[0].value| + TagsSize(tags[1..])
  }

  lemma {:induction false} EncodedTagsLength(tags: seq<Tag>)
    ensures |EncodeTags(tags)| == 4 * |tags| + TagsSize(tags)
  {
    if tags != [] { EncodedTagsLength(tags[1..]); }
  }

  /** The length is computed without encoding. */
  method SeriesKeySize(name: Text, tags: seq<Tag>) returns (n: nat)
    ensures n == |Encode(name, tags)|
  {
    n := 2 + |name| + UvarintSize(|tags|);
    for i := 0 to |tags|
      invariant n == 2 + |name| + |PutUvarint(|tags|)| + |EncodeTags(tags[..i])|
    {
      n := n + 2 + |tags[i].key|;
      n := n + 2 + |tags[i].value|;
      EncodeTagsAppend(tags[..i], tags[i]);
      assert tags[..i] + [tags[i]] == tags[..i + 1];
    }
    assert tags[..|tags|] == tags;
    n := n + UvarintSize(n);
  }

  method AppendSeriesKey(dst: Text, name: Text, tags: seq<Tag>) returns (out: Text)
    ensures out == dst + Encode(name, tags)
  {
    hide PutUvarint, BigEndian, EncodeTags, TagsSize;
    var tcBuf := PutUvarint(|tags|);
    var size := 2 + |name| + |tcBuf| + 4 * |tags| + TagsSize(tags);
    EncodedTagsLength(tags);
    var buf := PutUvarint(size);
    out := dst + buf;
    out := out + BigEndian(2, |name|);
    out := out + name;
    out := out + tcBuf;
    ghost var start := out;
    assert EncodeTags(tags[..0]) == [] by { EncodeNoTags(); }
    for i := 0 to |tags|
      invariant out == start + EncodeTags(tags[..i])
    {
      out := out + BigEndian(2, |tags[i].key|);
      out := out + tags[i].key;
      out := out + BigEndian(2, |tags[i].value|);
      out := out + tags[i].value;
      EncodeTagsAppend(tags[..i], tags[i]);
      assert tags[..i] + [tags[i]] == tags[..i + 1];
    }
    assert tags[..|tags|] == tags;
    // the length check of the original, whose failure would be a panic
    assert |out| - |dst| == size + |buf|;
  }

  /** One buffer for many keys: every returned slice is the key encoded on its own. */
  method GenerateSeriesKeys(names: seq<Text>, tagsSlice: seq<seq<Tag>>) returns (keys: seq<Text>)
    requires |names| <= |tagsSlice|
    ensures |keys| == |names| && forall i :: 0 <= i < |keys| ==> keys[i] == Encode(names[i], tagsSlice[i])
  {
    var buf := [];
    keys := [];
    for i := 0 to |names|
      invariant |keys| == i && forall j :: 0 <= j < i ==> keys[j] == Encode(names[j], tagsSlice[j])
    {
      var offset := |buf|;
      buf := AppendSeriesKey(buf, names[i], tagsSlice[i]);
      keys := keys + [buf[offset..]];
    }
  }

  // ---- readers: nothing where the original panics on a slice out of range ------------------------------

  function ReadField(data: Text): (r: Option<(Text, Text)>)
    ensures r.Some? ==> |r.value.1| < |data|
  {
    if |data| < 2 then None
    else
      var n := FromBigEndian(data[..2]);
      if |data| - 2 < n then None else Some((data[2..2 + n], data[2 + n..]))
  }

  /** ReadSeriesKeyLen and ReadSeriesKeyTagN; a count of 2^63 or more is negative as an int. */
  function ReadSize(data: Text): (r: Option<(int64, Text)>)
  {
    match Uvarint(data)
    case Short => Some((0, data))
    case Overflow => None
    case Value(x, n) => Some((Wrap(x), data[n..]))
  }

  /** The length of the key and of its prefix are added in 64 bits. */
  function ReadSeriesKey(data: Text): (r: Option<(Text, Text)>)
    ensures r.Some? ==> data == r.value.0 + r.value.1
  {
    match Uvarint(data)
    case Short => Some(([], data))
    case Overflow => None
    case Value(x, n) =>
      var end := Wrap(x + n);
      if 0 <= end <= |data| then Some((data[..end], data[end..])) else None
  }

  /** A length so great that the sum wraps is taken for a small one. */
  lemma HugeLengthIsSmall(rest: Text)
    ensures var data := PutUvarint(TWO_64 - 1) + rest; |data| >= 9 && ReadSeriesKey(data) == Some((data[..9], data[9..]))
  {
    var prefix := PutUvarint(TWO_64 - 1);
    UvarintRoundTrip(TWO_64 - 1, rest);
    WidestUvarint();
    WrapBy(TWO_64 - 1 + 10, -1);
  }

  lemma WidestUvarint()
    ensures |PutUvarint(TWO_64 - 1)| == 10
  {
    assert PutUvarint(1) == [1];
    assert |PutUvarint(0xFF)| == 2;
    assert |PutUvarint(0x7FFF)| == 3;
    assert |PutUvarint(0x3F_FFFF)| == 4;
    assert |PutUvarint(0x1FFF_FFFF)| == 5;
    assert |PutUvarint(0xF_FFFF_FFFF)| == 6;
    assert |PutUvarint(0x7FF_FFFF_FFFF)| == 7;
    assert |PutUvarint(0x3_FFFF_FFFF_FFFF)| == 8;
    assert |PutUvarint(0x1FF_FFFF_FFFF_FFFF)| == 9;
  }

  function ReadTag(data: Text): (r: Option<(Tag, Text)>)
    ensures r.Some? ==> |r.value.1| < |data|
  {
    match ReadField(data)
    case None => None
    case Some((key, data')) =>
      match ReadField(data')
      case None => None
      case Some((value, data'')) => Some((Tag(key, value), data''))
  }

  function ParseTags(data: Text, n: nat): (r: Option<seq<Tag>>)
    decreases n
  {
    if n == 0 then Some([])
    else match ReadTag(data)
      case None => None
      case Some((t, data')) =>
        Prepend([t], ParseTags(data', n - 1))
  }

  function Prepend(tags: seq<Tag>, r: Option<seq<Tag>>): (p: Option<seq<Tag>>)
    ensures r.None? ==> p.None?
  {
    match r case None => None case Some(more) => Some(tags + more)
  }

  lemma PrependTwice(xs: seq<Tag>, ys: seq<Tag>, r: Option<seq<Tag>>)
    ensures Prepend(xs, Prepend(ys, r)) == Prepend(xs + ys, r)
  {
    if r.Some? { assert xs + (ys + r.value) == (xs + ys) + r.value; }
  }

  lemma PrependNothing(xs: seq<Tag>, r: Option<seq<Tag>>)
    ensures Prepend([], r) == r
    ensures Prepend(xs, Some([])) == Some(xs)
  {
    if r.Some? { assert [] + r.value == r.value; }
    assert xs + [] == xs;
  }

  datatype Head = Head(name: Text, rest: Text)

  /** Total length and measurement. */
  function ReadHead(data: Text): (r: Option<Head>)
  {
    match ReadSize(data)
    case None => None
    case Some((_, data1)) =>
      match ReadField(data1)
      case None => None
      case Some((name, data2)) => Some(Head(name, data2))
  }

  function Parse(data: Text): (r: Option<(Text, seq<Tag>)>)
  {
    match ReadHead(data)
    case None => None
    case Some(Head(name, data1)) =>
      match ReadSize(data1)
      case None => None
      case Some((n, data2)) =>
        if n < 0 then None
        else match ParseTags(data2, n) case None => None case Some(tags) => Some((name, tags))
  }

  /** parseSeriesKey fills a reused tag slice in place; what it held before does not matter. */
  method ParseSeriesKeyInto(data: Text, dst: seq<Tag>) returns (r: Option<(Text, seq<Tag>)>)
    ensures r == Parse(data)
  {
    hide ReadHead, ReadSize, ReadTag, Prepend;
    var head := ReadHead(data);
    if head.None? { return None; }
    var count := ReadSize(head.value.rest);
    if count.None? { return None; }
    var tagN, rest := count.value.0, count.value.1;
    if tagN < 0 { return None; }
    ghost var start := rest;

    var out := dst;
    if |out| < tagN {
      out := out + seq(tagN - |out|, _ => Tag([], []));
    } else if |out| > tagN {
      out := out[..tagN];
    }
    PrependNothing(out, ParseTags(rest, tagN));
    assert out[..0] == [];
    for i := 0 to tagN
      invariant |out| == tagN
      invariant ParseTags(start, tagN) == Prepend(out[..i], ParseTags(rest, tagN - i))
    {
      var t := ReadTag(rest);
      if t.None? {
          return None;
      }
      out := out[i := t.value.0];
      rest := t.value.1;
      PrependTwice(out[..i], [t.value.0], ParseTags(rest, tagN - i - 1));
      assert out[..i] + [t.value.0] == out[..i + 1];
    }
    PrependNothing(out, Some([]));
    assert out[..tagN] == out;
    return Some((head.value.name, out));
  }

  // ---- round trip ---------------------------------------------------------------------------------------

  /** A field in front of anything reads back with its length taken modulo 2^16. */
  lemma ReadFieldOfField(s: Text, rest: Text)
    ensures |s| < TWO_16 ==> ReadField(Field(s) + rest) == Some((s, rest))
    ensures |s| >= TWO_16 ==>
      ReadField(Field(s) + rest).Some? && |ReadField(Field(s) + rest).value.0| < TWO_16
  {
    var data := Field(s) + rest;
    BigEndianRoundTrip(2, |s|);
    assert Pow256(2) == TWO_16 by { assert Pow256(1) == 256; }
    assert data[..2] == BigEndian(2, |s|);
    if |s| < TWO_16 {
      assert data[2..2 + |s|] == s && data[2 + |s|..] == rest;
    }
  }

  predicate ShortTag(t: Tag) { |t.key| < TWO_16 && |t.value| < TWO_16 }

  lemma ReadTagOfTag(t: Tag, rest: Text)
    ensures ShortTag(t) ==> ReadTag(EncodeTag(t) + rest) == Some((t, rest))
    ensures !ShortTag(t) ==> ReadTag(EncodeTag(t) + rest).None? || ReadTag(EncodeTag(t) + rest).value.0 != t
  {
    assert EncodeTag(t) + rest == Field(t.key) + (Field(t.value) + rest);
    ReadFieldOfField(t.key, Field(t.value) + rest);
    ReadFieldOfField(t.value, rest);
  }

  lemma {:induction false} ParseTagsRoundTrip(tags: seq<Tag>, rest: Text)
    ensures ParseTags(EncodeTags(tags) + rest, |tags|) == Some(tags) <==> Short16([], tags)
  {
    hide ReadTag, EncodeTag;
    if tags != [] {
      var t, more := tags[0], EncodeTags(tags[1..]) + rest;
      assert EncodeTags(tags) + rest == EncodeTag(t) + more;
      ReadTagOfTag(t, more);
      ParseTagsRoundTrip(tags[1..], rest);
      assert tags == [t] + tags[1..];
    }
  }

  lemma ReadSizeOfUvarint(x: nat, rest: Text)
    requires x < TWO_64 / 2
    ensures ReadSize(PutUvarint(x) + rest) == Some((x, rest))
  {
    UvarintRoundTrip(x, rest);
    WrapBy(x, 0);
    assert (PutUvarint(x) + rest)[|PutUvarint(x)|..] == rest;
  }

  /** Parsing an encoded key, whatever follows it, gives name and tags back exactly when every string
      is shorter than 65536 bytes. */
  lemma ParseRoundTrip(name: Text, tags: seq<Tag>, rest: Text)
    requires Addressable(name, tags)
    ensures Parse(Encode(name, tags) + rest) == Some((name, tags)) <==> Short16(name, tags)
  {
    var tail := EncodeTags(tags) + rest;
    assert Encode(name, tags) + rest
        == PutUvarint(|Payload(name, tags)|) + (Field(name) + (PutUvarint(|tags|) + tail));
    ReadSizeOfUvarint(|Payload(name, tags)|, Field(name) + (PutUvarint(|tags|) + tail));
    ReadFieldOfField(name, PutUvarint(|tags|) + tail);
    ReadSizeOfUvarint(|tags|, tail);
    ParseTagsRoundTrip(tags, rest);
  }

  /** An encoded key is self-delimiting: reading it off a longer buffer leaves exactly the remainder. */
  lemma ReadSeriesKeyRoundTrip(name: Text, tags: seq<Tag>, rest: Text)
    requires Addressable(name, tags)
    ensures ReadSeriesKey(Encode(name, tags) + rest) == Some((Encode(name, tags), rest))
  {
    var p := Payload(name, tags);
    var data := Encode(name, tags) + rest;
    assert data == PutUvarint(|p|) + (p + rest);
    UvarintRoundTrip(|p|, p + rest);
    WrapBy(|p| + |PutUvarint(|p|)|, 0);
    assert data[..|p| + |PutUvarint(|p|)|] == Encode(name, tags);
    assert data[|p| + |PutUvarint(|p|)|..] == rest;
  }

  // ---- order -----------------------------------------------------------------------------------------------

  function CompareTag(a: Tag, b: Tag): (c: int)
    ensures -1 <= c <= 1
  {
    if Compare(a.key, b.key) != 0 then Compare(a.key, b.key) else Compare(a.value, b.value)
  }

  /** models.CompareTags */
  function CompareTags(a: seq<Tag>, b: seq<Tag>): (c: int)
    ensures -1 <= c <= 1
  {
    if a == [] || b == [] then if |a| < |b| then -1 else if |a| > |b| then 1 else 0
    else if CompareTag(a[0], b[0]) != 0 then CompareTag(a[0], b[0])
    else CompareTags(a[1..], b[1..])
  }

  function CompareSeries(name0: Text, tags0: seq<Tag>, name1: Text, tags1: seq<Tag>): (c: int)
    ensures -1 <= c <= 1
  {
    if Compare(name0, name1) != 0 then Compare(name0, name1) else CompareTags(tags0, tags1)
  }

  /** The loop of CompareSeriesKeys from its i-th round on. */
  function CompareRest(a: Text, b: Text, i: nat, n0: int, n1: int): (r: Option<int>)
    decreases |a|
  {
    if i == n0 && i == n1 then Some(0)
    else if i == n0 then Some(-1)
    else if i == n1 then Some(1)
    else match ReadTag(a)
      case None => None
      case Some((t0, a')) =>
        match ReadTag(b)
        case None => None
        case Some((t1, b')) =>
          if CompareTag(t0, t1) != 0 then Some(CompareTag(t0, t1)) else CompareRest(a', b', i + 1, n0, n1)
  }

  /** CompareSeriesKeys; an empty key is the nil key and sorts first. */
  function CompareKeys(a: Text, b: Text): (r: Option<int>)
    ensures a == [] || b == [] ==> r == Some(if a == b then 0 else if a == [] then -1 else 1)
  {
    if a == [] || b == [] then Some(if a == b then 0 else if a == [] then -1 else 1)
    else match ReadHead(a)
      case None => None
      case Some(h0) =>
        match ReadHead(b)
        case None => None
        case Some(h1) =>
          if Compare(h0.name, h1.name) != 0 then Some(Compare(h0.name, h1.name)) else CompareCounted(h0.rest, h1.rest)
  }

  function CompareCounted(a: Text, b: Text): (r: Option<int>)
  {
    match ReadSize(a)
    case None => None
    case Some((n0, a')) =>
      match ReadSize(b)
      case None => None
      case Some((n1, b')) => CompareRest(a', b', 0, n0, n1)
  }

  lemma {:induction false} ParsedCount(data: Text, n: nat)
    ensures ParseTags(data, n).Some? ==> |ParseTags(data, n).value| == n
    decreases n
  {
    if n > 0 && ReadTag(data).Some? { ParsedCount(ReadTag(data).value.1, n - 1); }
  }

  /** One tag off the front of what parses. */
  lemma ParsedFirst(data: Text, n: nat)
    requires n > 0 && ParseTags(data, n).Some?
    ensures ReadTag(data).Some? && ParseTags(ReadTag(data).value.1, n - 1).Some?
    ensures ParseTags(data, n).value == [ReadTag(data).value.0] + ParseTags(ReadTag(data).value.1, n - 1).value
  {
    hide ReadTag;
  }

  lemma {:induction false} CompareRestOfParsed(a: Text, b: Text, i: nat, n0: nat, n1: nat)
    requires ParseTags(a, n0).Some? && ParseTags(b, n1).Some?
    ensures CompareRest(a, b, i, i + n0, i + n1) == Some(CompareTags(ParseTags(a, n0).value, ParseTags(b, n1).value))
    decreases n0
  {
    hide ReadTag, CompareTag, ParseTags;
    ParsedCount(a, n0);
    ParsedCount(b, n1);
    if n0 > 0 && n1 > 0 {
      ParsedFirst(a, n0);
      ParsedFirst(b, n1);
      var a', b' := ReadTag(a).value.1, ReadTag(b).value.1;
      CompareRestOfParsed(a', b', i + 1, n0 - 1, n1 - 1);
      assert ParseTags(a, n0).value[1..] == ParseTags(a', n0 - 1).value;
      assert ParseTags(b, n1).value[1..] == ParseTags(b', n1 - 1).value;
    }
  }

  /** Comparing any two byte strings that parse is comparing what they parse to. */
  lemma CompareKeysOfParsed(a: Text, b: Text)
    requires Parse(a).Some? && Parse(b).Some?
    ensures CompareKeys(a, b) ==
      Some(CompareSeries(Parse(a).value.0, Parse(a).value.1, Parse(b).value.0, Parse(b).value.1))
  {
    hide ReadField, ReadSize, CompareRest, CompareTags, ParseTags;
    NothingParses();
    var r0, r1 := ReadHead(a).value.rest, ReadHead(b).value.rest;
    var s0, s1 := ReadSize(r0).value, ReadSize(r1).value;
    CompareRestOfParsed(s0.1, s1.1, 0, s0.0, s1.0);
  }

  lemma NothingParses()
    ensures Parse([]).None?
  {
  }

  /** On encoded keys of strings the codec can hold, the comparison is the one on names and tags. */
  lemma CompareKeysOfEncoded(name0: Text, tags0: seq<Tag>, name1: Text, tags1: seq<Tag>)
    requires Addressable(name0, tags0) && Addressable(name1, tags1)
    ensures Short16(name0, tags0) && Short16(name1, tags1) ==>
      CompareKeys(Encode(name0, tags0), Encode(name1, tags1)) == Some(CompareSeries(name0, tags0, name1, tags1))
  {
    hide Parse, CompareKeys, Encode, Short16;
    if Short16(name0, tags0) && Short16(name1, tags1) {
      assert Encode(name0, tags0) + [] == Encode(name0, tags0) && Encode(name1, tags1) + [] == Encode(name1, tags1);
      ParseRoundTrip(name0, tags0, []);
      ParseRoundTrip(name1, tags1, []);
      CompareKeysOfParsed(Encode(name0, tags0), Encode(name1, tags1));
    }
  }

  /** Longer strings can make different series look the same: names of 65536 bytes that start with a zero. */
  lemma LongNamesLookEqual(name0: Text, tags0: seq<Tag>, name1: Text, tags1: seq<Tag>)
    requires Addressable(name0, tags0) && Addressable(name1, tags1)
    requires |name0| == |name1| == TWO_16 && name0[0] == name1[0] == 0
    ensures CompareKeys(Encode(name0, tags0), Encode(name1, tags1)) == Some(0)
  {
    hide ReadHead, ReadSize, Encode;
    LongNameIsLost(name0, tags0);
    LongNameIsLost(name1, tags1);
    assert Compare([], []) == 0;
    var r0, r1 := ReadHead(Encode(name0, tags0)).value.rest, ReadHead(Encode(name1, tags1)).value.rest;
    assert CompareRest(ReadSize(r0).value.1, ReadSize(r1).value.1, 0, 0, 0) == Some(0);
    assert Encode(name0, tags0) != [] && Encode(name1, tags1) != [] by { EncodeIsNotEmpty(name0, tags0); EncodeIsNotEmpty(name1, tags1); }
  }

  lemma EncodeIsNotEmpty(name: Text, tags: seq<Tag>)
    ensures Encode(name, tags) != []
  {
    hide PutUvarint, Payload;
  }

  lemma LongNameIsLost(name: Text, tags: seq<Tag>)
    requires Addressable(name, tags) && |name| == TWO_16 && name[0] == 0
    ensures ReadHead(Encode(name, tags)).Some? && ReadHead(Encode(name, tags)).value.name == []
    ensures ReadSize(ReadHead(Encode(name, tags)).value.rest).Some? && ReadSize(ReadHead(Encode(name, tags)).value.rest).value.0 == 0
  {
    hide Encode, Payload, EncodeTags, PutUvarint, ReadSize, ReadField;
    var tail := PutUvarint(|tags|) + EncodeTags(tags);
    EncodeShape(name, tags);
    PayloadFits(name, tags);
    ReadSizeOfUvarint(|Payload(name, tags)|, Field(name) + tail);
    ReadWrappedField(name, tail);
    ZeroCount(name + tail);
  }

  lemma ReadWrappedField(s: Text, rest: Text)
    requires |s| == TWO_16
    ensures ReadField(Field(s) + rest) == Some(([], s + rest))
  {
    var data := Field(s) + rest;
    BigEndianRoundTrip(2, |s|);
    assert Pow256(2) == TWO_16 by { assert Pow256(1) == 256; }
    assert data[..2] == BigEndian(2, |s|);
    assert data[2..2] == [] && data[2..] == s + rest;
  }

  lemma ZeroCount(data: Text)
    requires data != [] && data[0] == 0
    ensures ReadSize(data) == Some((0, data[1..]))
  {
    WrapBy(0, 0);
  }

  lemma EncodeShape(name: Text, tags: seq<Tag>)
    ensures Encode(name, tags)
         == PutUvarint(|Payload(name, tags)|) + (Field(name) + (PutUvarint(|tags|) + EncodeTags(tags)))
  {
    hide Field, PutUvarint, EncodeTags;
  }

  method CompareSeriesKeys(a: Text, b: Text) returns (r: Option<int>)
    ensures r == CompareKeys(a, b)
  {
    if |a| == 0 && |b| == 0 {
      return Some(0);
    } else if |a| == 0 {
      return Some(-1);
    } else if |b| == 0 {
      return Some(1);
    }
    var h0, h1 := ReadHead(a), ReadHead(b);
    if h0.None? || h1.None? { return None; }
    var cmp := Compare(h0.value.name, h1.value.name);
    if cmp != 0 { return Some(cmp); }
    var count0, count1 := ReadSize(h0.value.rest), ReadSize(h1.value.rest);
    if count0.None? || count1.None? { return None; }
    var n0, n1 := count0.value.0, count1.value.0;
    var x, y := count0.value.1, count1.value.1;
    var i := 0;
    while true
      invariant i >= 0 && CompareRest(x, y, i, n0, n1) == CompareRest(count0.value.1, count1.value.1, 0, n0, n1)
      decreases |x|
    {
      if i == n0 && i == n1 {
        return Some(0);
      } else if i == n0 {
        return Some(-1);
      } else if i == n1 {
        return Some(1);
      }
      var t0, t1 := ReadTag(x), ReadTag(y);
      if t0.None? || t1.None? { return None; }
      cmp := Compare(t0.value.0.key, t1.value.0.key);
      if cmp != 0 { return Some(cmp); }
      cmp := Compare(t0.value.0.value, t1.value.0.value);
      if cmp != 0 { return Some(cmp); }
      x, y, i := t0.value.1, t1.value.1, i + 1;
    }
  }

  lemma {:induction false} CompareTagsEqual(a: seq<Tag>, b: seq<Tag>)
    ensures CompareTags(a, b) == 0 <==> a == b
  {
    if a != [] && b != [] {
      CompareEqual(a[0].key, b[0].key);
      CompareEqual(a[0].value, b[0].value);
      CompareTagsEqual(a[1..], b[1..]);
      assert a == [a[0]] + a[1..] && b == [b[0]] + b[1..];
    }
  }

  lemma {:induction false} CompareTagsAntisymmetric(a: seq<Tag>, b: seq<Tag>)
    ensures CompareTags(b, a) == -CompareTags(a, b)
  {
    if a != [] && b != [] {
      CompareAntisymmetric(a[0].key, b[0].key);
      CompareAntisymmetric(a[0].value, b[0].value);
      CompareTagsAntisymmetric(a[1..], b[1..]);
    }
  }

  lemma {:induction false} CompareTagsTransitive(a: seq<Tag>, b: seq<Tag>, c: seq<Tag>)
    requires CompareTags(a, b) <= 0 && CompareTags(b, c) <= 0
    ensures CompareTags(a, c) <= 0
  {
    if a != [] && b != [] && c != [] {
      CompareTransitive(a[0].key, b[0].key, c[0].key);
      if Compare(a[0].key, b[0].key) == 0 && Compare(b[0].key, c[0].key) == 0 {
        CompareEqual(a[0].key, b[0].key);
        CompareEqual(b[0].key, c[0].key);
        CompareTransitive(a[0].value, b[0].value, c[0].value);
        if Compare(a[0].value, b[0].value) == 0 && Compare(b[0].value, c[0].value) == 0 {
          CompareEqual(a[0].value, b[0].value);
          CompareEqual(b[0].value, c[0].value);
          CompareTagsTransitive(a[1..], b[1..], c[1..]);
        }
      }
    }
  }

  /** Series keys are totally ordered, and compare equal exactly when they are the same series. */
  lemma CompareSeriesIsTotalOrder(n0: Text, t0: seq<Tag>, n1: Text, t1: seq<Tag>, n2: Text, t2: seq<Tag>)
    ensures CompareSeries(n0, t0, n1, t1) == 0 <==> n0 == n1 && t0 == t1
    ensures CompareSeries(n1, t1, n0, t0) == -CompareSeries(n0, t0, n1, t1)
    ensures CompareSeries(n0, t0, n1, t1) <= 0 && CompareSeries(n1, t1, n2, t2) <= 0 ==> CompareSeries(n0, t0, n2, t2) <= 0
  {
    CompareEqual(n0, n1);
    CompareEqual(n1, n2);
    CompareAntisymmetric(n0, n1);
    CompareTagsEqual(t0, t1);
    CompareTagsAntisymmetric(t0, t1);
    if CompareSeries(n0, t0, n1, t1) <= 0 && CompareSeries(n1, t1, n2, t2) <= 0 {
      CompareTransitive(n0, n1, n2);
      if Compare(n0, n2) == 0 { CompareTagsTransitive(t0, t1, t2); }
    }
  }
}
