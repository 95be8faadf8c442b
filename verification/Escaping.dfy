/** Escaping in line protocol text (models/points.go, pkg/escape): a backslash in front of the bytes
    that would otherwise end a component. */
module Escaping {
  import opened Bytes

  const BACKSLASH: byte := 92
  const COMMA: byte := 44
  const SPACE: byte := 32
  const EQUALS: byte := 61
  const QUOTE: byte := 34

  // ---- one byte at a time: bytes.Replace ----------------------------------------------------------------

  /** Replace c by backslash c. */
  function Escape(c: byte, s: Text): Text
  {
    if s == [] then [] else (if s[0] == c then [BACKSLASH, c] else [s[0]]) + Escape(c, s[1..])
  }

  /** Replace backslash c by c, from left to right. */
  function Unescape(c: byte, s: Text): Text
  {
    if |s| >= 2 && s[0] == BACKSLASH && s[1] == c then [c] + Unescape(c, s[2..])
    else if s == [] then []
    else [s[0]] + Unescape(c, s[1..])
  }

  lemma {:induction false} UnescapeOfEscape(c: byte, s: Text)
    requires c != BACKSLASH
    ensures Unescape(c, Escape(c, s)) == s
  {
    if s != [] {
      UnescapeOfEscape(c, s[1..]);
      var e, rest := Escape(c, s), Escape(c, s[1..]);
      assert s == [s[0]] + s[1..];
      if s[0] == c {
        assert e[2..] == rest;
      } else {
        EscapedFirst(c, s[1..]);
        assert e[1..] == rest;
      }
    }
  }

  lemma EscapedFirst(c: byte, s: Text)
    ensures c != BACKSLASH && s != [] ==> Escape(c, s) != [] && Escape(c, s)[0] != c
    ensures s != [] && s[0] != c ==> Escape(c, s)[0] == s[0]
    ensures s != [] && s[0] == c ==> Escape(c, s)[0] == BACKSLASH
    ensures s == [] ==> Escape(c, s) == []
  {
  }

  lemma EscapeStep(d: byte, x: byte, rest: Text)
    ensures Escape(d, [x] + rest) == (if x == d then [BACKSLASH, d] else [x]) + Escape(d, rest)
  {
    assert ([x] + rest)[1..] == rest;
  }

  lemma UnescapeStep(c: byte, x: byte, rest: Text)
    ensures x == BACKSLASH && rest != [] && rest[0] == c ==> Unescape(c, [x] + rest) == [c] + Unescape(c, rest[1..])
    ensures !(x == BACKSLASH && rest != [] && rest[0] == c) ==> Unescape(c, [x] + rest) == [x] + Unescape(c, rest)
  {
    assert ([x] + rest)[1..] == rest;
    if rest != [] { assert ([x] + rest)[2..] == rest[1..]; }
  }

  /** Escaping one byte and unescaping another do not get in each other's way. */
  lemma {:induction false} EscapeUnescapeCommute(c: byte, d: byte, s: Text)
    requires c != d && c != BACKSLASH && d != BACKSLASH
    ensures Unescape(c, Escape(d, s)) == Escape(d, Unescape(c, s))
    decreases |s|
  {
    if s != [] {
      hide Escape, Unescape;
      var x, rest := s[0], s[1..];
      assert s == [x] + rest;
      EscapeStep(d, x, rest);
      UnescapeStep(c, x, rest);
      if x == BACKSLASH && rest != [] && rest[0] == c {
        CommutePair(c, d, rest[1..]);
        assert rest == [c] + rest[1..];
        EscapeUnescapeCommute(c, d, rest[1..]);
        EscapeStep(d, c, Unescape(c, rest[1..]));
      } else {
        EscapeUnescapeCommute(c, d, rest);
        EscapeStep(d, x, Unescape(c, rest));
        if x == d { CommuteEscaped(c, d, Escape(d, rest)); } else { CommutePlain(c, d, x, rest); }
      }
    }
  }

  lemma CommuteEscaped(c: byte, d: byte, t: Text)
    requires c != d && c != BACKSLASH && d != BACKSLASH
    ensures Unescape(c, [BACKSLASH, d] + t) == [BACKSLASH, d] + Unescape(c, t)
  {
    hide Unescape;
    UnescapeStep(c, d, t);
    UnescapeStep(c, BACKSLASH, [d] + t);
    assert [BACKSLASH, d] + t == [BACKSLASH] + ([d] + t);
    assert [BACKSLASH, d] + Unescape(c, t) == [BACKSLASH] + ([d] + Unescape(c, t));
  }

  lemma CommutePlain(c: byte, d: byte, x: byte, rest: Text)
    requires c != d && c != BACKSLASH && d != BACKSLASH && x != d && !(x == BACKSLASH && rest != [] && rest[0] == c)
    ensures Unescape(c, [x] + Escape(d, rest)) == [x] + Unescape(c, Escape(d, rest))
  {
    hide Escape, Unescape;
    EscapedFirst(d, rest);
    UnescapeStep(c, x, Escape(d, rest));
  }

  lemma CommutePair(c: byte, d: byte, rest: Text)
    requires c != d && c != BACKSLASH && d != BACKSLASH
    ensures Unescape(c, Escape(d, [BACKSLASH] + ([c] + rest))) == [c] + Unescape(c, Escape(d, rest))
  {
    hide Escape, Unescape;
    EscapeStep(d, BACKSLASH, [c] + rest);
    EscapeStep(d, c, rest);
    UnescapeStep(c, BACKSLASH, [c] + Escape(d, rest));
    assert ([c] + Escape(d, rest))[1..] == Escape(d, rest);
  }

  lemma {:induction false} NothingToEscape(c: byte, s: Text)
    requires c !in s
    ensures Escape(c, s) == s
  {
    if s != [] { NothingToEscape(c, s[1..]); }
  }

  lemma {:induction false} NothingToUnescape(c: byte, s: Text)
    requires c !in s || BACKSLASH !in s
    ensures Unescape(c, s) == s
  {
    if s != [] { NothingToUnescape(c, s[1..]); }
  }

  // ---- tags and measurements -----------------------------------------------------------------------------

  const TAG_CODES: seq<byte> := [COMMA, SPACE, EQUALS]
  const MEASUREMENT_CODES: seq<byte> := [COMMA, SPACE]

  function EscapeAll(codes: seq<byte>, s: Text): Text
  {
    if codes == [] then s else Escape(codes[|codes| - 1], EscapeAll(codes[..|codes| - 1], s))
  }

  function UnescapeAll(codes: seq<byte>, s: Text): Text
  {
    if codes == [] then s else Unescape(codes[|codes| - 1], UnescapeAll(codes[..|codes| - 1], s))
  }

  function EscapeTag(s: Text): Text { EscapeAll(TAG_CODES, s) }
  function UnescapeTag(s: Text): Text { UnescapeAll(TAG_CODES, s) }
  function EscapeMeasurement(s: Text): Text { EscapeAll(MEASUREMENT_CODES, s) }

  /** escapeTag and EscapeMeasurement: one replacement per code, skipped when the byte does not occur. */
  method EscapeWith(codes: seq<byte>, s: Text) returns (out: Text)
    ensures out == EscapeAll(codes, s)
  {
    out := s;
    for i := 0 to |codes|
      invariant out == EscapeAll(codes[..i], s)
    {
      assert codes[..i + 1][..i] == codes[..i];
      if codes[i] in out {
        out := Escape(codes[i], out);
      } else {
        NothingToEscape(codes[i], out);
      }
    }
    assert codes[..|codes|] == codes;
  }

  /** unescapeTag and unescapeMeasurement. */
  method UnescapeWith(codes: seq<byte>, s: Text) returns (out: Text)
    ensures out == UnescapeAll(codes, s)
  {
    if BACKSLASH !in s {
      NoBackslash(codes, s);
      return s;
    }
    out := s;
    for i := 0 to |codes|
      invariant out == UnescapeAll(codes[..i], s)
    {
      assert codes[..i + 1][..i] == codes[..i];
      if codes[i] in out {
        out := Unescape(codes[i], out);
      } else {
        NothingToUnescape(codes[i], out);
      }
    }
    assert codes[..|codes|] == codes;
  }

  lemma {:induction false} NoBackslash(codes: seq<byte>, s: Text)
    requires BACKSLASH !in s
    ensures UnescapeAll(codes, s) == s
  {
    if codes != [] {
      NoBackslash(codes[..|codes| - 1], s);
      NothingToUnescape(codes[|codes| - 1], s);
    }
  }

  predicate GoodCodes(codes: seq<byte>)
  {
    && (forall i :: 0 <= i < |codes| ==> codes[i] != BACKSLASH)
    && forall i, j :: 0 <= i < j < |codes| ==> codes[i] != codes[j]
  }

  /** Unescaping a byte undoes its escaping under any number of later escapings. */
  lemma {:induction false} UnescapeThrough(c: byte, codes: seq<byte>, s: Text)
    requires c != BACKSLASH && c !in codes && GoodCodes(codes)
    ensures Unescape(c, EscapeAll(codes, s)) == EscapeAll(codes, Unescape(c, s))
  {
    if codes != [] {
      var n := |codes| - 1;
      UnescapeThrough(c, codes[..n], s);
      EscapeUnescapeCommute(c, codes[n], EscapeAll(codes[..n], s));
    }
  }

  lemma {:induction false} UnescapeAllThrough(codes: seq<byte>, d: byte, s: Text)
    requires GoodCodes(codes) && d != BACKSLASH && d !in codes
    ensures UnescapeAll(codes, Escape(d, s)) == Escape(d, UnescapeAll(codes, s))
  {
    if codes != [] {
      var n := |codes| - 1;
      UnescapeAllThrough(codes[..n], d, s);
      EscapeUnescapeCommute(codes[n], d, UnescapeAll(codes[..n], s));
    }
  }

  /** Whatever the text, backslashes included, unescaping undoes escaping. */
  lemma {:induction false} EscapeRoundTrip(codes: seq<byte>, s: Text)
    requires GoodCodes(codes)
    ensures UnescapeAll(codes, EscapeAll(codes, s)) == s
  {
    if codes != [] {
      var n := |codes| - 1;
      UnescapeAllThrough(codes[..n], codes[n], EscapeAll(codes[..n], s));
      EscapeRoundTrip(codes[..n], s);
      UnescapeOfEscape(codes[n], s);
    }
  }

  lemma TagRoundTrip(s: Text)
    ensures UnescapeTag(EscapeTag(s)) == s
  {
    EscapeRoundTrip(TAG_CODES, s);
  }

  // ---- what escaping gives the scanners ----------------------------------------------------------------------

  /** Every c in s has a backslash right before it; `prev` is the byte before s. */
  predicate Guarded(c: byte, prev: byte, s: Text)
    decreases |s|
  {
    s == [] || ((s[0] == c ==> prev == BACKSLASH) && Guarded(c, s[0], s[1..]))
  }

  lemma {:induction false} EscapeGuards(c: byte, prev: byte, s: Text)
    requires c != BACKSLASH
    ensures Guarded(c, prev, Escape(c, s))
    decreases |s|
  {
    if s != [] {
      var e, rest := Escape(c, s), Escape(c, s[1..]);
      if s[0] == c {
        EscapeGuards(c, c, s[1..]);
        assert e[1..] == [c] + rest && ([c] + rest)[1..] == rest;
      } else {
        EscapeGuards(c, s[0], s[1..]);
        assert e[1..] == rest;
      }
    }
  }

  lemma {:induction false} EscapeKeepsGuard(c: byte, d: byte, prev: byte, s: Text)
    requires c != d && c != BACKSLASH && Guarded(c, prev, s)
    ensures Guarded(c, prev, Escape(d, s))
    decreases |s|
  {
    if s != [] {
      var e, rest := Escape(d, s), Escape(d, s[1..]);
      EscapeKeepsGuard(c, d, s[0], s[1..]);
      if s[0] == d {
        assert e[1..] == [d] + rest && ([d] + rest)[1..] == rest;
      } else {
        assert e[1..] == rest;
      }
    }
  }

  lemma {:induction false} EscapeAllGuards(c: byte, codes: seq<byte>, prev: byte, s: Text)
    requires GoodCodes(codes) && c in codes
    ensures Guarded(c, prev, EscapeAll(codes, s))
  {
    var n := |codes| - 1;
    if codes[n] == c {
      EscapeGuards(c, prev, EscapeAll(codes[..n], s));
    } else {
      assert c in codes[..n];
      EscapeAllGuards(c, codes[..n], prev, s);
      EscapeKeepsGuard(c, codes[n], prev, EscapeAll(codes[..n], s));
    }
  }

  /** A backslash in front of every byte of the codes, and nothing else changed. */
  function ByByte(codes: seq<byte>, s: Text): Text
  {
    if s == [] then [] else (if s[0] in codes then [BACKSLASH, s[0]] else [s[0]]) + ByByte(codes, s[1..])
  }

  lemma {:induction false} EscapeConcat(c: byte, s: Text, t: Text)
    ensures Escape(c, s + t) == Escape(c, s) + Escape(c, t)
  {
    if s == [] {
      assert s + t == t;
    } else {
      assert (s + t)[1..] == s[1..] + t;
      EscapeConcat(c, s[1..], t);
    }
  }

  lemma EscapeOne(c: byte, x: byte)
    requires c != BACKSLASH
    ensures Escape(c, [x]) == if x == c then [BACKSLASH, x] else [x]
    ensures x != c ==> Escape(c, [BACKSLASH, x]) == [BACKSLASH, x]
  {
    assert [x][1..] == [] && [BACKSLASH, x][1..] == [x];
  }

  /** Replacing code by code comes to the same as one pass over the bytes. */
  lemma {:induction false} EscapeAllIsByByte(codes: seq<byte>, s: Text)
    requires GoodCodes(codes)
    ensures EscapeAll(codes, s) == ByByte(codes, s)
  {
    if codes == [] {
      NoCodes(s);
    } else {
      var n := |codes| - 1;
      EscapeAllIsByByte(codes[..n], s);
      assert codes == codes[..n] + [codes[n]];
      OneMoreCode(codes[..n], codes[n], s);
    }
  }

  lemma {:induction false} NoCodes(s: Text)
    ensures ByByte([], s) == s
  {
    if s != [] { NoCodes(s[1..]); }
  }

  lemma {:induction false} OneMoreCode(codes: seq<byte>, c: byte, s: Text)
    requires c !in codes && c != BACKSLASH
    ensures Escape(c, ByByte(codes, s)) == ByByte(codes + [c], s)
  {
    if s != [] {
      var first := if s[0] in codes then [BACKSLASH, s[0]] else [s[0]];
      OneMoreCode(codes, c, s[1..]);
      EscapeConcat(c, first, ByByte(codes, s[1..]));
      EscapeOne(c, s[0]);
    }
  }

  /** A backslash goes in front of every comma and space, and in tags of every equals sign. */
  lemma EscapedBytes(s: Text)
    ensures EscapeTag(s) == ByByte(Ascii(", ="), s) && EscapeMeasurement(s) == ByByte(Ascii(", "), s)
    ensures BACKSLASH == '\\' as int
  {
    assert Ascii(", =") == TAG_CODES && Ascii(", ") == MEASUREMENT_CODES;
    EscapeAllIsByByte(TAG_CODES, s);
    EscapeAllIsByByte(MEASUREMENT_CODES, s);
  }

  predicate EndsInBackslash(s: Text) { s != [] && s[|s| - 1] == BACKSLASH }

  lemma {:induction false} EscapeKeepsEnd(c: byte, s: Text)
    requires c != BACKSLASH
    ensures EndsInBackslash(Escape(c, s)) <==> EndsInBackslash(s)
    ensures Escape(c, s) == [] <==> s == []
  {
    if s != [] {
      EscapeKeepsEnd(c, s[1..]);
      var first := if s[0] == c then [BACKSLASH, c] else [s[0]];
      assert Escape(c, s) == first + Escape(c, s[1..]);
    }
  }

  lemma {:induction false} EscapeAllKeepsEnd(codes: seq<byte>, s: Text)
    requires GoodCodes(codes)
    ensures EndsInBackslash(EscapeAll(codes, s)) <==> EndsInBackslash(s)
    ensures EscapeAll(codes, s) == [] <==> s == []
  {
    if codes != [] {
      EscapeAllKeepsEnd(codes[..|codes| - 1], s);
      EscapeKeepsEnd(codes[|codes| - 1], EscapeAll(codes[..|codes| - 1], s));
    }
  }

  // ---- the scanners -------------------------------------------------------------------------------------------

  /** scanTo: the position of the next unescaped stop byte, or the end. */
  function ScanTo(buf: Text, i: nat, stop: byte): (j: nat)
    ensures j >= i && (i <= |buf| ==> j <= |buf|)
    decreases if i < |buf| then |buf| - i else 0
  {
    if i >= |buf| then i
    else if buf[i] == stop && (i == 0 || buf[i - 1] != BACKSLASH) then i
    else ScanTo(buf, i + 1, stop)
  }

  method ScanToLoop(buf: Text, i0: nat, stop: byte) returns (i: nat)
    ensures i == ScanTo(buf, i0, stop)
  {
    i := i0;
    while i < |buf| && !(buf[i] == stop && (i == 0 || buf[i - 1] != BACKSLASH))
      invariant i >= i0 && ScanTo(buf, i, stop) == ScanTo(buf, i0, stop)
    {
      i := i + 1;
    }
  }

  function Before(buf: Text, i: nat): byte
    requires i <= |buf|
  {
    if i == 0 then 0 else buf[i - 1]
  }

  /** The scan passes over guarded text. */
  lemma {:induction false} ScanPast(buf: Text, i: nat, stop: byte, x: Text)
    requires i + |x| <= |buf| && buf[i..i + |x|] == x && Guarded(stop, Before(buf, i), x) && stop != BACKSLASH
    ensures ScanTo(buf, i, stop) == ScanTo(buf, i + |x|, stop)
    decreases |x|
  {
    if x != [] {
      assert buf[i] == x[0];
      assert buf[i + 1..i + 1 + |x[1..]|] == x[1..];
      ScanPast(buf, i + 1, stop, x[1..]);
    }
  }

  /** Text that is guarded and does not end in a backslash is scanned exactly. */
  lemma ScanExactly(buf: Text, i: nat, stop: byte, x: Text)
    requires i + |x| <= |buf| && buf[i..i + |x|] == x && Guarded(stop, Before(buf, i), x) && stop != BACKSLASH
    requires !EndsInBackslash(x) && (x == [] ==> Before(buf, i) != BACKSLASH)
    requires i + |x| < |buf| ==> buf[i + |x|] == stop
    ensures ScanTo(buf, i, stop) == i + |x|
  {
    ScanPast(buf, i, stop, x);
    if x != [] { assert buf[i + |x| - 1] == x[|x| - 1]; }
  }

  /** At the end of the buffer a final backslash does no harm. */
  lemma ScanToEnd(buf: Text, i: nat, stop: byte, x: Text)
    requires i + |x| == |buf| && buf[i..] == x && Guarded(stop, Before(buf, i), x) && stop != BACKSLASH
    ensures ScanTo(buf, i, stop) == |buf|
  {
    assert buf[i..i + |x|] == x;
    ScanPast(buf, i, stop, x);
  }
}
