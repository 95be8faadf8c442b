/** Splitting a point by size (models/points.go: String, StringSize, Split). */
module PointSplit {
  import opened Arithmetic
  import opened Collections
  import opened Bytes
  import opened Escaping
  import opened FieldText

  /** `time` is None for a zero time. */
  datatype Point = Point(key: Text, fields: Text, time: Option<int64>)

  // ---- the text of a point ------------------------------------------------------------------------------------

  function String(p: Point): Text
  {
    p.key + [SPACE] + p.fields + (match p.time case None => [] case Some(t) => [SPACE] + Decimal(t))
  }

  /** A point as it is written, without a time and with one. */
  lemma Written(p: Point)
    ensures p.time.None? ==> String(p) == p.key + Ascii(" ") + p.fields
    ensures p.time.Some? ==>
      String(p) == p.key + Ascii(" ") + p.fields + Ascii(" ") + Decimal(p.time.value) && IsDecimal(Decimal(p.time.value), p.time.value)
  {
    hide IsDecimal;
    assert Ascii(" ") == [SPACE];
    if p.time.Some? { DecimalIs(p.time.value); }
  }

  /** The length of the text, except at the least time, whose negation is negative again. */
  function Length(p: Point): int { |String(p)| - (if p.time.Some? && p.time.value == MIN_INT64 then 18 else 0) }

  method StringSize(p: Point) returns (size: nat)
    ensures size == Length(p)
  {
    hide Wrap, Decimal;
    size := |p.key| + |p.fields| + 1;
    if p.time.Some? {
      var digits := 1;
      var t: int := p.time.value;
      if t < 0 {
        digits := digits + 1;
        if t == MIN_INT64 { LeastTime(); }
        DecimalLength(t);
        WrapBy(-t, if t == MIN_INT64 then -1 else 0);
        t := Wrap(-t);
      }
      while t > 9
        invariant t != MIN_INT64 ==> t >= 0 && digits + |Decimal(t)| == 1 + |Decimal(p.time.value)|
        invariant t == MIN_INT64 ==> digits == 2 && p.time.value == t
        decreases t
      {
        DecimalLength(t);
        digits := digits + 1;
        t := t / 10;
      }
      DecimalLength(t);
      size := size + digits + 1;
    }
  }

  lemma DecimalLength(t: int)
    ensures |Decimal(t)| == if t < 0 then 1 + |Decimal(-t)| else if t <= 9 then 1 else 1 + |Decimal(t / 10)|
  {
  }

  lemma LeastTime()
    ensures |Decimal(MIN_INT64)| == 20
  {
    assert |Decimal(9)| == 1;
    assert |Decimal(92_233)| == 5;
    assert |Decimal(922_337_203)| == 9;
    assert |Decimal(9_223_372_036_854)| == 13;
    assert |Decimal(92_233_720_368_547_758)| == 17;
    assert |Decimal(9_223_372_036_854_775_808)| == 19;
  }

  // ---- the fields of a section, as Split scans them ---------------------------------------------------------------

  /** Where the scan of a field ends: at a comma, at the end, or one past it if there is no equals sign. */
  function FieldEnd(buf: Text, at: nat): (end: nat)
    requires at < |buf|
    ensures at < end <= |buf| + 1
  {
    ScanValue(buf, ScanTo(buf, at, EQUALS) + 1, false)
  }

  /** The stretches between the commas Split stops at; behind a last comma there is an empty one. */
  function Units(buf: Text, at: nat): seq<Text>
    requires at <= |buf|
    decreases |buf| - at
  {
    if at == |buf| then [[]]
    else if FieldEnd(buf, at) >= |buf| then [buf[at..]]
    else [buf[at..FieldEnd(buf, at)]] + Units(buf, FieldEnd(buf, at) + 1)
  }

  /** Some field has no equals sign; it is the last one. */
  predicate MissesEquals(buf: Text, at: nat)
    requires at <= |buf|
    decreases |buf| - at
  {
    at < |buf| && (ScanTo(buf, at, EQUALS) >= |buf| || (FieldEnd(buf, at) < |buf| && MissesEquals(buf, FieldEnd(buf, at) + 1)))
  }

  /** The last field has an equals sign, and no comma comes after it. */
  predicate EndsWell(buf: Text, at: nat)
    requires at <= |buf|
    decreases |buf| - at
  {
    at < |buf| && ScanTo(buf, at, EQUALS) < |buf| && (FieldEnd(buf, at) == |buf| || EndsWell(buf, FieldEnd(buf, at) + 1))
  }

  lemma {:induction false} ValueStops(buf: Text, i: nat, quoted: bool)
    ensures var j := ScanValue(buf, i, quoted); j < |buf| ==> buf[j] == COMMA
    decreases if i < |buf| then |buf| - i else 0
  {
    if i < |buf| {
      if buf[i] == BACKSLASH && i + 1 < |buf| && SpecialInString(buf[i + 1]) {
        ValueStops(buf, i + 2, quoted);
      } else if buf[i] == QUOTE {
        ValueStops(buf, i + 1, !quoted);
      } else if !(buf[i] == COMMA && !quoted) {
        ValueStops(buf, i + 1, quoted);
      }
    }
  }

  /** The next field: its text, and what the loop will have left. */
  lemma NextUnit(buf: Text, cur: nat)
    requires cur < |buf|
    ensures var end := FieldEnd(buf, cur);
      && (end < |buf| ==> buf[end] == COMMA)
      && (end < |buf| ==> Units(buf, cur) == [buf[cur..end]] + Units(buf, end + 1))
      && (end >= |buf| ==> Units(buf, cur) == [buf[cur..]])
      && (ScanTo(buf, cur, EQUALS) >= |buf| <==> end == |buf| + 1)
  {
    hide ScanTo, ScanValue;
    ValueStops(buf, ScanTo(buf, cur, EQUALS) + 1, false);
    PastEnd(buf);
  }

  lemma PastEnd(buf: Text)
    ensures ScanValue(buf, |buf| + 1, false) == |buf| + 1
  {
  }

  // ---- groups of fields ------------------------------------------------------------------------------------------

  /** Field sections joined by commas. */
  function Joined(points: seq<Point>): Text
  {
    if points == [] then []
    else if |points| == 1 then points[0].fields
    else Joined(points[..|points| - 1]) + [COMMA] + points[|points| - 1].fields
  }

  lemma {:induction false} SectionConcat(a: seq<Text>, b: seq<Text>)
    requires a != [] && b != []
    ensures Section(a + b) == Section(a) + [COMMA] + Section(b)
  {
    assert (a + b)[1..] == a[1..] + b;
    if |a| > 1 {
      SectionConcat(a[1..], b);
    } else {
      assert a[1..] + b == b;
    }
  }

  lemma {:induction false} UnitsJoin(buf: Text, at: nat)
    requires at <= |buf|
    ensures Units(buf, at) != [] && Section(Units(buf, at)) == buf[at..]
    decreases |buf| - at
  {
    hide FieldEnd, Section, Units;
    SectionOfOne([]);
    if at == |buf| {
      assert Units(buf, at) == [[]] by { UnitsAtEnd(buf); }
    } else {
      var end := FieldEnd(buf, at);
      NextUnit(buf, at);
      SectionOfOne(buf[at..]);
      if end < |buf| {
        UnitsJoin(buf, end + 1);
        SectionConcat([buf[at..end]], Units(buf, end + 1));
        SectionOfOne(buf[at..end]);
        assert buf[at..] == buf[at..end] + [buf[end]] + buf[end + 1..];
      }
    }
  }

  lemma UnitsAtEnd(buf: Text)
    ensures Units(buf, |buf|) == [[]]
  {
  }

  lemma SectionOfOne(t: Text)
    ensures Section([t]) == t
  {
  }

  predicate SplitAs(p: Point, points: seq<Point>, groups: seq<seq<Text>>)
  {
    |points| == |groups| && forall i :: 0 <= i < |points| ==> points[i] == p.(fields := Section(groups[i]))
  }

  predicate NoneEmpty(groups: seq<seq<Text>>) { forall i :: 0 <= i < |groups| ==> groups[i] != [] }

  lemma {:induction false} JoiningRestores(p: Point, points: seq<Point>, groups: seq<seq<Text>>)
    requires SplitAs(p, points, groups) && NoneEmpty(groups)
    ensures Joined(points) == Section(Flatten(groups)) && (groups != [] ==> Flatten(groups) != [])
    decreases |groups|
  {
    hide Section;
    var n := |groups| - 1;
    if groups == [] {
      SectionOfNone();
    } else {
      JoiningRestores(p, points[..n], groups[..n]);
      if n == 0 {
        assert Flatten(groups) == groups[0];
      } else {
        SectionConcat(Flatten(groups[..n]), groups[n]);
      }
    }
  }

  // ---- Split -----------------------------------------------------------------------------------------------------

  /** A group of several fields fits the budget. */
  predicate Fit(groups: seq<seq<Text>>, budget: int)
  {
    forall i :: 0 <= i < |groups| && |groups[i]| >= 2 ==> |Section(groups[i])| <= budget
  }

  /** No group could have taken the next group's first field as well. */
  predicate Greedy(groups: seq<seq<Text>>, budget: int)
  {
    forall i :: 0 < i < |groups| && groups[i] != [] ==> |Section(groups[i - 1] + groups[i][..1])| > budget
  }

  /** The fields still to come. */
  function Rest(fields: Text, cur: nat): seq<Text> { if cur <= |fields| then Units(fields, cur) else [] }

  /** What the part still to come says of the whole. */
  predicate SameEnd(fields: Text, cur: nat)
  {
    && (cur <= |fields| ==> (EndsWell(fields, 0) <==> EndsWell(fields, cur)) && (MissesEquals(fields, 0) <==> MissesEquals(fields, cur)))
    && (cur > |fields| ==> (EndsWell(fields, 0) <==> cur == |fields| + 1) && (MissesEquals(fields, 0) <==> cur == |fields| + 2))
  }

  /** Where the open group lies. */
  predicate OpenAt(fields: Text, open: seq<Text>, start: nat, cur: nat)
  {
    if open == [] then start == cur == 0
    else
      && start < cur && start <= |fields|
      && (cur <= |fields| ==> fields[start..cur - 1] == Section(open) && fields[cur - 1] == COMMA)
      && (cur > |fields| ==> fields[start..] == Section(open))
  }

  /** The groups split off so far, the open one and the fields still to come. */
  ghost predicate Progress(p: Point, budget: int, points: seq<Point>, groups: seq<seq<Text>>,
                           open: seq<Text>, start: nat, cur: nat)
  {
    var fields := p.fields;
    && SplitAs(p, points, groups) && NoneEmpty(groups) && Fit(groups, budget)
    && (EndsWell(fields, 0) ==> Greedy(if open == [] then groups else groups + [open], budget))
    && Units(fields, 0) == Flatten(groups) + open + Rest(fields, cur)
    && (open == [] ==> groups == [])
    && OpenAt(fields, open, start, cur)
    && (|open| >= 2 ==> |Section(open)| <= budget)
    && SameEnd(fields, cur)
  }

  lemma Begin(p: Point, budget: int)
    ensures Progress(p, budget, [], [], [], 0, 0)
  {
    assert Flatten<Text>([]) + [] + Units(p.fields, 0) == Units(p.fields, 0);
  }

  /** The open group becomes a piece. */
  lemma Close(p: Point, budget: int, points: seq<Point>, groups: seq<seq<Text>>, open: seq<Text>, piece: Text)
    requires SplitAs(p, points, groups) && NoneEmpty(groups) && Fit(groups, budget) && open != []
    requires piece == Section(open)
    ensures SplitAs(p, points + [p.(fields := piece)], groups + [open]) && NoneEmpty(groups + [open])
    ensures (|open| >= 2 ==> |piece| <= budget) ==> Fit(groups + [open], budget)
    ensures Flatten(groups + [open]) == Flatten(groups) + open
  {
    hide Section;
    assert (groups + [open])[..|groups|] == groups;
  }

  lemma GreedyNext(groups: seq<seq<Text>>, x: Text, budget: int)
    requires Greedy(groups, budget) && groups != [] && |Section(groups[|groups| - 1] + [x])| > budget
    ensures Greedy(groups + [[x]], budget)
  {
    hide Section;
    assert [x][..1] == [x];
    var gs := groups + [[x]];
    forall i | 0 < i < |gs| && gs[i] != [] ensures |Section(gs[i - 1] + gs[i][..1])| > budget {
      if i < |groups| { assert gs[i] == groups[i] && gs[i - 1] == groups[i - 1]; }
    }
  }

  /** Only the first field of a group matters to the group before. */
  lemma GreedyLonger(groups: seq<seq<Text>>, open: seq<Text>, x: Text, budget: int)
    requires open != [] && Greedy(groups + [open], budget)
    ensures Greedy(groups + [open + [x]], budget)
  {
    hide Section;
    var gs, hs := groups + [open], groups + [open + [x]];
    assert (open + [x])[..1] == open[..1];
    forall i | 0 < i < |hs| && hs[i] != [] ensures |Section(hs[i - 1] + hs[i][..1])| > budget {
      assert hs[i - 1] == gs[i - 1] && hs[i][..1] == gs[i][..1];
    }
  }

  lemma GreedyOne(open: seq<Text>, budget: int)
    ensures Greedy([open], budget)
  {
  }

  /** What the scan of one more field says of the end. */
  lemma SameEndNext(fields: Text, cur: nat)
    requires cur < |fields| && SameEnd(fields, cur)
    ensures SameEnd(fields, FieldEnd(fields, cur) + 1)
    ensures FieldEnd(fields, cur) > |fields| ==> !EndsWell(fields, 0)
  {
    hide ScanTo, ScanValue, FieldEnd;
    NextUnit(fields, cur);
  }

  /** The text of the next field. */
  function UnitAt(fields: Text, cur: nat): Text
    requires cur < |fields|
  {
    if FieldEnd(fields, cur) >= |fields| then fields[cur..] else fields[cur..FieldEnd(fields, cur)]
  }

  lemma RestNext(fields: Text, cur: nat)
    requires cur < |fields|
    ensures Rest(fields, cur) == [UnitAt(fields, cur)] + Rest(fields, FieldEnd(fields, cur) + 1)
  {
    hide FieldEnd;
    NextUnit(fields, cur);
  }

  /** The next field as a group of its own. */
  lemma OpenAlone(fields: Text, cur: nat)
    requires cur < |fields|
    ensures OpenAt(fields, [UnitAt(fields, cur)], cur, FieldEnd(fields, cur) + 1)
  {
    hide FieldEnd, Section;
    NextUnit(fields, cur);
    SectionOfOne(UnitAt(fields, cur));
  }

  /** The next field with the open group. */
  lemma OpenLonger(fields: Text, open: seq<Text>, start: nat, cur: nat)
    requires cur < |fields| && open != [] && OpenAt(fields, open, start, cur)
    ensures OpenAt(fields, open + [UnitAt(fields, cur)], start, FieldEnd(fields, cur) + 1)
    ensures |Section(open + [UnitAt(fields, cur)])| == Min(FieldEnd(fields, cur), |fields|) - start
  {
    hide FieldEnd, Section;
    var u, end := UnitAt(fields, cur), Min(FieldEnd(fields, cur), |fields|);
    NextUnit(fields, cur);
    SectionConcat(open, [u]);
    SectionOfOne(u);
    assert u == fields[cur..end];
    CutAtComma(fields, start, cur, end);
    assert end == |fields| ==> fields[start..end] == fields[start..];
  }

  lemma CutAtComma(s: Text, start: nat, cur: nat, end: nat)
    requires start < cur <= end <= |s|
    ensures s[start..end] == s[start..cur - 1] + [s[cur - 1]] + s[cur..end]
  {
  }

  /** The next field starts a group of its own. */
  lemma TakeApart(p: Point, budget: int, points: seq<Point>, groups: seq<seq<Text>>, open: seq<Text>, start: nat, cur: nat)
    requires Progress(p, budget, points, groups, open, start, cur) && open != [] && cur < |p.fields|
    requires FieldEnd(p.fields, cur) - start > budget
    ensures Progress(p, budget, points + [p.(fields := p.fields[start..cur - 1])], groups + [open],
                     [UnitAt(p.fields, cur)], cur, FieldEnd(p.fields, cur) + 1)
  {
    hide Section, Fit, NoneEmpty, SplitAs, Greedy, FieldEnd, Rest, SameEnd, Units, EndsWell, UnitAt;
    var u, end := UnitAt(p.fields, cur), FieldEnd(p.fields, cur);
    RestNext(p.fields, cur);
    SameEndNext(p.fields, cur);
    Close(p, budget, points, groups, open, p.fields[start..cur - 1]);
    OpenAlone(p.fields, cur);
    OpenLonger(p.fields, open, start, cur);
    if EndsWell(p.fields, 0) { GreedyNext(groups + [open], u, budget); }
    assert Flatten(groups) + open + ([u] + Rest(p.fields, end + 1)) == (Flatten(groups) + open) + [u] + Rest(p.fields, end + 1);
  }

  /** The next field joins the open group. */
  lemma TakeAlong(p: Point, budget: int, points: seq<Point>, groups: seq<seq<Text>>, open: seq<Text>, start: nat, cur: nat)
    requires Progress(p, budget, points, groups, open, start, cur) && cur < |p.fields|
    requires open != [] ==> FieldEnd(p.fields, cur) - start <= budget
    ensures Progress(p, budget, points, groups, open + [UnitAt(p.fields, cur)], start, FieldEnd(p.fields, cur) + 1)
  {
    hide Section, Fit, NoneEmpty, SplitAs, Greedy, FieldEnd, Rest, SameEnd, Units, EndsWell, UnitAt;
    var u, end := UnitAt(p.fields, cur), FieldEnd(p.fields, cur);
    RestNext(p.fields, cur);
    SameEndNext(p.fields, cur);
    if open != [] {
      OpenLonger(p.fields, open, start, cur);
      if EndsWell(p.fields, 0) { GreedyLonger(groups, open, u, budget); }
    } else {
      OpenAlone(p.fields, cur);
      assert open + [u] == [u] && groups + [[u]] == [[u]];
      GreedyOne([u], budget);
    }
    assert Flatten(groups) + open + ([u] + Rest(p.fields, end + 1)) == Flatten(groups) + (open + [u]) + Rest(p.fields, end + 1);
  }

  /** Pieces of several fields are no longer than the size asked for. */
  predicate PiecesFit(points: seq<Point>, groups: seq<seq<Text>>, size: int)
    requires |points| == |groups|
  {
    forall i :: 0 <= i < |points| && |groups[i]| >= 2 ==> |String(points[i])| <= size
  }

  lemma FitIsPiecesFit(p: Point, points: seq<Point>, groups: seq<seq<Text>>, size: int)
    requires p.time.Some? && SplitAs(p, points, groups)
    requires Fit(groups, size - (|p.key| + |Decimal(p.time.value)| + 2))
    ensures PiecesFit(points, groups, size)
  {
    hide Section, Decimal;
  }

  lemma Whole(p: Point, units: seq<Text>)
    requires p.fields == Section(units) && units != []
    ensures SplitAs(p, [p], [units]) && Flatten([units]) == units && Joined([p]) == p.fields && NoneEmpty([units])
  {
    hide Section, String;
    assert [units][..0] == [];
  }

  lemma WholeFits(p: Point, units: seq<Text>, size: int)
    ensures PiecesFit([p], [units], size) <==> |units| < 2 || |String(p)| <= size
  {
    hide String;
    var points, groups := [p], [units];
    assert points[0] == p && groups[0] == units;
  }

  /** The last piece takes the open group and the empty field behind a last comma. */
  lemma Finish(p: Point, budget: int, points: seq<Point>, groups: seq<seq<Text>>, open: seq<Text>, start: nat, cur: nat)
    requires Progress(p, budget, points, groups, open, start, cur) && cur >= |p.fields|
    ensures start <= |p.fields|
    ensures var qs, gs := points + [p.(fields := p.fields[start..])], groups + [open + Rest(p.fields, cur)];
      && SplitAs(p, qs, gs) && Flatten(gs) == Units(p.fields, 0) && Joined(qs) == p.fields && NoneEmpty(gs)
      && Fit(groups, budget) && (EndsWell(p.fields, 0) ==> Fit(gs, budget) && Greedy(gs, budget))
  {
    hide Section, Joined, Greedy, Fit, NoneEmpty, SplitAs, Flatten, Units, EndsWell, MissesEquals;
    var rest := Rest(p.fields, cur);
    var last := open + rest;
    LastPiece(p.fields, open, start, cur);
    Close(p, budget, points, groups, last, p.fields[start..]);
    var qs, gs := points + [p.(fields := p.fields[start..])], groups + [last];
    assert Flatten(groups) + open + rest == Flatten(groups) + last;
    JoiningRestores(p, qs, gs);
    UnitsJoin(p.fields, 0);
    assert p.fields[0..] == p.fields;
    if EndsWell(p.fields, 0) {
      NothingEndsWell(p.fields);
      assert last == open;
    }
  }

  lemma NothingEndsWell(fields: Text)
    ensures !EndsWell(fields, |fields|)
  {
  }

  lemma LastPiece(fields: Text, open: seq<Text>, start: nat, cur: nat)
    requires OpenAt(fields, open, start, cur) && cur >= |fields|
    ensures start <= |fields| && open + Rest(fields, cur) != [] && fields[start..] == Section(open + Rest(fields, cur))
  {
    hide Section;
    SectionOfOne([]);
    if cur == |fields| {
      assert Rest(fields, cur) == [[]];
      if open != [] {
        SectionConcat(open, [[]]);
        assert fields[start..] == fields[start..cur - 1] + [fields[cur - 1]];
      } else {
        assert open + [[]] == [[]] && fields[0..] == [];
      }
    } else {
      assert open + [] == open;
    }
  }

  /** What the loop needs to know of its state. */
  lemma Position(p: Point, budget: int, points: seq<Point>, groups: seq<seq<Text>>, open: seq<Text>, start: nat, cur: nat)
    requires Progress(p, budget, points, groups, open, start, cur)
    ensures start <= cur && (cur > start <==> open != []) && SameEnd(p.fields, cur)
  {
    hide Section, Fit, NoneEmpty, SplitAs, Greedy, Flatten, Units, SameEnd, EndsWell;
  }

  lemma MissingHere(fields: Text, cur: nat)
    requires cur < |fields| && SameEnd(fields, cur)
    ensures FieldEnd(fields, cur) > |fields| ==> MissesEquals(fields, 0)
    ensures FieldEnd(fields, cur) == |fields| ==> !MissesEquals(fields, 0)
  {
    hide ScanTo, ScanValue, FieldEnd;
    NextUnit(fields, cur);
  }

  /** Split, for any field section: nothing if it panics, which is exactly when there is splitting to do, a field has
      no equals sign and the slice of fields ends where its capacity does.
      The pieces have the point's key and time, their fields joined give the point's fields, and every piece has a whole
      field.  Pieces of several fields fit the size, the last one if the section ends well; this fails exactly at the
      least time, for sizes less than 18 short of the point's own. */
  method Split(p: Point, size: int, capacity: nat) returns (r: Option<seq<Point>>, ghost groups: seq<seq<Text>>)
    requires capacity >= |p.fields|
    ensures r.None? <==>
      p.time.Some? && Length(p) > size && MissesEquals(p.fields, 0) && capacity == |p.fields|
    ensures r.Some? ==>
      SplitAs(p, r.value, groups) && Flatten(groups) == Units(p.fields, 0) && Joined(r.value) == p.fields && NoneEmpty(groups)
    ensures p.time.None? ==> r == Some([p])
    ensures r.Some? && p.time.Some? && Length(p) > size ==>
      |groups| > 0 && PiecesFit(r.value[..|groups| - 1], groups[..|groups| - 1], size)
    ensures r.Some? && p.time.Some? && EndsWell(p.fields, 0) ==>
      (PiecesFit(r.value, groups, size) <==>
       p.time.value != MIN_INT64 || |Units(p.fields, 0)| < 2 || size >= |String(p)| || size < |String(p)| - 18)
    ensures r.Some? && p.time.Some? && EndsWell(p.fields, 0) && |r.value| > 1 ==>
      Greedy(groups, size - (|p.key| + |Decimal(p.time.value)| + 2))
  {
    hide Section, String, ScanTo, ScanValue, Greedy, Fit, NoneEmpty, SplitAs, Decimal, Flatten, Joined, Progress, Units;
    hide FieldEnd, MissesEquals, EndsWell, SameEnd, Rest, UnitAt, PiecesFit;
    var own := StringSize(p);
    if p.time.None? || own <= size {
      UnitsJoin(p.fields, 0);
      assert p.fields[0..] == p.fields;
      Whole(p, Units(p.fields, 0));
      WholeFits(p, Units(p.fields, 0), size);
      return Some([p]), [Units(p.fields, 0)];
    }
    var budget := size - (|p.key| + |Decimal(p.time.value)| + 2);
    var start, cur := 0, 0;
    var points: seq<Point> := [];
    groups := [];
    ghost var open: seq<Text> := [];
    Begin(p, budget);
    while cur < |p.fields|
      invariant Progress(p, budget, points, groups, open, start, cur)
      invariant cur > |p.fields| + 1 ==> capacity > |p.fields|
      decreases |p.fields| - cur
    {
      Position(p, budget, points, groups, open, start, cur);
      MissingHere(p.fields, cur);
      var e := ScanToLoop(p.fields, cur, EQUALS);
      var end := ScanFieldValue(p.fields, e + 1);
      assert end == FieldEnd(p.fields, cur) by { EndFound(p.fields, cur); }
      if end > capacity {
        return None, groups;
      }
      if cur > start && end - start > budget {
        TakeApart(p, budget, points, groups, open, start, cur);
        points := points + [p.(fields := p.fields[start..cur - 1])];
        groups := groups + [open];
        open := [UnitAt(p.fields, cur)];
        start := cur;
      } else {
        TakeAlong(p, budget, points, groups, open, start, cur);
        open := open + [UnitAt(p.fields, cur)];
      }
      cur := end + 1;
    }
    Finish(p, budget, points, groups, open, start, cur);
    FinishEnd(p, budget, points, groups, open, start, cur);
    ghost var before := groups;
    groups := groups + [open + Rest(p.fields, cur)];
    ghost var before' := points;
    points := points + [p.(fields := p.fields[start..])];
    assert groups[..|groups| - 1] == before && points[..|groups| - 1] == before' by { SameLength(p, before', before); }
    FitIsPiecesFit(p, before', before, size);
    if EndsWell(p.fields, 0) { FitIsPiecesFit(p, points, groups, size); }
    return Some(points), groups;
  }

  lemma EndFound(fields: Text, cur: nat)
    requires cur < |fields|
    ensures FieldEnd(fields, cur) == ScanValue(fields, ScanTo(fields, cur, EQUALS) + 1, false)
  {
  }

  lemma SameLength(p: Point, points: seq<Point>, groups: seq<seq<Text>>)
    requires SplitAs(p, points, groups)
    ensures |points| == |groups|
  {
  }

  lemma FinishEnd(p: Point, budget: int, points: seq<Point>, groups: seq<seq<Text>>, open: seq<Text>, start: nat, cur: nat)
    requires Progress(p, budget, points, groups, open, start, cur) && cur >= |p.fields|
    ensures SplitAs(p, points, groups)
    ensures MissesEquals(p.fields, 0) <==> cur == |p.fields| + 2
  {
    hide Section, Fit, NoneEmpty, SplitAs, Greedy, Flatten, Units;
  }

  // ---- on marshalled fields ----------------------------------------------------------------------------------------

  lemma FirstFieldEnd(buf: Text, at: nat, f: Field, ts: seq<Text>)
    requires ts != [] && ts[0] == FieldOf(Marshalled(f)) && Scannable(f, |ts| == 1)
    requires at <= |buf| && buf[at..] == Section(ts) && Before(buf, at) != BACKSLASH
    ensures at < |buf| && ScanTo(buf, at, EQUALS) < |buf| && FieldEnd(buf, at) == at + |ts[0]| && buf[at..at + |ts[0]|] == ts[0]
    ensures |ts| == 1 ==> at + |ts[0]| == |buf|
    ensures |ts| > 1 ==> at + |ts[0]| < |buf| && buf[at + |ts[0]|] == COMMA && buf[at + |ts[0]| + 1..] == Section(ts[1..])
  {
    hide ScanTo, ScanValue, Section, Through, EscapeKey, GoodKey, Guarded, ValueText;
    FirstText(buf, at, ts);
    MarshalledKey(f);
    if f.value.Raw? { RawText(f.value); } else { TypedIsScanned(f.value); }
    ScanField(buf, at, Marshalled(f));
  }

  lemma RawText(v: Value)
    requires v.Raw?
    ensures ValueText(v) == v.bytes
  {
  }

  lemma EndsWellStep(buf: Text, at: nat)
    requires at < |buf| && ScanTo(buf, at, EQUALS) < |buf|
    ensures EndsWell(buf, at) <==> FieldEnd(buf, at) == |buf| || (FieldEnd(buf, at) < |buf| && EndsWell(buf, FieldEnd(buf, at) + 1))
  {
    hide ScanTo, FieldEnd;
    NextUnit(buf, at);
  }

  /** What Split takes for fields are the fields: fields that can be scanned are never torn. */
  lemma {:induction false} UnitsOfMarshalled(buf: Text, at: nat, fs: seq<Field>)
    requires fs != [] && forall i :: 0 <= i < |fs| ==> Scannable(fs[i], i == |fs| - 1)
    requires at <= |buf| && buf[at..] == Section(AllMarshalled(fs)) && Before(buf, at) != BACKSLASH
    ensures Units(buf, at) == AllMarshalled(fs) && EndsWell(buf, at)
    decreases |fs|
  {
    hide Scannable, FieldEnd, Section, ScanTo, Marshalled, FieldOf, Units, EndsWell;
    var ts := AllMarshalled(fs);
    FirstFieldEnd(buf, at, fs[0], ts);
    NextUnit(buf, at);
    EndsWellStep(buf, at);
    if |fs| == 1 {
      assert ts == [ts[0]] && buf[at..at + |ts[0]|] == buf[at..];
    } else {
      assert ts[1..] == AllMarshalled(fs[1..]);
      forall i | 0 <= i < |fs[1..]| ensures Scannable(fs[1..][i], i == |fs[1..]| - 1) { assert fs[1..][i] == fs[i + 1]; }
      UnitsOfMarshalled(buf, at + |ts[0]| + 1, fs[1..]);
      assert ts == [ts[0]] + ts[1..];
    }
  }
}
