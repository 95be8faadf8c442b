/** GROUP BY time windows (query/iterator.go, IteratorOptions.Window without a location) and the
    bucket limit computed from them (query/compile.go, Prepare), in 64-bit arithmetic. */
module Window {
  import opened Arithmetic

  const MIN_TIME: int := MIN_INT64 + 2
  const MAX_TIME: int := MAX_INT64 - 1

  type Duration = x: int | 0 <= x <= MAX_INT64

  datatype Options = Options(start: int64, end: int64, duration: Duration, offset: int64)

  /** Go's remainder takes the sign of the dividend. */
  function GoMod(a: int, b: nat): int
    requires b > 0
  {
    if a >= 0 then a % b else -((-a) % b)
  }

  function GoDiv(a: int, b: nat): int
    requires b > 0
  {
    if a >= 0 then a / b else -((-a) / b)
  }

  datatype Span = Span(start: int64, end: int64)

  predicate In(t: int, w: Span) { w.start <= t < w.end }

  // ---- one window -------------------------------------------------------------------------------------------

  /** The time less the offset, as 64 bits hold it. */
  function Shifted(opt: Options, t: int64): int64 { Wrap(t - opt.offset) }

  /** How far the window reaches back from its time, unless the least time is closer. */
  function Back(opt: Options, t: int64): int
    requires opt.duration > 0
  {
    Min(Shifted(opt, t) % opt.duration, Shifted(opt, t) - MIN_TIME)
  }

  /** How far the window reaches on from its time, unless the greatest time is closer. */
  function On(opt: Options, t: int64): int
    requires opt.duration > 0
  {
    Min(opt.duration - Shifted(opt, t) % opt.duration, MAX_TIME - Shifted(opt, t))
  }

  function TheWindow(opt: Options, t: int64): Span
  {
    if opt.duration == 0 then Span(opt.start, Wrap(opt.end + 1))
    else Span(Wrap(t - Back(opt, t)), Wrap(t + On(opt, t)))
  }

  /** Window; an interval of zero is the whole query. */
  method WindowOf(opt: Options, t0: int64) returns (w: Span)
    ensures w == TheWindow(opt, t0)
  {
    hide GoMod, Wrap;
    if opt.duration == 0 {
      return Span(opt.start, Wrap(opt.end + 1));
    }
    var t: int64 := Wrap(t0 - opt.offset);
    var dt := GoMod(t, opt.duration);
    if dt < 0 {
      dt := dt + opt.duration;
    }
    ModIsFloored(t, opt.duration);
    var start: int64, end: int64;
    if MIN_TIME + dt >= t {
      start := MIN_TIME;
    } else {
      start := t - dt;
    }
    Unshifted(opt, t0, start - t);
    start := Wrap(start + opt.offset);
    if MAX_TIME - (opt.duration - dt) <= t {
      end := MAX_TIME;
    } else {
      end := t + (opt.duration - dt);
    }
    Unshifted(opt, t0, end - t);
    end := Wrap(end + opt.offset);
    return Span(start, end);
  }

  /** The correction of a negative remainder makes it the floored one. */
  lemma ModIsFloored(a: int, d: nat)
    requires d > 0
    ensures a % d == if GoMod(a, d) < 0 then GoMod(a, d) + d else GoMod(a, d)
  {
    if a < 0 {
      var q, r := (-a) / d, (-a) % d;
      assert -a == d * q + r;
      assert d * -q == -(d * q) && d * (-q - 1) == d * -q - d;
      if r == 0 {
        ModUnique(a, d, -q, 0);
      } else {
        ModUnique(a, d, -q - 1, d - r);
      }
    }
  }

  /** Adding the offset again undoes its subtraction, wrapped or not. */
  lemma Unshifted(opt: Options, t: int64, x: int)
    ensures Wrap(Shifted(opt, t) + x + opt.offset) == Wrap(t + x)
  {
    WrapAdd(t - opt.offset, x + opt.offset);
  }

  // ---- when a window contains its time ----------------------------------------------------------------------

  lemma WrapNear(t: int64, x: int)
    requires -TWO_64 < x < TWO_64
    ensures Fits(t + x) ==> Wrap(t + x) == t + x
    ensures t + x > MAX_INT64 ==> Wrap(t + x) == t + x - TWO_64
    ensures t + x < MIN_INT64 ==> Wrap(t + x) == t + x + TWO_64
  {
    if Fits(t + x) { WrapBy(t + x, 0); }
    if t + x > MAX_INT64 && Fits(t + x - TWO_64) { WrapBy(t + x, -1); }
    if t + x < MIN_INT64 && Fits(t + x + TWO_64) { WrapBy(t + x, 1); }
  }

  lemma Reach(opt: Options, t: int64)
    requires opt.duration > 0
    ensures -2 <= Back(opt, t) < opt.duration && -1 <= On(opt, t) <= opt.duration
    ensures Back(opt, t) < 0 ==> On(opt, t) > 0
  {
    hide Wrap;
  }

  /** Exactly when a window contains its time: the shifted time is a time, and neither bound leaves 64 bits.
      The exceptions are two times at which the window wraps around to be all of the integers but the greatest. */
  lemma WindowContainsTime(opt: Options, t: int64)
    requires opt.duration > 0
    ensures In(t, TheWindow(opt, t)) <==>
      || (MIN_TIME <= Shifted(opt, t) < MAX_TIME && Fits(t - Back(opt, t)) && Fits(t + On(opt, t)))
      || (t == MIN_INT64 && Shifted(opt, t) == MAX_INT64 && Back(opt, t) == 0)
      || (t == MAX_INT64 - 1 && Shifted(opt, t) == MIN_INT64 && On(opt, t) == 1)
  {
    hide Wrap;
    Reach(opt, t);
    WrapNear(t, -Back(opt, t));
    WrapNear(t, On(opt, t));
  }

  /** Without an interval there is one window, the whole range with both its ends, unless the end is the greatest integer:
      then the window is empty. */
  lemma WholeRangeIsOneWindow(opt: Options, t: int64)
    requires opt.duration == 0
    ensures TheWindow(opt, t).start == opt.start
    ensures In(t, TheWindow(opt, t)) <==> opt.start <= t <= opt.end && opt.end < MAX_INT64
  {
    hide Wrap;
    WrapNear(opt.end, 1);
  }

  // ---- tiling ----------------------------------------------------------------------------------------------

  /** What a window should be: it contains its time, is as long as the interval, and starts at the offset
      modulo the interval. */
  predicate Regular(opt: Options, t: int64)
    requires opt.duration > 0
  {
    var w := TheWindow(opt, t);
    In(t, w) && w.end - w.start == opt.duration && (w.start - opt.offset) % opt.duration == 0
  }

  /** Neither bound is cut off, and neither leaves 64 bits. */
  predicate Whole(opt: Options, t: int64)
    requires opt.duration > 0
  {
    var u := Shifted(opt, t);
    var dt := u % opt.duration;
    MIN_TIME <= u - dt && u - dt + opt.duration <= MAX_TIME && Fits(t - dt) && Fits(t - dt + opt.duration)
  }

  /** Nothing is cut off at the ends of time, and no sum wraps, but for wrapping that the interval divides. */
  predicate Undisturbed(opt: Options, t: int64)
    requires opt.duration > 0
  {
    Whole(opt, t) && (Fits(t - opt.offset) || TWO_64 % opt.duration == 0)
  }

  /** Removing the remainder of a shifted number leaves the shift. */
  lemma ModShifted(u: int, d: nat, k: int)
    requires d > 0
    ensures (u - u % d + k) % d == k % d
  {
    assert u == d * (u / d) + u % d && k == d * (k / d) + k % d;
    assert d * (u / d) + d * (k / d) == d * (u / d + k / d);
    ModUnique(u - u % d + k, d, u / d + k / d, k % d);
  }

  lemma NegativeMultiple(x: int, d: nat)
    requires d > 0
    ensures -x % d == 0 <==> x % d == 0
  {
    if x % d == 0 {
      assert -x == d * -(x / d);
      ModUnique(-x, d, -(x / d), 0);
    }
    if -x % d == 0 {
      assert x == d * -(-x / d);
      ModUnique(x, d, -(-x / d), 0);
    }
  }

  /** The start of a window against the offset. */
  lemma Alignment(opt: Options, t: int64)
    requires opt.duration > 0
    ensures (t - Shifted(opt, t) % opt.duration - opt.offset) % opt.duration == 0 <==>
      Fits(t - opt.offset) || TWO_64 % opt.duration == 0
  {
    hide Wrap;
    var u, d := Shifted(opt, t), opt.duration;
    WrapNear(t, 0 - opt.offset);
    var k := t - opt.offset - u;
    assert k == 0 || k == TWO_64 || k == -TWO_64;
    ModShifted(u, d, k);
    NegativeMultiple(TWO_64, d);
    assert t - u % d - opt.offset == u - u % d + k;
  }

  lemma WindowIsWhole(opt: Options, t: int64)
    requires opt.duration > 0
    ensures var w := TheWindow(opt, t);
      && (In(t, w) && w.end - w.start == opt.duration <==> Whole(opt, t))
      && (Whole(opt, t) ==> w.start == t - Shifted(opt, t) % opt.duration)
  {
    hide Wrap, Shifted;
    Reach(opt, t);
    WrapNear(t, -Back(opt, t));
    WrapNear(t, On(opt, t));
  }

  lemma WindowIsRegular(opt: Options, t: int64)
    requires opt.duration > 0
    ensures Regular(opt, t) <==> Undisturbed(opt, t)
  {
    hide Wrap, Shifted, TheWindow;
    WindowIsWhole(opt, t);
    Alignment(opt, t);
  }

  /** Windows that nothing disturbs tile time: two of them are the same or do not meet. */
  lemma WindowsTile(opt: Options, t: int64, v: int64)
    requires opt.duration > 0 && Undisturbed(opt, t) && Undisturbed(opt, v)
    ensures In(v, TheWindow(opt, t)) <==> TheWindow(opt, v) == TheWindow(opt, t)
    ensures TheWindow(opt, v) == TheWindow(opt, t) || TheWindow(opt, v).end <= TheWindow(opt, t).start
      || TheWindow(opt, t).end <= TheWindow(opt, v).start
  {
    hide Undisturbed, TheWindow;
    WindowIsRegular(opt, t);
    WindowIsRegular(opt, v);
    SameOrApart(TheWindow(opt, t).start - opt.offset, TheWindow(opt, v).start - opt.offset, opt.duration);
  }

  lemma SameOrApart(x: int, y: int, d: nat)
    requires d > 0 && x % d == 0 && y % d == 0
    ensures x == y || x + d <= y || y + d <= x
  {
    assert x == d * (x / d) && y == d * (y / d);
    Ordered(d, x / d, y / d);
    Ordered(d, y / d, x / d);
  }

  lemma Ordered(d: nat, k: int, l: int)
    ensures k < l ==> d * (k + 1) == d * k + d <= d * l
    ensures k < l && d > 0 ==> d * k < d * l
  {
    if k < l {
      assert d * l == d * (k + 1) + d * (l - k - 1);
      assert d * (k + 1) == d * k + d;
      MultipleIsLarge(d, l - k);
    }
  }

  /** Near the ends of the integers a window may end before it starts, or contain its time by wrapping twice. */
  lemma WindowsAtTheEnds()
    ensures var late := Options(0, 0, 100, 50);
      TheWindow(late, MAX_TIME).end < TheWindow(late, MAX_TIME).start && !In(MAX_TIME, TheWindow(late, MAX_TIME))
    ensures var early := Options(0, 0, 100, 10);
      !Fits(MIN_TIME - 10) && In(MIN_TIME, TheWindow(early, MIN_TIME))
  {
    hide Wrap;
    WrapNear(MAX_TIME, -50);
    WrapNear(MAX_TIME, 44);
    assert (MAX_TIME - 50) % 100 == 56;
    WrapNear(MAX_TIME, -56);
    WrapNear(MIN_TIME, -10);
    assert (MAX_INT64 - 7) % 100 == 0;
    WrapNear(MIN_TIME, 0);
    WrapNear(MIN_TIME, 6);
  }

  // ---- windows by number ----------------------------------------------------------------------------------

  /** Number of the window of a shifted time; what lies before the least time counts as that. */
  function Number(d: nat, u: int): int
    requires d > 0
  {
    Max(u / d, MIN_TIME / d)
  }

  /** Where the k-th window starts, before the offset is added again: no earlier than the least time. */
  function Base(d: nat, k: int): int { Max(d * k, MIN_TIME) }

  function StartOf(opt: Options, k: int): int64 { Wrap(opt.offset + Base(opt.duration, k)) }

  lemma Within(d: nat, u: int)
    requires d > 0
    ensures d * (u / d) <= u < d * (u / d) + d && u == d * (u / d) + u % d
  {
  }

  lemma QuotientGrows(d: nat, u: int, v: int)
    requires d > 0 && u <= v
    ensures u / d <= v / d
  {
    Within(d, u);
    Within(d, v);
    Ordered(d, v / d, u / d);
  }

  /** The number of a time, and the number of the least time. */
  lemma NumberIs(d: nat, u: int)
    requires d > 0
    ensures var k, q := Number(d, u), MIN_TIME / d;
      && q <= k && d * q <= MIN_TIME < d * q + d
      && (u >= MIN_TIME ==> k == u / d && d * k <= u < d * k + d)
      && (u < MIN_TIME ==> k == q)
  {
    Within(d, u);
    Within(d, MIN_TIME);
    if u >= MIN_TIME { QuotientGrows(d, MIN_TIME, u); } else { QuotientGrows(d, u, MIN_TIME); }
  }

  lemma NumberGrows(d: nat, u: int, v: int)
    requires d > 0 && u <= v
    ensures Number(d, u) <= Number(d, v)
  {
    QuotientGrows(d, u, v);
  }

  lemma BaseOf(d: nat, u: int)
    requires d > 0
    ensures Base(d, Number(d, u)) == Max(u - u % d, MIN_TIME)
  {
    hide Number;
    NumberIs(d, u);
    Within(d, u);
    if u < MIN_TIME { assert u - u % d <= u; }
  }

  /** Windows differ in their bases, and the bases lie among the integers. */
  lemma BaseGrows(d: nat, k: int, l: int)
    requires d > 0 && MIN_TIME / d <= k < l
    ensures MIN_TIME <= Base(d, k) < Base(d, l) == d * l
  {
    Within(d, MIN_TIME);
    Ordered(d, MIN_TIME / d, l);
    Ordered(d, k, l);
  }

  lemma BaseFits(d: nat, k: int)
    requires d > 0 && k <= MAX_INT64 / d
    ensures MIN_TIME <= Base(d, k) <= MAX_INT64
  {
    var z := MAX_INT64 / d;
    assert d * z <= MAX_INT64 by { Within(d, MAX_INT64); }
    assert d * k <= d * z by { Ordered(d, k, z); }
  }

  lemma NumberFits(d: nat, u: int64)
    requires d > 0
    ensures MIN_TIME / d <= Number(d, u) <= MAX_INT64 / d == Number(d, MAX_INT64)
  {
    hide Number;
    NumberIs(d, u);
    NumberIs(d, MAX_INT64);
    NumberGrows(d, u, MAX_INT64);
  }

  /** The window of a time starts where its number says. */
  lemma NumberedStart(opt: Options, t: int64)
    requires opt.duration > 0
    ensures TheWindow(opt, t).start == StartOf(opt, Number(opt.duration, Shifted(opt, t)))
  {
    hide Wrap, Number, Base;
    BaseOf(opt.duration, Shifted(opt, t));
    Unshifted(opt, t, -Back(opt, t));
    assert Shifted(opt, t) - Back(opt, t) == Base(opt.duration, Number(opt.duration, Shifted(opt, t)));
  }

  // ---- the bucket limit ---------------------------------------------------------------------------------

  /** buckets in Prepare, each operation in 64 bits. */
  method BucketCount(opt: Options) returns (n: int)
    requires opt.duration > 0
    ensures n == Buckets(opt)
  {
    hide Wrap, GoDiv, TheWindow;
    var first := WindowOf(opt, opt.start);
    var last := WindowOf(opt, Wrap(opt.end - 1));
    WrapAdd(last.start - first.start, opt.duration);
    n := GoDiv(Wrap(Wrap(last.start - first.start) + opt.duration), opt.duration);
  }

  function Buckets(opt: Options): int
    requires opt.duration > 0
  {
    GoDiv(Wrap(TheWindow(opt, Wrap(opt.end - 1)).start - TheWindow(opt, opt.start).start + opt.duration), opt.duration)
  }

  /** The windows that meet [start, end - 1], by their starts. */
  ghost function Met(opt: Options): set<int>
    requires opt.duration > 0
  {
    set t: int64 | opt.start <= t <= opt.end - 1 :: TheWindow(opt, t).start
  }

  // The times of a range, less the offset, are an interval of integers, or pass from the greatest integer to the least.

  function First(opt: Options): int64 { Shifted(opt, opt.start) }

  function Last(opt: Options): int64 { Shifted(opt, Wrap(opt.end - 1)) }

  predicate Turns(opt: Options) { Last(opt) < First(opt) }

  predicate Between(opt: Options, u: int64)
  {
    if Turns(opt) then u <= Last(opt) || First(opt) <= u else First(opt) <= u <= Last(opt)
  }

  /** The shifted time is as far from the shifted start as the time is from the start, but for turning. */
  lemma ShiftedFrom(opt: Options, t: int64)
    requires opt.start <= t
    ensures var far := First(opt) + t - opt.start;
      Shifted(opt, t) == if far <= MAX_INT64 then far else far - TWO_64
  {
    hide Wrap;
    var far := First(opt) + t - opt.start;
    WrapAdd(opt.start - opt.offset, t - opt.start);
    assert Wrap(far) == Shifted(opt, t);
    WrapNear(First(opt), t - opt.start);
  }

  lemma InRange(opt: Options, t: int64)
    requires opt.start <= t <= opt.end - 1
    ensures Between(opt, Shifted(opt, t))
  {
    hide Wrap, Shifted;
    WrapBy(opt.end - 1, 0);
    ShiftedFrom(opt, t);
    ShiftedFrom(opt, opt.end - 1);
  }

  lemma TimeOf(opt: Options, u: int64) returns (t: int64)
    requires opt.start < opt.end && Between(opt, u)
    ensures opt.start <= t <= opt.end - 1 && Shifted(opt, t) == u
  {
    hide Wrap, Shifted;
    WrapBy(opt.end - 1, 0);
    ShiftedFrom(opt, opt.end - 1);
    t := opt.start + (u - First(opt)) + if u < First(opt) then TWO_64 else 0;
    ShiftedFrom(opt, t);
  }

  /** The windows between two numbers, by their starts. */
  function Starts(opt: Options, k: int, l: int): set<int>
    decreases l - k
  {
    if k > l then {} else Starts(opt, k, l - 1) + {StartOf(opt, l)}
  }

  lemma StartsDiffer(opt: Options, k: int, l: int)
    requires opt.duration > 0 && MIN_TIME / opt.duration <= k < l <= MAX_INT64 / opt.duration
    ensures StartOf(opt, k) != StartOf(opt, l)
  {
    hide Wrap, Base;
    var x, y := opt.offset + Base(opt.duration, k), opt.offset + Base(opt.duration, l);
    BaseGrows(opt.duration, k, l);
    BaseFits(opt.duration, l);
    WrapNear(opt.offset, Base(opt.duration, k));
    WrapNear(opt.offset, Base(opt.duration, l));
  }

  lemma {:induction false} StartsAre(opt: Options, k: int, l: int, s: int)
    ensures s in Starts(opt, k, l) <==> exists m :: k <= m <= l && s == StartOf(opt, m)
    decreases l - k
  {
    hide StartOf;
    if k <= l {
      StartsAre(opt, k, l - 1, s);
      assert s in Starts(opt, k, l) <==> s in Starts(opt, k, l - 1) || s == StartOf(opt, l);
    }
  }

  lemma {:induction false} StartsCount(opt: Options, k: int, l: int)
    requires opt.duration > 0 && MIN_TIME / opt.duration <= k <= l + 1 && l <= MAX_INT64 / opt.duration
    ensures |Starts(opt, k, l)| == l - k + 1
    decreases l - k
  {
    hide StartOf;
    if k <= l {
      StartsCount(opt, k, l - 1);
      StartsAre(opt, k, l - 1, StartOf(opt, l));
      forall m | k <= m <= l - 1 ensures StartOf(opt, m) != StartOf(opt, l) { StartsDiffer(opt, m, l); }
    }
  }

  lemma MultipleBetween(d: nat, lo: int64, hi: int64, m: int)
    requires d > 0 && Number(d, lo) < m <= Number(d, hi)
    ensures lo < d * m <= hi && MIN_TIME <= d * m
  {
    hide Number;
    NumberIs(d, lo);
    NumberIs(d, hi);
    var a, b, q := Number(d, lo), Number(d, hi), MIN_TIME / d;
    Ordered(d, a, m);
    Ordered(d, m, b);
    Ordered(d, q, m);
  }

  lemma NumberOfMultiple(d: nat, m: int)
    requires d > 0 && MIN_TIME <= d * m
    ensures Number(d, d * m) == m
  {
    hide Number;
    NumberIs(d, d * m);
    ModUnique(d * m, d, m, 0);
  }

  /** A window between those of two integers is the window of an integer between them. */
  lemma NumberReached(d: nat, lo: int64, hi: int64, m: int) returns (u: int64)
    requires d > 0 && lo <= hi && Number(d, lo) <= m <= Number(d, hi)
    ensures lo <= u <= hi && Number(d, u) == m
  {
    hide Number;
    if m == Number(d, lo) {
      u := lo;
    } else {
      MultipleBetween(d, lo, hi, m);
      NumberOfMultiple(d, m);
      u := d * m;
    }
  }

  /** The numbers of the first and the last window, and of all windows there are. */
  function FirstNumber(opt: Options): int
    requires opt.duration > 0
  {
    Number(opt.duration, First(opt))
  }

  function LastNumber(opt: Options): int
    requires opt.duration > 0
  {
    Number(opt.duration, Last(opt))
  }

  function All(d: nat): int
    requires d > 0
  {
    MAX_INT64 / d - MIN_TIME / d + 1
  }

  /** The window number m is met: it lies between the first and the last, or outside them where the range turns. */
  predicate MetNumber(opt: Options, m: int)
    requires opt.duration > 0
  {
    && MIN_TIME / opt.duration <= m <= MAX_INT64 / opt.duration
    && if Turns(opt) then m <= LastNumber(opt) || FirstNumber(opt) <= m else FirstNumber(opt) <= m <= LastNumber(opt)
  }

  lemma NumberIsMet(opt: Options, u: int64)
    requires opt.duration > 0 && Between(opt, u)
    ensures MetNumber(opt, Number(opt.duration, u))
  {
    hide Number, Shifted, Wrap;
    var d := opt.duration;
    NumberFits(d, u);
    if u <= Last(opt) { NumberGrows(d, u, Last(opt)); }
    if First(opt) <= u { NumberGrows(d, First(opt), u); }
  }

  lemma MetIsNumber(opt: Options, m: int) returns (u: int64)
    requires opt.duration > 0 && MetNumber(opt, m)
    ensures Between(opt, u) && Number(opt.duration, u) == m
  {
    hide Number, Shifted, Wrap;
    var d := opt.duration;
    NumberFits(d, MAX_INT64);
    if !Turns(opt) {
      u := NumberReached(d, First(opt), Last(opt), m);
    } else if m <= LastNumber(opt) {
      NumberIs(d, MIN_INT64);
      u := NumberReached(d, MIN_INT64, Last(opt), m);
    } else {
      u := NumberReached(d, First(opt), MAX_INT64, m);
    }
  }

  lemma MetByNumber(opt: Options, s: int)
    requires opt.duration > 0 && opt.start < opt.end
    ensures s in Met(opt) <==> exists m :: MetNumber(opt, m) && s == StartOf(opt, m)
  {
    hide Number, Shifted, Wrap, TheWindow, StartOf, MetNumber, Between;
    if s in Met(opt) {
      var t: int64 :| opt.start <= t <= opt.end - 1 && s == TheWindow(opt, t).start;
      NumberedStart(opt, t);
      InRange(opt, t);
      NumberIsMet(opt, Shifted(opt, t));
    }
    if m :| MetNumber(opt, m) && s == StartOf(opt, m) {
      var u := MetIsNumber(opt, m);
      var t := TimeOf(opt, u);
      NumberedStart(opt, t);
    }
  }

  /** How many windows the range meets. */
  function Windows(opt: Options): int
    requires opt.duration > 0
  {
    if !Turns(opt) then LastNumber(opt) - FirstNumber(opt) + 1
    else if LastNumber(opt) < FirstNumber(opt) then All(opt.duration) - (FirstNumber(opt) - LastNumber(opt)) + 1
    else All(opt.duration)
  }

  lemma MetStraight(opt: Options)
    requires opt.duration > 0 && opt.start < opt.end && !Turns(opt)
    ensures Met(opt) == Starts(opt, FirstNumber(opt), LastNumber(opt))
  {
    hide Met, Number, Shifted, Wrap, StartOf;
    var d := opt.duration;
    NumberFits(d, First(opt));
    NumberFits(d, Last(opt));
    forall s ensures s in Met(opt) <==> s in Starts(opt, FirstNumber(opt), LastNumber(opt)) {
      MetByNumber(opt, s);
      StartsAre(opt, FirstNumber(opt), LastNumber(opt), s);
    }
  }

  lemma MetTurning(opt: Options)
    requires opt.duration > 0 && opt.start < opt.end && Turns(opt)
    ensures var q, z := MIN_TIME / opt.duration, MAX_INT64 / opt.duration;
      && (LastNumber(opt) < FirstNumber(opt) ==>
          Met(opt) == Starts(opt, q, LastNumber(opt)) + Starts(opt, FirstNumber(opt), z))
      && (LastNumber(opt) >= FirstNumber(opt) ==> Met(opt) == Starts(opt, q, z))
  {
    hide Met, Number, Shifted, Wrap, StartOf;
    var d := opt.duration;
    var q, z := MIN_TIME / d, MAX_INT64 / d;
    NumberFits(d, First(opt));
    NumberFits(d, Last(opt));
    forall s
      ensures s in Met(opt) <==> s in Starts(opt, q, LastNumber(opt)) || s in Starts(opt, FirstNumber(opt), z)
      ensures LastNumber(opt) >= FirstNumber(opt) ==> (s in Met(opt) <==> s in Starts(opt, q, z))
    {
      MetByNumber(opt, s);
      StartsAre(opt, q, LastNumber(opt), s);
      StartsAre(opt, FirstNumber(opt), z, s);
      StartsAre(opt, q, z, s);
    }
  }

  lemma StartsApart(opt: Options, k: int, l: int)
    requires opt.duration > 0 && MIN_TIME / opt.duration <= k < l <= MAX_INT64 / opt.duration
    ensures Starts(opt, MIN_TIME / opt.duration, k) !! Starts(opt, l, MAX_INT64 / opt.duration)
  {
    hide StartOf;
    var q, z := MIN_TIME / opt.duration, MAX_INT64 / opt.duration;
    forall s | s in Starts(opt, q, k)
      ensures s !in Starts(opt, l, z)
    {
      StartsAre(opt, q, k, s);
      StartsAre(opt, l, z, s);
      forall m, m' | q <= m <= k && l <= m' <= z ensures StartOf(opt, m) != StartOf(opt, m') { StartsDiffer(opt, m, m'); }
    }
  }

  /** The windows of a range that is not empty. */
  lemma MetCount(opt: Options)
    requires opt.duration > 0 && opt.start < opt.end
    ensures |Met(opt)| == Windows(opt)
  {
    hide Met, Number, Shifted, Wrap, StartOf, Starts;
    var d := opt.duration;
    var q, z, k, l := MIN_TIME / d, MAX_INT64 / d, FirstNumber(opt), LastNumber(opt);
    NumberFits(d, First(opt));
    NumberFits(d, Last(opt));
    if !Turns(opt) {
      NumberGrows(d, First(opt), Last(opt));
      MetStraight(opt);
      StartsCount(opt, k, l);
    } else {
      MetTurning(opt);
      if l < k {
        StartsApart(opt, l, k);
        StartsCount(opt, q, l);
        StartsCount(opt, k, z);
      } else {
        StartsCount(opt, q, z);
      }
    }
  }

  // ---- the formula against the count ---------------------------------------------------------------------

  /** From the start of the first window to where the last would end, uncut. */
  function Stretch(opt: Options): int
    requires opt.duration > 0
  {
    Base(opt.duration, LastNumber(opt)) - Base(opt.duration, FirstNumber(opt)) + opt.duration
  }

  /** The k-th window is cut off at the least time. */
  predicate CutOff(d: nat, k: int) { d * k < MIN_TIME }

  lemma BucketsByStretch(opt: Options)
    requires opt.duration > 0
    ensures Buckets(opt) == GoDiv(Wrap(Stretch(opt)), opt.duration)
    ensures -TWO_64 + opt.duration < Stretch(opt) < TWO_64 + opt.duration
  {
    hide Wrap, GoDiv, TheWindow, Number, Base, Shifted;
    var d := opt.duration;
    NumberFits(d, First(opt));
    NumberFits(d, Last(opt));
    BaseFits(d, FirstNumber(opt));
    BaseFits(d, LastNumber(opt));
    NumberedStart(opt, opt.start);
    NumberedStart(opt, Wrap(opt.end - 1));
    var x, y := opt.offset + Base(d, LastNumber(opt)), opt.offset + Base(d, FirstNumber(opt));
    WrapDifference(x, y, d);
  }

  lemma WrapDifference(x: int, y: int, d: int)
    ensures Wrap(Wrap(x) - Wrap(y) + d) == Wrap(x - y + d)
  {
    var p, q := (x - MIN_INT64) / TWO_64, (y - MIN_INT64) / TWO_64;
    assert Wrap(x) == x - TWO_64 * p && Wrap(y) == y - TWO_64 * q;
    WrapShift(x - y + d, q - p);
  }

  lemma Spread(d: int, k: int, l: int)
    ensures d * (l - k) == d * l - d * k
  {
  }

  /** The stretch counts the windows; one is short if the earlier window is cut off. */
  lemma StretchOf(opt: Options)
    requires opt.duration > 0
    ensures var k, l, d, c := FirstNumber(opt), LastNumber(opt), opt.duration, Base(opt.duration, LastNumber(opt)) - opt.duration * LastNumber(opt);
      && (k == l ==> Stretch(opt) == d)
      && (k < l && !CutOff(d, k) ==> Stretch(opt) == d * (l - k) + d)
      && (k < l && CutOff(d, k) ==> d * (l - k) < Stretch(opt) < d * (l - k) + d)
      && (k > l ==> Stretch(opt) == c + d - d * (k - l) && 0 <= c < d && (c > 0 <==> CutOff(d, l)))
  {
    hide Number, Shifted;
    var k, l, d := FirstNumber(opt), LastNumber(opt), opt.duration;
    NumberIs(d, First(opt));
    NumberIs(d, Last(opt));
    Spread(d, k, l);
    Spread(d, l, k);
    if k < l { BaseGrows(d, k, l); Ordered(d, MIN_TIME / d, k); }
    if l < k { BaseGrows(d, l, k); Ordered(d, MIN_TIME / d, l); }
  }

  lemma QuotientOf(d: nat, n: int)
    requires d > 0
    ensures GoDiv(d * n, d) == n
  {
    if n >= 0 {
      assert d * n >= 0;
      ModUnique(d * n, d, n, 0);
    } else {
      assert d * -n > 0 && -(d * n) == d * -n;
      ModUnique(d * -n, d, -n, 0);
    }
  }

  lemma QuotientBelow(x: int, d: nat, n: nat)
    requires d > 0 && x < d * n
    ensures GoDiv(x, d) < n || (n == 0 && GoDiv(x, d) == 0)
  {
    if x >= 0 {
      assert x == d * (x / d) + x % d;
      Ordered(d, n, x / d);
      assert n == x / d ==> d * n <= x;
    } else {
      assert (-x) / d >= 0;
    }
  }

  lemma QuotientBetween(x: int, d: nat, q: nat)
    requires d > 0 && d * q <= x < d * (q + 1)
    ensures GoDiv(x, d) == q
  {
    assert d * (q + 1) == d * q + d;
    ModUnique(x, d, q, x - d * q);
  }

  lemma QuotientIsZero(x: int, d: nat)
    requires d > 0
    ensures GoDiv(x, d) == 0 <==> 0 - d < x < d
  {
    var y: nat := if x >= 0 then x else -x;
    assert y == d * (y / d) + y % d;
    MultipleIsLarge(d, y / d);
  }

  /** The bucket count against the number of windows the range meets.  For a range that is not empty and does not turn,
      they agree exactly when the stretch fits 64 bits and the first of several windows is not cut off; otherwise the
      count is too small.  For a range that turns, they agree exactly when the stretch wraps and the remainder that
      wrapping adds makes up for the windows at both ends of time.  An empty range is counted as none exactly when its
      ends lie in neighbouring windows, or one further apart if the earlier is cut off, or almost all of time apart. */
  lemma BucketsCountWindows(opt: Options)
    requires opt.duration > 0
    ensures |Met(opt)| == if opt.start < opt.end then Windows(opt) else 0
    ensures opt.start < opt.end && !Turns(opt) ==> Buckets(opt) <= |Met(opt)| && (Buckets(opt) == |Met(opt)| <==>
      Stretch(opt) <= MAX_INT64 && (FirstNumber(opt) == LastNumber(opt) || !CutOff(opt.duration, FirstNumber(opt))))
    ensures opt.start < opt.end && Turns(opt) ==> (Buckets(opt) == |Met(opt)| <==>
      Stretch(opt) < MIN_INT64 && (TWO_64 + CutBy(opt.duration, LastNumber(opt))) / opt.duration == All(opt.duration))
    ensures opt.start >= opt.end ==> (Buckets(opt) == 0 <==>
      || LastNumber(opt) + 1 == FirstNumber(opt)
      || (LastNumber(opt) + 2 == FirstNumber(opt) && CutOff(opt.duration, LastNumber(opt)))
      || Stretch(opt) > TWO_64 - opt.duration)
  {
    hide Met, Buckets, Windows, GoDiv, Wrap, Number, Stretch, CutOff, CutBy, All, Shifted;
    BucketsByStretch(opt);
    if opt.start >= opt.end {
      NothingMet(opt);
      NoBuckets(opt);
    } else {
      MetCount(opt);
      if Turns(opt) { TurningBuckets(opt); } else { StraightBuckets(opt); }
    }
  }

  /** What the cut at the least time takes off a window. */
  function CutBy(d: nat, k: int): int { Base(d, k) - d * k }

  lemma StraightBuckets(opt: Options)
    requires opt.duration > 0 && !Turns(opt)
    requires -TWO_64 + opt.duration < Stretch(opt) < TWO_64 + opt.duration
    ensures var n, b := Windows(opt), GoDiv(Wrap(Stretch(opt)), opt.duration);
      && b <= n
      && (b == n <==>
          Stretch(opt) <= MAX_INT64 && (FirstNumber(opt) == LastNumber(opt) || !CutOff(opt.duration, FirstNumber(opt))))
  {
    hide Wrap, GoDiv, Number, Stretch, CutOff, Shifted;
    var d, n, x := opt.duration, Windows(opt), Stretch(opt);
    NumberGrows(d, First(opt), Last(opt));
    StretchOf(opt);
    assert d * n == d * (n - 1) + d;
    MultipleIsLarge(d, n);
    MultipleIsLarge(d, n - 1);
    if x > MAX_INT64 {
      QuotientBelow(Wrap(x), d, n);
    } else {
      WrapBy(x, 0);
      QuotientOf(d, n);
      if x < d * n { QuotientBelow(x, d, n); }
    }
  }

  lemma TurningBuckets(opt: Options)
    requires opt.duration > 0 && Turns(opt)
    requires -TWO_64 + opt.duration < Stretch(opt) < TWO_64 + opt.duration
    ensures GoDiv(Wrap(Stretch(opt)), opt.duration) == Windows(opt) <==>
      Stretch(opt) < MIN_INT64 && (TWO_64 + CutBy(opt.duration, LastNumber(opt))) / opt.duration == All(opt.duration)
  {
    hide Wrap, GoDiv, Number, Stretch, Shifted, All, CutOff, Base;
    var d, x, k, l := opt.duration, Stretch(opt), FirstNumber(opt), LastNumber(opt);
    NumberGrows(d, Last(opt), First(opt));
    NumberFits(d, First(opt));
    NumberFits(d, Last(opt));
    SeveralWindows(d);
    StretchOf(opt);
    if k > l {
      TurnedBack(d, x, CutBy(d, l), k - l, All(d));
    } else {
      QuotientOf(d, 1);
      WrapBy(d, 0);
    }
  }

  /** A stretch back over n windows: a positive count only where it wraps. */
  lemma TurnedBack(d: Duration, x: int, c: int, n: nat, all: int)
    requires 0 <= c < d && 1 <= n < all && x == c + d - d * n && -TWO_64 + d < x
    ensures GoDiv(Wrap(x), d) == all - n + 1 <==> x < MIN_INT64 && (TWO_64 + c) / d == all
  {
    hide Wrap, GoDiv;
    MultipleIsLarge(d, n);
    if x >= MIN_INT64 {
      WrapBy(x, 0);
      QuotientBelow(x, d, 1);
    } else {
      WrapBy(x, 1);
      assert d * (n - 1) == d * n - d;
      QuotientShifted(TWO_64 + c, d, n - 1);
    }
  }

  lemma SeveralWindows(d: Duration)
    requires d > 0
    ensures All(d) == MAX_INT64 / d - MIN_TIME / d + 1 && MAX_INT64 / d >= 1 && MIN_TIME / d <= -1
  {
    Within(d, MAX_INT64);
    Within(d, MIN_TIME);
    MultipleIsLarge(d, MAX_INT64 / d);
    if MIN_TIME / d >= 0 { Ordered(d, -1, MIN_TIME / d); }
  }

  lemma QuotientShifted(x: int, d: nat, k: int)
    requires d > 0 && x - d * k >= 0
    ensures GoDiv(x - d * k, d) == x / d - k
  {
    Within(d, x);
    Spread(d, k, x / d);
    ModUnique(x - d * k, d, x / d - k, x % d);
  }

  lemma NoBuckets(opt: Options)
    requires opt.duration > 0
    requires -TWO_64 + opt.duration < Stretch(opt) < TWO_64 + opt.duration
    ensures GoDiv(Wrap(Stretch(opt)), opt.duration) == 0 <==>
      || LastNumber(opt) + 1 == FirstNumber(opt)
      || (LastNumber(opt) + 2 == FirstNumber(opt) && CutOff(opt.duration, LastNumber(opt)))
      || Stretch(opt) > TWO_64 - opt.duration
  {
    hide Wrap, GoDiv, Number, Stretch, CutOff, Shifted, Base;
    var d, x, k, l := opt.duration, Stretch(opt), FirstNumber(opt), LastNumber(opt);
    StretchOf(opt);
    if k > l {
      CountedAsNone(d, x, CutBy(d, l), k - l);
    } else {
      MultipleIsLarge(d, l - k);
      CountedFromOne(d, x);
    }
  }

  lemma CountedAsNone(d: Duration, x: int, c: int, n: nat)
    requires 0 <= c < d && 1 <= n && x == c + d - d * n && -TWO_64 + d < x
    ensures GoDiv(Wrap(x), d) == 0 <==> n == 1 || (n == 2 && c > 0)
    ensures x <= TWO_64 - d
  {
    hide Wrap, GoDiv;
    assert d * n == d + d * (n - 1) && d * (n - 1) == if n == 1 then 0 else d + d * (n - 2);
    MultipleIsLarge(d, n - 2);
    QuotientIsZero(Wrap(x), d);
    WrapBy(x, if x < MIN_INT64 then 1 else 0);
  }

  lemma CountedFromOne(d: Duration, x: int)
    requires 0 < d <= x < TWO_64 + d
    ensures GoDiv(Wrap(x), d) == 0 <==> x > TWO_64 - d
  {
    hide Wrap, GoDiv;
    QuotientIsZero(Wrap(x), d);
    if x > MAX_INT64 { WrapNear(MAX_INT64, x - MAX_INT64); } else { WrapBy(x, 0); }
  }

  lemma NothingMet(opt: Options)
    requires opt.duration > 0 && opt.end <= opt.start
    ensures Met(opt) == {}
  {
    hide TheWindow;
  }

  /** A range of several windows that begins in one cut off at the least time is counted as one window less. */
  lemma CutRangeCountsOneLess(opt: Options)
    requires opt.duration > 0 && opt.start < opt.end && !Turns(opt) && Stretch(opt) <= MAX_INT64
    requires FirstNumber(opt) < LastNumber(opt) && CutOff(opt.duration, FirstNumber(opt))
    ensures Buckets(opt) == |Met(opt)| - 1
  {
    hide Wrap, GoDiv, Buckets, Met, Number, Stretch, CutOff, Shifted;
    var d, n, x := opt.duration, LastNumber(opt) - FirstNumber(opt), Stretch(opt);
    BucketsByStretch(opt);
    StretchOf(opt);
    MetCount(opt);
    MultipleIsLarge(d, n);
    WrapBy(x, 0);
    assert d * (n + 1) == d * n + d;
    QuotientBetween(x, d, n);
  }

  /** An empty range inside one window, such as [5, 4] with windows of 10, is counted as one bucket. */
  lemma EmptyRangeCountsOne(opt: Options)
    requires opt.duration > 0 && opt.end <= opt.start && FirstNumber(opt) == LastNumber(opt)
    ensures Buckets(opt) == 1 && Met(opt) == {}
  {
    hide Wrap, GoDiv, Buckets, Met, Number, Stretch, Shifted;
    BucketsByStretch(opt);
    StretchOf(opt);
    QuotientOf(opt.duration, 1);
    WrapBy(opt.duration, 0);
    NothingMet(opt);
  }

  /** Hours over five centuries: more than four million windows, and a negative count. */
  lemma LongRangeCountsNegative()
    ensures var opt := Options(-8_000_000_000_000_000_000, 8_000_000_000_000_000_000, 3_600_000_000_000, 0);
      |Met(opt)| == 4_444_446 && Buckets(opt) == -679_649
  {
    hide Wrap, GoDiv, Buckets, Met;
    var opt := Options(-8_000_000_000_000_000_000, 8_000_000_000_000_000_000, 3_600_000_000_000, 0);
    WrapBy(-8_000_000_000_000_000_000, 0);
    WrapBy(7_999_999_999_999_999_999, 0);
    ModUnique(-8_000_000_000_000_000_000, 3_600_000_000_000, -2_222_223, 2_800_000_000_000);
    ModUnique(7_999_999_999_999_999_999, 3_600_000_000_000, 2_222_222, 799_999_999_999);
    assert MIN_TIME / 3_600_000_000_000 < -2_222_223;
    MetCount(opt);
    BucketsByStretch(opt);
    assert Stretch(opt) == 3_600_000_000_000 * 4_444_446;
    WrapBy(3_600_000_000_000 * 4_444_446, -1);
    NegativeQuotient();
  }

  lemma NegativeQuotient()
    ensures GoDiv(3_600_000_000_000 * 4_444_446 - TWO_64, 3_600_000_000_000) == -679_649
  {
    ModUnique(TWO_64 - 3_600_000_000_000 * 4_444_446, 3_600_000_000_000, 679_649, 2_073_709_551_616);
  }
}
