/** Byte strings and the encodings the series file uses: big-endian integers, the base-128
    varints of the Protocol Buffers encoding, and byte-wise comparison. */
module Bytes {
  import opened Arithmetic

  type byte = x: int | 0 <= x < 256

  type Text = seq<byte>

  // ---- big-endian integers ---------------------------------------------------------------------

  /** The low n bytes of x, most significant first (binary.BigEndian.PutUint16 and PutUint64). */
  function BigEndian(n: nat, x: nat): (s: Text)
    ensures |s| == n
  {
    if n == 0 then [] else BigEndian(n - 1, x / 256) + [x % 256]
  }

  function FromBigEndian(s: Text): (x: nat)
  {
    if s == [] then 0 else FromBigEndian(s[..|s| - 1]) * 256 + s[|s| - 1]
  }

  function Zeros(n: nat): (s: Text)
    ensures |s| == n && forall i :: 0 <= i < n ==> s[i] == 0
  {
    seq(n, _ => 0)
  }

  function Pow256(n: nat): (p: nat)
    ensures p > 0
  {
    if n == 0 then 1 else 256 * Pow256(n - 1)
  }

  /** What is read back is what was written, modulo the width of the field. */
  lemma {:induction false} BigEndianRoundTrip(n: nat, x: nat)
    ensures FromBigEndian(BigEndian(n, x)) == x % Pow256(n)
  {
    if n > 0 {
      var s := BigEndian(n, x);
      assert s[..n - 1] == BigEndian(n - 1, x / 256);
      BigEndianRoundTrip(n - 1, x / 256);
      ModByBytes(x, Pow256(n - 1));
    }
  }

  /** The i-th byte is the digit of weight 256^(n-1-i). */
  lemma {:induction false} BigEndianDigits(n: nat, x: nat, i: nat)
    requires i < n
    ensures BigEndian(n, x)[i] == x / Pow256(n - 1 - i) % 256
  {
    if i < n - 1 {
      BigEndianDigits(n - 1, x / 256, i);
      var p := Pow256(n - 2 - i);
      DivideBy256(x, p);
      assert Pow256(n - 1 - i) == 256 * p;
    } else {
      assert Pow256(0) == 1;
    }
  }

  lemma DivideBy256(x: nat, p: nat)
    requires p > 0
    ensures x / 256 / p == x / (256 * p)
  {
    var y := x / 256;
    var q, r := y / p, y % p;
    assert y == p * q + r;
    assert 256 * p * q == 256 * (p * q);
    ModUnique(x, 256 * p, q, 256 * r + x % 256);
  }

  lemma DivideBy128(x: nat, p: nat)
    requires p > 0
    ensures x / 128 / p == x / (128 * p)
  {
    var y := x / 128;
    var q, r := y / p, y % p;
    assert y == p * q + r;
    assert 128 * p * q == 128 * (p * q);
    ModUnique(x, 128 * p, q, 128 * r + x % 128);
  }

  lemma ModByBytes(x: nat, p: nat)
    requires p > 0
    ensures x % (256 * p) == (x / 256) % p * 256 + x % 256
  {
    var q, r := x / 256 / p, (x / 256) % p;
    assert x == 256 * (x / 256) + x % 256;
    assert x / 256 == p * q + r;
    assert x == 256 * p * q + (256 * r + x % 256);
    assert 256 * r + x % 256 < 256 * p;
    ModUnique(x, 256 * p, q, 256 * r + x % 256);
  }

  // ---- uvarints ------------------------------------------------------------------------------------

  /** binary.PutUvarint: seven bits a byte, least significant group first. */
  function PutUvarint(x: nat): (s: Text)
    ensures |s| >= 1
  {
    if x < 0x80 then [x] else [x % 0x80 + 0x80] + PutUvarint(x / 0x80)
  }

  /** The i-th byte is the digit of weight 128^i, with the high bit set exactly while more follow; the last is not zero
      unless it is the only one. */
  lemma {:induction false} UvarintDigits(x: nat, i: nat)
    requires i < |PutUvarint(x)|
    ensures var s := PutUvarint(x);
      && s[i] == x / Pow128(i) % 128 + (if i < |s| - 1 then 128 else 0)
      && (i == |s| - 1 && i > 0 ==> s[i] != 0)
    decreases x
  {
    hide Pow128;
    Power128(i);
    if x >= 0x80 && i > 0 {
      var y := x / 0x80;
      UvarintDigits(y, i - 1);
      assert y / Pow128(i - 1) == x / Pow128(i) by { DivideBy128(x, Pow128(i - 1)); }
      assert PutUvarint(x)[i] == PutUvarint(y)[i - 1] && |PutUvarint(x)| == |PutUvarint(y)| + 1;
    }
  }

  lemma Power128(i: nat)
    ensures if i == 0 then Pow128(i) == 1 else Pow128(i) == 128 * Pow128(i - 1)
  {
  }

  /** binaryutil.UvarintSize */
  function UvarintSize(x: nat): (n: nat)
    ensures n == |PutUvarint(x)|
  {
    if x < 0x80 then 1 else 1 + UvarintSize(x / 0x80)
  }

  /** Outcome of binary.Uvarint: a value and the number of bytes it took; n == 0 in the original when
      the buffer ends early; n < 0 when the value does not fit 64 bits. */
  datatype Varint = Short | Overflow | Value(x: nat, n: nat)

  /** `i` counts the bytes already read. */
  function UvarintFrom(s: Text, i: nat): (r: Varint)
    ensures r.Value? ==> 1 <= r.n <= |s|
    decreases |s|
  {
    if s == [] then Short
    else if s[0] < 0x80 then if i > 9 || (i == 9 && s[0] > 1) then Overflow else Value(s[0], 1)
    else match UvarintFrom(s[1..], i + 1)
      case Value(x, n) => Value(s[0] - 0x80 + 0x80 * x, n + 1)
      case failed => failed
  }

  function Uvarint(s: Text): (r: Varint)
    ensures r.Value? ==> 1 <= r.n <= |s|
  {
    UvarintFrom(s, 0)
  }

  function Pow128(n: nat): (p: nat)
    ensures p > 0
  {
    if n == 0 then 1 else 128 * Pow128(n - 1)
  }

  lemma LastDigit(x: nat, i: nat)
    requires i <= 9 && x * Pow128(i) < TWO_64
    ensures i == 9 ==> x <= 1
  {
    if i == 9 {
      assert Pow128(9) == 0x8000_0000_0000_0000 by { assert Pow128(4) == 0x1000_0000; assert Pow128(8) == 0x100_0000_0000_0000; }
    }
  }

  lemma NextDigit(x: nat, i: nat)
    ensures x / 0x80 * Pow128(i + 1) <= x * Pow128(i)
  {
    var y, p := x / 0x80, Pow128(i);
    assert Pow128(i + 1) == 0x80 * p;
    assert y * (0x80 * p) == (y * 0x80) * p;
    assert y * 0x80 <= x;
    Monotone(y * 0x80, x, p);
  }

  lemma {:induction false} UvarintFromRoundTrip(x: nat, rest: Text, i: nat)
    requires i <= 9 && x * Pow128(i) < TWO_64
    ensures UvarintFrom(PutUvarint(x) + rest, i) == Value(x, |PutUvarint(x)|)
    decreases x
  {
    hide Pow128;
    var s := PutUvarint(x) + rest;
    LastDigit(x, i);
    if x >= 0x80 {
      NextDigit(x, i);
      UvarintFromRoundTrip(x / 0x80, rest, i + 1);
      assert s[1..] == PutUvarint(x / 0x80) + rest;
    }
  }

  /** Decoding a varint in front of any bytes gives the value back and stops right after it. */
  lemma UvarintRoundTrip(x: nat, rest: Text)
    requires x < TWO_64
    ensures Uvarint(PutUvarint(x) + rest) == Value(x, |PutUvarint(x)|)
  {
    UvarintFromRoundTrip(x, rest, 0);
  }

  /** Bytes after a complete varint do not matter. */
  lemma {:induction false} UvarintFromExtends(s: Text, rest: Text, i: nat)
    requires UvarintFrom(s, i).Value?
    ensures UvarintFrom(s + rest, i) == UvarintFrom(s, i)
    decreases |s|
  {
    assert (s + rest)[1..] == s[1..] + rest;
    if s[0] >= 0x80 { UvarintFromExtends(s[1..], rest, i + 1); }
  }

  // ---- powers of two ------------------------------------------------------------------------------------

  function Pow2(n: nat): (p: nat)
    ensures p > 0
  {
    if n == 0 then 1 else 2 * Pow2(n - 1)
  }

  lemma {:induction false} Pow2Monotone(m: nat, n: nat)
    requires m <= n
    ensures Pow2(m) <= Pow2(n)
    ensures m < n ==> Pow2(m) < Pow2(n)
  {
    if m < n { Pow2Monotone(m, n - 1); }
  }

  // ---- comparison -------------------------------------------------------------------------------------

  /** bytes.Compare */
  function Compare(a: Text, b: Text): (c: int)
    ensures -1 <= c <= 1
  {
    if a == [] && b == [] then 0
    else if a == [] then -1
    else if b == [] then 1
    else if a[0] < b[0] then -1
    else if a[0] > b[0] then 1
    else Compare(a[1..], b[1..])
  }

  /** The texts agree before i; there, a has the smaller byte or has ended. */
  predicate LessAt(a: Text, b: Text, i: nat)
  {
    i <= |a| && i < |b| && a[..i] == b[..i] && (i == |a| || a[i] < b[i])
  }

  lemma {:induction false} LessIsCompared(a: Text, b: Text, i: nat)
    requires LessAt(a, b, i)
    ensures Compare(a, b) == -1 && Compare(b, a) == 1
  {
    if i > 0 {
      assert a[0] == a[..i][0] && b[0] == b[..i][0];
      assert a[1..][..i - 1] == a[..i][1..] && b[1..][..i - 1] == b[..i][1..];
      LessIsCompared(a[1..], b[1..], i - 1);
    }
  }

  /** The first difference decides; a text comes before what extends it. */
  lemma CompareDecides(a: Text, b: Text)
    ensures Compare(a, b) < 0 <==> exists i: nat :: LessAt(a, b, i)
    ensures Compare(a, b) > 0 <==> exists i: nat :: LessAt(b, a, i)
  {
    var i := FirstDifference(a, b);
    forall j: nat | LessAt(a, b, j) ensures Compare(a, b) == -1 { LessIsCompared(a, b, j); }
    forall j: nat | LessAt(b, a, j) ensures Compare(a, b) == 1 { LessIsCompared(b, a, j); }
  }

  lemma {:induction false} FirstDifference(a: Text, b: Text) returns (i: nat)
    ensures i <= |a| && i <= |b|
    ensures if LessAt(a, b, i) then Compare(a, b) == -1 else if LessAt(b, a, i) then Compare(a, b) == 1 else Compare(a, b) == 0
  {
    if a != [] && b != [] && a[0] == b[0] {
      i := FirstDifference(a[1..], b[1..]);
      assert a[..i + 1] == [a[0]] + a[1..][..i] && b[..i + 1] == [b[0]] + b[1..][..i];
      i := i + 1;
    } else {
      i := 0;
    }
  }

  lemma {:induction false} CompareEqual(a: Text, b: Text)
    ensures Compare(a, b) == 0 <==> a == b
  {
    if a != [] && b != [] && a[0] == b[0] {
      CompareEqual(a[1..], b[1..]);
      assert a == [a[0]] + a[1..] && b == [b[0]] + b[1..];
    }
  }

  lemma {:induction false} CompareAntisymmetric(a: Text, b: Text)
    ensures Compare(b, a) == -Compare(a, b)
  {
    if a != [] && b != [] && a[0] == b[0] {
      CompareAntisymmetric(a[1..], b[1..]);
    }
  }

  lemma {:induction false} CompareTransitive(a: Text, b: Text, c: Text)
    requires Compare(a, b) <= 0 && Compare(b, c) <= 0
    ensures Compare(a, c) <= 0
    ensures Compare(a, c) == 0 ==> Compare(a, b) == 0 && Compare(b, c) == 0
  {
    if a != [] && b != [] && c != [] && a[0] == b[0] == c[0] {
      CompareTransitive(a[1..], b[1..], c[1..]);
    }
  }

  // ---- text -----------------------------------------------------------------------------------------------

  /** The bytes of a text of ASCII characters. */
  function Ascii(s: string): Text
    requires forall i :: 0 <= i < |s| ==> s[i] as int < 128
  {
    seq(|s|, i requires 0 <= i < |s| => s[i] as int)
  }

  /** strconv.FormatInt in base 10. */
  function Decimal(t: int): Text
    decreases t < 0, if t < 0 then -t else t
  {
    if t < 0 then [45] + Decimal(-t)
    else if t < 10 then [48 + t as byte]
    else Decimal(t / 10) + [48 + (t % 10) as byte]
  }

  predicate IsDigit(c: byte) { '0' as int <= c <= '9' as int }

  /** The number a text of digits stands for. */
  function DigitsValue(s: Text): int
  {
    if s == [] then 0 else 10 * DigitsValue(s[..|s| - 1]) + (s[|s| - 1] - '0' as int)
  }

  /** Digits, with a minus sign for a negative number and no leading zero, that stand for the number. */
  predicate IsDecimal(s: Text, t: int)
  {
    var digits := if t < 0 then s[Min(1, |s|)..] else s;
    && (t < 0 ==> s != [] && s[0] == '-' as int)
    && digits != [] && (forall i :: 0 <= i < |digits| ==> IsDigit(digits[i]))
    && (|digits| > 1 ==> digits[0] != '0' as int)
    && DigitsValue(digits) == if t < 0 then -t else t
  }

  lemma {:induction false} DecimalDigits(t: nat)
    ensures IsDecimal(Decimal(t), t)
    ensures t > 0 ==> Decimal(t)[0] != '0' as int
  {
    if t >= 10 {
      DecimalDigits(t / 10);
      var s, front := Decimal(t), Decimal(t / 10);
      assert s[..|s| - 1] == front && IsDigit(s[|s| - 1]);
      assert forall i :: 0 <= i < |front| ==> s[i] == front[i];
    } else {
      var s := Decimal(t);
      assert s == [48 + t] && s[..0] == [];
      assert IsDigit(s[0]);
      assert DigitsValue(s) == 10 * DigitsValue([]) + t;
    }
  }

  lemma DecimalIs(t: int)
    ensures IsDecimal(Decimal(t), t)
  {
    if t < 0 {
      DecimalDigits(-t);
      assert Decimal(t)[1..] == Decimal(-t);
    } else {
      DecimalDigits(t);
    }
  }
}
