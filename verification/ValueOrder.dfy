/** What a comparison means on values: integers as integers, floats as real numbers, strings byte by byte, and dates by
    the seconds they stand for. */
module ValueOrder {
  import opened Common
  import opened KeyOrder
  import opened Rows
  import opened Conditions
  import opened WhereClause

  // ----- floats as real numbers -----

  function Pow2(n: nat): (p: nat)
    ensures p >= 1
  {
    if n == 0 then 1 else 2 * Pow2(n - 1)
  }

  /** The magnitude of an IEEE single-precision number, as a multiple of the smallest one, 2 to the power -149. */
  function Magnitude(exponent: nat, fraction: nat): nat {
    if exponent == 0 then fraction else (0x80_0000 + fraction) * Pow2(exponent - 1)
  }

  function Unsigned(bits: word32): nat {
    bits as int % 0x8000_0000
  }

  function Exponent(bits: word32): nat {
    Unsigned(bits) / 0x80_0000
  }

  function Fraction(bits: word32): nat {
    Unsigned(bits) % 0x80_0000
  }

  predicate Negative(bits: word32) {
    bits >= 0x8000_0000
  }

  /** An exponent of 255 means infinity, or NaN when there is a fraction. */
  predicate Infinite(bits: word32) {
    Exponent(bits) == 255
  }

  /** The number that a finite float stands for. */
  function FloatNumber(bits: word32): real {
    var m := Magnitude(Exponent(bits), Fraction(bits)) as real / Pow2(149) as real;
    if Negative(bits) then -m else m
  }

  /** The infinities lie beyond all numbers, and every number is between them. */
  ghost predicate FloatLess(a: word32, b: word32) {
    if Infinite(a) || Infinite(b) then
      a != b && ((Infinite(a) && Negative(a)) || (Infinite(b) && !Negative(b)))
    else FloatNumber(a) < FloatNumber(b)
  }

  ghost predicate FloatSame(a: word32, b: word32) {
    if Infinite(a) || Infinite(b) then a == b else FloatNumber(a) == FloatNumber(b)
  }

  // ----- the reference order -----

  /** At the first byte in which they differ, the first string has the smaller one, or has ended. */
  ghost predicate StringLess(a: Bytes, b: Bytes) {
    exists k: nat :: FirstLess(a, b, k)
  }

  ghost predicate FirstLess(a: Bytes, b: Bytes, k: nat) {
    k <= |a| && k < |b| && a[..k] == b[..k] && (k < |a| ==> a[k] < b[k])
  }

  /** The seconds of a date-time, day by day, with months of 30 days and years of 365. */
  function Seconds(fields: seq<int32>): int
    requires |fields| == DATETIME_FIELDS
  {
    var days := 365 * fields[2] as int + 30 * fields[1] as int + fields[0] as int;
    60 * (60 * (24 * days + fields[3] as int) + fields[4] as int) + fields[5] as int
  }

  /** x is the int that a sum wraps round to. */
  ghost predicate WrapsTo(sum: int, x: int) {
    -0x8000_0000 <= x < 0x8000_0000 && (sum - x) % 0x1_0000_0000 == 0
  }

  ghost predicate DateLess(a: seq<int32>, b: seq<int32>) {
    |a| == |b| == DATETIME_FIELDS && exists x, y :: WrapsTo(Seconds(a), x) && WrapsTo(Seconds(b), y) && x < y
  }

  ghost predicate Same(a: Value, b: Value) {
    if a.FloatValue? && b.FloatValue? then FloatSame(a.bits, b.bits) else a == b
  }

  ghost predicate Less(a: Value, b: Value) {
    match (a, b)
    case (IntValue(x), IntValue(y)) => x < y
    case (FloatValue(x), FloatValue(y)) => FloatLess(x, y)
    case (StringValue(x), StringValue(y)) => StringLess(x, y)
    case (DateTimeValue(x), DateTimeValue(y)) => x != y && DateLess(x, y)
    case _ => false
  }

  /** What an operator says of two values. */
  ghost predicate Meets(op: CompOp, a: Value, b: Value) {
    match op
    case EQ => Same(a, b)
    case NE => !Same(a, b)
    case LT => Less(a, b)
    case GT => !Same(a, b) && !Less(a, b)
    case LE => Same(a, b) || Less(a, b)
    case GE => !Less(a, b)
  }

  /** A string cut to a width; other values as they are. */
  function Clip(v: Value, width: nat): Value {
    if v.StringValue? && |v.s| > width then StringValue(v.s[..width]) else v
  }

  // ----- compare_keys on floats -----

  function MagnitudeOf(w: nat): nat {
    Magnitude(w / 0x80_0000, w % 0x80_0000)
  }

  lemma MagnitudeNext(w: nat)
    requires w < 0x7f80_0000
    ensures MagnitudeOf(w) < MagnitudeOf(w + 1)
  {
    var e, f := w / 0x80_0000, w % 0x80_0000;
    if f + 1 < 0x80_0000 {
      assert (w + 1) / 0x80_0000 == e && (w + 1) % 0x80_0000 == f + 1;
    } else {
      assert (w + 1) / 0x80_0000 == e + 1 && (w + 1) % 0x80_0000 == 0;
    }
  }

  /** A larger bit pattern without its sign stands for a larger magnitude. */
  lemma {:induction false} MagnitudeGrows(v: nat, w: nat)
    requires v < w <= 0x7f80_0000
    ensures MagnitudeOf(v) < MagnitudeOf(w)
    decreases w
  {
    hide MagnitudeOf;
    MagnitudeNext(w - 1);
    if v < w - 1 { MagnitudeGrows(v, w - 1); }
  }

  function Signed(bits: word32): int {
    var m: int := MagnitudeOf(Unsigned(bits));
    if Negative(bits) then -m else m
  }

  lemma MagnitudeZero(w: nat)
    requires w <= 0x7f80_0000
    ensures MagnitudeOf(0) == 0 && (w > 0 ==> MagnitudeOf(w) > 0)
  {
    if w > 0 { MagnitudeGrows(0, w); }
  }

  /** The rank orders floats like their magnitudes with signs. */
  lemma RankOrder(a: word32, b: word32, x: Bytes, y: Bytes)
    requires Word(x) == a as int && Word(y) == b as int && !IsNaN(x) && !IsNaN(y)
    ensures FloatRank(x) < FloatRank(y) <==> Signed(a) < Signed(b)
    ensures FloatRank(x) == FloatRank(y) <==> Signed(a) == Signed(b)
  {
    hide MagnitudeOf, Word;
    var v, w := Unsigned(a), Unsigned(b);
    MagnitudeZero(v);
    MagnitudeZero(w);
    if v < w { MagnitudeGrows(v, w); }
    if w < v { MagnitudeGrows(w, v); }
  }

  lemma DividePositive(a: int, b: int, d: nat)
    requires d > 0
    ensures a < b <==> a as real / d as real < b as real / d as real
    ensures a == b <==> a as real / d as real == b as real / d as real
  {
  }

  lemma NumberOf(bits: word32)
    ensures FloatNumber(bits) == Signed(bits) as real / Pow2(149) as real
  {
    hide Pow2, Magnitude;
    DivideNegated(MagnitudeOf(Unsigned(bits)), Pow2(149));
  }

  lemma DivideNegated(m: int, d: nat)
    requires d > 0
    ensures (-m) as real / d as real == -(m as real / d as real)
  {
  }

  lemma {:induction false} Pow2Sum(a: nat, b: nat)
    ensures Pow2(a + b) == Pow2(a) * Pow2(b)
  {
    if a > 0 { Pow2Sum(a - 1, b); }
  }

  lemma Pow2Values()
    ensures Pow2(23) == 0x80_0000
  {
    Pow2Sum(12, 11);
    Pow2Sum(8, 4);
    Pow2Sum(8, 3);
    Pow2Sum(4, 4);
  }

  /** A number with exponent e has 1 and the fraction before the binary point, times 2 to the power e - 127. */
  lemma FloatScale(bits: word32)
    requires 0x3f80_0000 <= bits < 0x7f80_0000
    ensures FloatNumber(bits) ==
      (0x80_0000 + Fraction(bits)) as real / 8388608.0 * Pow2(Exponent(bits) - 127) as real
  {
    hide Pow2;
    var e, m := Exponent(bits), 0x80_0000 + Fraction(bits);
    Pow2Values();
    Pow2Sum(126, e - 127);
    Pow2Sum(126, 23);
    ScaleDown(m, Pow2(e - 127), Pow2(126));
    assert FloatNumber(bits) == (m * Pow2(e - 1)) as real / Pow2(149) as real;
  }

  lemma ScaleDown(m: nat, p: nat, q: nat)
    requires q > 0
    ensures (m * (q * p)) as real / (q * 0x80_0000) as real == m as real / 8388608.0 * p as real
  {
    var x, y, z := m as real, p as real, q as real;
    assert (m * (q * p)) as real == x * (z * y);
    assert (q * 0x80_0000) as real == z * 8388608.0;
  }

  /** A NaN is what has the largest exponent and a fraction. */
  lemma NaNMeaning(a: word32, x: Bytes)
    requires Word(x) == a as int
    ensures IsNaN(x) <==> Exponent(a) == 255 && Fraction(a) != 0
  {
  }

  /** Beyond the finite floats there are just the two infinities. */
  lemma InfiniteSigned(a: word32, x: Bytes)
    requires Word(x) == a as int && !IsNaN(x)
    ensures Infinite(a) <==> Unsigned(a) == 0x7f80_0000
    ensures Unsigned(a) <= 0x7f80_0000
  {
  }

  /** compare_keys on floats is the order of the numbers they stand for. */
  lemma FloatMeaning(a: word32, b: word32, x: Bytes, y: Bytes)
    requires Word(x) == a as int && Word(y) == b as int && !IsNaN(x) && !IsNaN(y)
    ensures FloatRank(x) < FloatRank(y) <==> FloatLess(a, b)
    ensures FloatRank(x) == FloatRank(y) <==> FloatSame(a, b)
  {
    hide MagnitudeOf, Word, Pow2, FloatNumber;
    InfiniteSigned(a, x);
    InfiniteSigned(b, y);
    RankOrder(a, b, x, y);
    NumberOf(a);
    NumberOf(b);
    DividePositive(Signed(a), Signed(b), Pow2(149));
  }

  // ----- compare_keys on strings -----

  /** The byte of a string at a position; behind its end it is padded with NULs. */
  function CharAt(s: Bytes, k: nat): byte {
    if k < |s| then s[k] else 0
  }

  ghost predicate NoNul(s: Bytes) {
    forall k :: 0 <= k < |s| ==> s[k] != 0
  }

  /** Up to n the areas agree, or they differ first at a position that decides the comparison. */
  lemma {:induction false} FirstDifference(a: Bytes, b: Bytes, i: nat, n: nat) returns (k: nat)
    requires i <= n
    ensures i <= k <= n && forall j :: i <= j < k ==> ByteAt(a, j) == ByteAt(b, j)
    ensures k == n ==> MemCmp(a, b, i, n) == 0
    ensures k < n ==> ByteAt(a, k) != ByteAt(b, k) && MemCmp(a, b, i, n) == ByteAt(a, k) - ByteAt(b, k)
    decreases n - i
  {
    k := i;
    if i < n && ByteAt(a, i) == ByteAt(b, i) { k := FirstDifference(a, b, i + 1, n); }
  }

  /** The area holds the string padded to a width. */
  ghost predicate Holding(a: Bytes, s: Bytes, width: nat) {
    |s| <= width && NoNul(s) && forall k :: 0 <= k < width ==> ByteAt(a, k) == CharAt(s, k) as int
  }

  /** memcmp on padded strings is the order of the strings. */
  lemma {:induction false} StringMeaning(a: Bytes, b: Bytes, s: Bytes, t: Bytes, width: nat)
    requires Holding(a, s, width) && Holding(b, t, width)
    ensures MemCmp(a, b, 0, width) == 0 <==> s == t
    ensures MemCmp(a, b, 0, width) < 0 <==> StringLess(s, t)
  {
    var k := FirstDifference(a, b, 0, width);
    forall j | 0 <= j < k ensures CharAt(s, j) == CharAt(t, j) {
      assert ByteAt(a, j) == ByteAt(b, j);
    }
    if k == width {
      PaddedEqual(s, t, width);
      NotLess(s, s);
    } else {
      FirstDecides(s, t, k);
      FirstDecides(t, s, k);
    }
  }

  lemma PaddedEqual(s: Bytes, t: Bytes, width: nat)
    requires |s| <= width && |t| <= width && NoNul(s) && NoNul(t)
    requires forall j :: 0 <= j < width ==> CharAt(s, j) == CharAt(t, j)
    ensures s == t
  {
    var x, y := CharAt(s, |s|), CharAt(s, |t|);
    forall j | 0 <= j < |s| && j < |t| ensures s[j] == t[j] { assert CharAt(s, j) == CharAt(t, j); }
  }

  lemma NotLess(s: Bytes, t: Bytes)
    requires s == t
    ensures !StringLess(s, t)
  {
  }

  /** Strings that differ first at k are in the order of their bytes there. */
  lemma FirstDecides(s: Bytes, t: Bytes, k: nat)
    requires NoNul(s) && NoNul(t) && CharAt(s, k) != CharAt(t, k)
    requires forall j :: 0 <= j < k ==> CharAt(s, j) == CharAt(t, j)
    ensures StringLess(s, t) <==> CharAt(s, k) < CharAt(t, k)
    ensures s != t
  {
    if CharAt(s, k) < CharAt(t, k) {
      var x := CharAt(s, |s|);
      assert s[..k] == t[..k] by {
        forall j | 0 <= j < k ensures s[j] == t[j] { assert CharAt(s, j) == CharAt(t, j); }
      }
      assert FirstLess(s, t, k);
    }
    if StringLess(s, t) {
      var m: nat :| FirstLess(s, t, m);
      var c := CharAt(s, m);
      assert forall j :: 0 <= j < m ==> s[..m][j] == s[j] && t[..m][j] == t[j];
    }
  }

  // ----- compare_keys on dates -----

  lemma {:induction false} IntsAt(a: Bytes, n: nat, k: nat)
    requires k < n && |a| >= INT_SIZE * n
    ensures |Ints(a, n)| == n && Ints(a, n)[k] as int == IntAt(a, k)
  {
    IntsLength(a, n);
    if k == 0 {
      assert a[0..] == a;
    } else {
      IntsAt(a[INT_SIZE..], n - 1, k - 1);
      assert a[INT_SIZE..][4 * (k - 1)..] == a[4 * k..];
    }
  }

  lemma {:induction false} IntsLength(a: Bytes, n: nat)
    ensures |Ints(a, n)| == n
    decreases n
  {
    if n > 0 { IntsLength(if |a| >= INT_SIZE then a[INT_SIZE..] else [], n - 1); }
  }

  lemma WrapUnique(sum: int, x: int, y: int)
    requires WrapsTo(sum, x) && WrapsTo(sum, y)
    ensures x == y
  {
  }

  lemma WrappedWraps(sum: int)
    ensures WrapsTo(sum, Wrapped(sum))
  {
  }

  /** compare_keys on dates: equal when all fields are, otherwise by their seconds as an int holds them. */
  lemma {:induction false} DateMeaning(a: Bytes, b: Bytes)
    requires |a| >= DATETIME_SIZE && |b| >= DATETIME_SIZE
    ensures var (x, y) := (Ints(a, DATETIME_FIELDS), Ints(b, DATETIME_FIELDS));
            (SameDate(a, b) <==> x == y) && (Timestamp(a) < Timestamp(b) <==> DateLess(x, y))
  {
    var x, y := Ints(a, DATETIME_FIELDS), Ints(b, DATETIME_FIELDS);
    forall k: nat | k < DATETIME_FIELDS ensures x[k] as int == IntAt(a, k) && y[k] as int == IntAt(b, k) {
      IntsAt(a, DATETIME_FIELDS, k);
      IntsAt(b, DATETIME_FIELDS, k);
    }
    IntsLength(a, DATETIME_FIELDS);
    IntsLength(b, DATETIME_FIELDS);
    TimestampSeconds(a, x);
    TimestampSeconds(b, y);
    if DateLess(x, y) {
      var u, v :| WrapsTo(Seconds(x), u) && WrapsTo(Seconds(y), v) && u < v;
      WrapUnique(Seconds(x), u, Timestamp(a));
      WrapUnique(Seconds(y), v, Timestamp(b));
    }
  }

  lemma TimestampSeconds(a: Bytes, x: seq<int32>)
    requires |x| == DATETIME_FIELDS && forall k: nat :: k < DATETIME_FIELDS ==> x[k] as int == IntAt(a, k)
    ensures WrapsTo(Seconds(x), Timestamp(a))
  {
    WrappedWraps(Seconds(x));
    assert IntAt(a, 2) == x[2] as int && IntAt(a, 1) == x[1] as int && IntAt(a, 0) == x[0] as int;
    assert IntAt(a, 3) == x[3] as int && IntAt(a, 4) == x[4] as int && IntAt(a, 5) == x[5] as int;
  }

  // ----- raw values -----

  /** A raw value as stored rows and checked literals have it. */
  ghost predicate SoundValue(v: RawValue) {
    WidthOk(v.ty, |v.raw|) && Canonical(v.ty, v.raw) && NumberValue(v)
  }

  function ValueOfRaw(v: RawValue): Value {
    Decode(v.ty, v.raw)
  }

  lemma {:induction false} StringHeld(raw: Bytes, width: nat)
    requires Canonical(STRING, raw) && width <= |raw|
    ensures var s := raw[..StrLen(raw)]; Holding(raw, if |s| > width then s[..width] else s, width)
  {
    var s := raw[..StrLen(raw)];
    forall k | 0 <= k < width
      ensures ByteAt(raw, k) == CharAt(if |s| > width then s[..width] else s, k) as int
    {
      if k >= StrLen(raw) { assert raw[k] == 0; }
    }
  }

  lemma {:induction false} RawStrings(l: Bytes, r: Bytes)
    requires Canonical(STRING, l) && Canonical(STRING, r) && |l| <= |r|
    ensures var (s, t) := (l[..StrLen(l)], r[..StrLen(r)]);
            var u := if |t| > |l| then t[..|l|] else t;
            (MemCmp(l, r, 0, |l|) == 0 <==> s == u) && (MemCmp(l, r, 0, |l|) < 0 <==> StringLess(s, u))
  {
    StringHeld(l, |l|);
    StringHeld(r, |l|);
    var t := r[..StrLen(r)];
    StringMeaning(l, r, l[..StrLen(l)], if |t| > |l| then t[..|l|] else t, |l|);
  }

  /** compare_keys on raw values is the order of the values. */
  lemma KeysMeaning(l: RawValue, r: RawValue)
    requires l.ty == r.ty && |l.raw| <= |r.raw| && SoundValue(l) && SoundValue(r)
    ensures var (cmp, a, b) :=
              (CompareKeys(l.raw, r.raw, r.ty, |l.raw|), ValueOfRaw(l), Clip(ValueOfRaw(r), |l.raw|));
            (cmp == 0 <==> Same(a, b)) && (cmp < 0 <==> Less(a, b))
  {
    hide SameDate, Timestamp, DateLess, FloatLess, FloatSame, StringLess, Canonical, Ints, FloatRank, Word, MemCmp;
    match l.ty {
      case INT =>
      case FLOAT => FloatMeaning(Word(l.raw) as word32, Word(r.raw) as word32, l.raw, r.raw);
      case STRING => RawStrings(l.raw, r.raw);
      case DATETIME => DateMeaning(l.raw, r.raw);
    }
  }

  /** A comparison of raw values means what it should of the values. */
  lemma CompareMeaning(op: CompOp, l: RawValue, r: RawValue)
    requires l.ty == r.ty && |l.raw| <= |r.raw| && SoundValue(l) && SoundValue(r)
    ensures Compare(op, l, r) <==> Meets(op, ValueOfRaw(l), Clip(ValueOfRaw(r), |l.raw|))
  {
    hide CompareKeys, Same, Less, Clip, SoundValue;
    KeysMeaning(l, r);
  }
}
