/** Key comparison (compare_keys) and the position at which a search target cuts a sorted key list. */
module KeyOrder {
  import opened Common
  import opened Seqs

  type Key = Bytes

  /** A three-way comparison and the keys on which it is meant to be used. */
  datatype KeyOrd = KeyOrd(cmp: (Key, Key) -> int, valid: Key -> bool)

  /** cmp is a total preorder on the valid keys. */
  ghost predicate Lawful(o: KeyOrd) {
    && (forall a, b :: o.valid(a) && o.valid(b) ==> (o.cmp(a, b) < 0 <==> o.cmp(b, a) > 0))
    && (forall a, b, c :: o.valid(a) && o.valid(b) && o.valid(c) && o.cmp(a, b) <= 0 && o.cmp(b, c) <= 0
          ==> o.cmp(a, c) <= 0)
  }

  ghost predicate Sorted(o: KeyOrd, ks: seq<Key>) {
    && (forall i :: 0 <= i < |ks| ==> o.valid(ks[i]))
    && (forall i, j :: 0 <= i < j < |ks| ==> o.cmp(ks[i], ks[j]) <= 0)
  }

  /** Does key k come before the bound of target t: k <= t for the upper bound, k < t for the lower bound. */
  predicate Before(o: KeyOrd, upper: bool, t: Key, k: Key) {
    if upper then o.cmp(t, k) >= 0 else o.cmp(t, k) > 0
  }

  /** The number of leading keys that come before the bound of t. */
  function CutIndex(o: KeyOrd, upper: bool, t: Key, ks: seq<Key>): (c: nat)
    ensures c <= |ks|
  {
    if ks == [] || !Before(o, upper, t, ks[0]) then 0 else 1 + CutIndex(o, upper, t, ks[1..])
  }

  /** c separates the keys before the bound from the others. */
  ghost predicate IsCut(o: KeyOrd, upper: bool, t: Key, ks: seq<Key>, c: nat) {
    && c <= |ks|
    && (forall i :: 0 <= i < c ==> Before(o, upper, t, ks[i]))
    && (forall i :: c <= i < |ks| ==> !Before(o, upper, t, ks[i]))
  }

  lemma BeforeMonotone(o: KeyOrd, upper: bool, t: Key, a: Key, b: Key)
    requires Lawful(o) && o.valid(t) && o.valid(a) && o.valid(b)
    requires o.cmp(a, b) <= 0 && Before(o, upper, t, b)
    ensures Before(o, upper, t, a)
  {
    if upper {
      assert o.cmp(b, t) <= 0;
    } else {
      assert o.cmp(t, a) <= 0 ==> o.cmp(t, b) <= 0;
    }
  }

  lemma SortedTail(o: KeyOrd, ks: seq<Key>, n: nat)
    requires Sorted(o, ks) && n <= |ks|
    ensures Sorted(o, ks[n..]) && Sorted(o, ks[..n])
  {
  }

  /** In a sorted list the leading keys counted by CutIndex are all the keys before the bound. */
  lemma {:induction false} CutIndexIsCut(o: KeyOrd, upper: bool, t: Key, ks: seq<Key>)
    requires Lawful(o) && o.valid(t) && Sorted(o, ks)
    ensures IsCut(o, upper, t, ks, CutIndex(o, upper, t, ks))
  {
    if ks != [] {
      if Before(o, upper, t, ks[0]) {
        SortedTail(o, ks, 1);
        CutIndexIsCut(o, upper, t, ks[1..]);
        var c := CutIndex(o, upper, t, ks[1..]);
        forall i | 0 <= i < c + 1 ensures Before(o, upper, t, ks[i]) {
          if i > 0 { assert ks[i] == ks[1..][i - 1]; }
        }
        forall i | c + 1 <= i < |ks| ensures !Before(o, upper, t, ks[i]) {
          assert ks[i] == ks[1..][i - 1];
        }
      } else {
        forall i | 0 <= i < |ks| ensures !Before(o, upper, t, ks[i]) {
          if i > 0 && Before(o, upper, t, ks[i]) { BeforeMonotone(o, upper, t, ks[0], ks[i]); }
        }
      }
    }
  }

  /** Any separating position is the one CutIndex counts. */
  lemma {:induction false} CutUnique(o: KeyOrd, upper: bool, t: Key, ks: seq<Key>, c: nat)
    requires IsCut(o, upper, t, ks, c)
    ensures c == CutIndex(o, upper, t, ks)
  {
    if ks != [] && c > 0 {
      assert Before(o, upper, t, ks[0]);
      var tl := ks[1..];
      forall i | 0 <= i < c - 1 ensures Before(o, upper, t, tl[i]) { assert tl[i] == ks[i + 1]; }
      forall i | c - 1 <= i < |tl| ensures !Before(o, upper, t, tl[i]) { assert tl[i] == ks[i + 1]; }
      CutUnique(o, upper, t, tl, c - 1);
    }
  }

  lemma {:induction false} CutAppend(o: KeyOrd, upper: bool, t: Key, a: seq<Key>, b: seq<Key>)
    requires Lawful(o) && o.valid(t) && Sorted(o, a + b)
    requires a != [] && Before(o, upper, t, a[|a| - 1])
    ensures CutIndex(o, upper, t, a + b) == |a| + CutIndex(o, upper, t, b)
  {
    var s, c := a + b, CutIndex(o, upper, t, a + b);
    CutIndexIsCut(o, upper, t, s);
    assert s[|a| - 1] == a[|a| - 1];
    assert c >= |a|;
    forall i | 0 <= i < c - |a| ensures Before(o, upper, t, b[i]) { assert b[i] == s[|a| + i]; }
    forall i | c - |a| <= i < |b| ensures !Before(o, upper, t, b[i]) { assert b[i] == s[|a| + i]; }
    CutUnique(o, upper, t, b, c - |a|);
  }

  lemma {:induction false} CutPrefix(o: KeyOrd, upper: bool, t: Key, a: seq<Key>, b: seq<Key>)
    requires Lawful(o) && o.valid(t) && Sorted(o, a + b)
    requires a != [] && !Before(o, upper, t, a[|a| - 1])
    ensures CutIndex(o, upper, t, a + b) == CutIndex(o, upper, t, a) < |a|
  {
    var s, c := a + b, CutIndex(o, upper, t, a + b);
    CutIndexIsCut(o, upper, t, s);
    assert s[|a| - 1] == a[|a| - 1];
    assert c < |a|;
    forall i | 0 <= i < c ensures Before(o, upper, t, a[i]) { assert a[i] == s[i]; }
    forall i | c <= i < |a| ensures !Before(o, upper, t, a[i]) { assert a[i] == s[i]; }
    CutUnique(o, upper, t, a, c);
  }

  lemma CutSides(o: KeyOrd, t: Key, k: Key)
    requires Lawful(o) && o.valid(t) && o.valid(k)
    ensures if Before(o, true, t, k) then o.cmp(k, t) <= 0 else o.cmp(t, k) <= 0
  {
  }

  /** Inserting a key at its upper bound keeps the list sorted. */
  lemma {:induction false} SortedInsert(o: KeyOrd, ks: seq<Key>, t: Key)
    requires Lawful(o) && o.valid(t) && Sorted(o, ks)
    ensures Sorted(o, InsertAt(ks, CutIndex(o, true, t, ks), [t]))
  {
    hide Before, Lawful;
    var c := CutIndex(o, true, t, ks);
    CutIndexIsCut(o, true, t, ks);
    forall i | 0 <= i < |ks| ensures if i < c then o.cmp(ks[i], t) <= 0 else o.cmp(t, ks[i]) <= 0 {
      CutSides(o, t, ks[i]);
    }
    SortedSpliced(o, ks, c, t, InsertAt(ks, c, [t]));
  }

  lemma SortedSpliced(o: KeyOrd, ks: seq<Key>, c: nat, t: Key, r: seq<Key>)
    requires Sorted(o, ks) && o.valid(t) && c <= |ks| && |r| == |ks| + 1
    requires (forall i :: 0 <= i < c ==> r[i] == ks[i]) && r[c] == t && (forall i :: c < i < |r| ==> r[i] == ks[i - 1])
    requires forall i :: 0 <= i < c ==> o.cmp(ks[i], t) <= 0
    requires forall i :: c <= i < |ks| ==> o.cmp(t, ks[i]) <= 0
    ensures Sorted(o, r)
  {
    forall i | 0 <= i < |r| ensures o.valid(r[i]) {
      if i < c { assert r[i] == ks[i]; } else if i > c { assert r[i] == ks[i - 1]; }
    }
    forall i, j | 0 <= i < j < |r| ensures o.cmp(r[i], r[j]) <= 0 {
      if j < c {
        assert r[i] == ks[i] && r[j] == ks[j];
      } else if j == c {
        assert r[i] == ks[i];
      } else if i < c {
        assert r[i] == ks[i] && r[j] == ks[j - 1];
      } else if i == c {
        assert r[j] == ks[j - 1];
      } else {
        assert r[i] == ks[i - 1] && r[j] == ks[j - 1];
      }
    }
  }

  lemma SortedRemove(o: KeyOrd, ks: seq<Key>, g: nat)
    requires Sorted(o, ks) && g < |ks|
    ensures Sorted(o, RemoveAt(ks, g))
  {
  }

  /** The lower bound of a target never lies after its upper bound. */
  lemma {:induction false} LowerBeforeUpper(o: KeyOrd, t: Key, ks: seq<Key>)
    requires Lawful(o) && o.valid(t) && Sorted(o, ks)
    ensures CutIndex(o, false, t, ks) <= CutIndex(o, true, t, ks)
  {
    var lo, hi := CutIndex(o, false, t, ks), CutIndex(o, true, t, ks);
    CutIndexIsCut(o, false, t, ks);
    CutIndexIsCut(o, true, t, ks);
    assert hi < |ks| ==> !Before(o, true, t, ks[hi]);
    assert hi < |ks| ==> !Before(o, false, t, ks[hi]);
  }

  // ----- compare_keys for each column type -----

  function ByteAt(a: Bytes, i: nat): int {
    if i < |a| then a[i] as int else 0
  }

  /** The bit pattern of the first four bytes, least significant byte first. */
  function Word(a: Bytes): (w: int)
    ensures 0 <= w < 0x1_0000_0000
  {
    ByteAt(a, 0) + 0x100 * ByteAt(a, 1) + 0x1_0000 * ByteAt(a, 2) + 0x100_0000 * ByteAt(a, 3)
  }

  /** The two's complement 32-bit integer stored in the first four bytes. */
  function IntOf(a: Bytes): int {
    if Word(a) < 0x8000_0000 then Word(a) else Word(a) - 0x1_0000_0000
  }

  predicate IsNaN(a: Bytes) {
    Word(a) % 0x8000_0000 > 0x7f80_0000
  }

  /** Orders the IEEE single-precision numbers that are not NaN: sign and magnitude, both zeros alike. */
  function FloatRank(a: Bytes): int {
    if Word(a) < 0x8000_0000 then Word(a) else 0x8000_0000 - Word(a)
  }

  function ThreeWay(equal: bool, less: bool): int {
    if equal then 0 else if less then -1 else 1
  }

  /** memcmp over n bytes from position i. */
  function MemCmp(a: Bytes, b: Bytes, i: nat, n: nat): int
    decreases n - i
  {
    if i >= n then 0
    else if ByteAt(a, i) != ByteAt(b, i) then ByteAt(a, i) - ByteAt(b, i)
    else MemCmp(a, b, i + 1, n)
  }

  /** The k-th of the ints stored one after the other from the start; of a date-time these are day, month, year, hour,
      minute and second. */
  function IntAt(a: Bytes, k: nat): int {
    IntOf(if 4 * k <= |a| then a[4 * k..] else [])
  }

  predicate SameDate(a: Bytes, b: Bytes) {
    forall k :: 0 <= k < 6 ==> IntAt(a, k) == IntAt(b, k)
  }

  /** The int that a 32-bit computation wraps round to. */
  function Wrapped(x: int): int {
    (x + 0x8000_0000) % 0x1_0000_0000 - 0x8000_0000
  }

  /** DateTime::getTimestamp: seconds, with months of 30 days and years of 365, summed in int. */
  function Timestamp(a: Bytes): int {
    Wrapped(IntAt(a, 2) * 31_536_000 + IntAt(a, 1) * 2_592_000 + IntAt(a, 0) * 86_400
      + IntAt(a, 3) * 3_600 + IntAt(a, 4) * 60 + IntAt(a, 5))
  }

  /** Two date-times that differ although their timestamps do not. */
  predicate Clash(a: Bytes, b: Bytes) {
    !SameDate(a, b) && Timestamp(a) == Timestamp(b)
  }

  /** compare_keys. */
  function CompareKeys(a: Key, b: Key, ty: ColumnType, len: nat): int {
    match ty
    case INT => ThreeWay(IntOf(a) == IntOf(b), IntOf(a) < IntOf(b))
    case FLOAT =>
      var ordered := !IsNaN(a) && !IsNaN(b);
      ThreeWay(ordered && FloatRank(a) == FloatRank(b), ordered && FloatRank(a) < FloatRank(b))
    case STRING => MemCmp(a, b, 0, len)
    case DATETIME => ThreeWay(SameDate(a, b), Timestamp(a) < Timestamp(b))
  }

  /** The order of a column's keys. Keys of DATETIME columns are not ordered in general: see DateLawfulIff. */
  function ColumnOrd(ty: ColumnType, len: nat): KeyOrd {
    KeyOrd((a, b) => CompareKeys(a, b, ty, len), a => ty == FLOAT ==> !IsNaN(a))
  }

  lemma {:induction false} MemCmpAntisymmetric(a: Bytes, b: Bytes, i: nat, n: nat)
    ensures MemCmp(a, b, i, n) == -MemCmp(b, a, i, n)
    decreases n - i
  {
    if i < n { MemCmpAntisymmetric(a, b, i + 1, n); }
  }

  lemma {:induction false} MemCmpTransitive(a: Bytes, b: Bytes, c: Bytes, i: nat, n: nat)
    requires MemCmp(a, b, i, n) <= 0 && MemCmp(b, c, i, n) <= 0
    ensures MemCmp(a, c, i, n) <= 0
    decreases n - i
  {
    if i < n && ByteAt(a, i) == ByteAt(b, i) == ByteAt(c, i) { MemCmpTransitive(a, b, c, i + 1, n); }
  }

  /** compare_keys is a total preorder on INT and STRING keys, and on FLOAT keys that are not NaN. */
  lemma ColumnOrdLawful(ty: ColumnType, len: nat)
    requires ty != DATETIME
    ensures Lawful(ColumnOrd(ty, len))
  {
    var o := ColumnOrd(ty, len);
    forall a, b | o.valid(a) && o.valid(b) ensures o.cmp(a, b) < 0 <==> o.cmp(b, a) > 0 {
      MemCmpAntisymmetric(a, b, 0, len);
    }
    forall a, b, c | o.valid(a) && o.valid(b) && o.valid(c) && o.cmp(a, b) <= 0 && o.cmp(b, c) <= 0
      ensures o.cmp(a, c) <= 0
    {
      if ty == STRING { MemCmpTransitive(a, b, c, 0, len); }
    }
  }

  /** With a NaN key the comparison is no preorder: it answers "greater" both ways. */
  lemma NaNComparesGreaterBothWays(a: Key, b: Key)
    requires IsNaN(a)
    ensures CompareKeys(a, b, FLOAT, 4) == 1 && CompareKeys(b, a, FLOAT, 4) == 1
  {
  }

  /** On FLOAT keys the comparison is a total preorder exactly when no NaN is among the keys. */
  lemma FloatLawfulIff(valid: Key -> bool)
    ensures Lawful(KeyOrd((a, b) => CompareKeys(a, b, FLOAT, 4), valid)) <==> forall k :: valid(k) ==> !IsNaN(k)
  {
    var o := KeyOrd((a, b) => CompareKeys(a, b, FLOAT, 4), valid);
    ColumnOrdLawful(FLOAT, 4);
    var numbers := ColumnOrd(FLOAT, 4);
    forall a, b ensures o.cmp(a, b) == numbers.cmp(a, b) { }
    if Lawful(o) {
      forall k | valid(k) ensures !IsNaN(k) {
        assert o.cmp(k, k) < 0 <==> o.cmp(k, k) > 0;
        if IsNaN(k) { NaNComparesGreaterBothWays(k, k); }
      }
    }
    if forall k :: valid(k) ==> !IsNaN(k) {
      forall a, b, c | valid(a) && valid(b) && valid(c) && o.cmp(a, b) <= 0 && o.cmp(b, c) <= 0
        ensures o.cmp(a, c) <= 0
      {
        assert numbers.valid(a) && numbers.valid(b) && numbers.valid(c);
      }
      forall a, b | valid(a) && valid(b) ensures o.cmp(a, b) < 0 <==> o.cmp(b, a) > 0 {
        assert numbers.valid(a) && numbers.valid(b);
      }
    }
  }

  /** On DATETIME keys the comparison is a total preorder exactly when the timestamps tell the keys apart. */
  lemma DateLawfulIff(valid: Key -> bool, len: nat)
    ensures Lawful(KeyOrd((a, b) => CompareKeys(a, b, DATETIME, len), valid)) <==>
      forall a, b :: valid(a) && valid(b) ==> !Clash(a, b)
  {
    hide SameDate, Timestamp;
    var o := KeyOrd((a, b) => CompareKeys(a, b, DATETIME, len), valid);
    forall a, b ensures SameDate(a, b) ==> Timestamp(a) == Timestamp(b) && SameDate(b, a) {
      if SameDate(a, b) { SameTimestamp(a, b); }
    }
    if Lawful(o) {
      forall a, b | valid(a) && valid(b) ensures !Clash(a, b) {
        assert o.cmp(a, b) < 0 <==> o.cmp(b, a) > 0;
      }
    }
  }

  lemma SameTimestamp(a: Bytes, b: Bytes)
    requires SameDate(a, b)
    ensures Timestamp(a) == Timestamp(b) && SameDate(b, a)
  {
    assert forall k :: 0 <= k < 6 ==> IntAt(a, k) == IntAt(b, k);
    assert IntAt(a, 0) == IntAt(b, 0) && IntAt(a, 1) == IntAt(b, 1) && IntAt(a, 2) == IntAt(b, 2);
    assert IntAt(a, 3) == IntAt(b, 3) && IntAt(a, 4) == IntAt(b, 4) && IntAt(a, 5) == IntAt(b, 5);
  }

  /** The 31st of January and the 1st of February, at the same time of any one year, clash: each compares greater than
      the other. */
  lemma JanuaryClash(a: Bytes, b: Bytes)
    requires IntAt(a, 0) == 31 && IntAt(a, 1) == 1 && IntAt(b, 0) == 1 && IntAt(b, 1) == 2
    requires forall k :: 2 <= k < 6 ==> IntAt(a, k) == IntAt(b, k)
    ensures Clash(a, b) && CompareKeys(a, b, DATETIME, 24) == 1 && CompareKeys(b, a, DATETIME, 24) == 1
  {
    assert IntAt(a, 2) == IntAt(b, 2) && IntAt(a, 3) == IntAt(b, 3);
    assert IntAt(a, 4) == IntAt(b, 4) && IntAt(a, 5) == IntAt(b, 5);
    assert IntAt(a, 0) != IntAt(b, 0);
  }
}
