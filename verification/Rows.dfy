/** Typed values, the columns of a table, and their fixed-width encoding inside a record. */
module Rows {
  import opened Common
  import opened KeyOrder

  const INT_SIZE := 4
  const DATETIME_FIELDS := 6
  const DATETIME_SIZE := 24

  datatype TabCol = TabCol(tab: string, col: string)

  /** Column_Metadata. */
  datatype Column = Column(tab: string, name: string, ty: ColumnType, len: nat, offset: nat, index: bool) {
    function Ref(): TabCol { TabCol(tab, name) }
    function End(): nat { offset + len }
  }

  newtype word32 = x: int | 0 <= x < 0x1_0000_0000

  newtype int32 = x: int | -0x8000_0000 <= x < 0x8000_0000

  datatype Value =
    | IntValue(i: int32)
    | FloatValue(bits: word32)
    | StringValue(s: Bytes)
    | DateTimeValue(fields: seq<int32>)

  datatype Error = InvalidValueCount | IncompatibleType | StringOverflow | ColumnNotFound | AmbiguousColumn
    | IndexExists | IndexNotFound | InvalidRecordSize | TableExists | AssertionFailed

  datatype Result<+T> = Ok(value: T) | Err(error: Error)

  function TypeOf(v: Value): ColumnType {
    match v
    case IntValue(_) => INT
    case FloatValue(_) => FLOAT
    case StringValue(_) => STRING
    case DateTimeValue(_) => DATETIME
  }

  // ----- one value -----

  /** The four bytes of a 32-bit pattern, least significant first. */
  function WordBytes(w: int): Bytes
    requires 0 <= w < 0x1_0000_0000
  {
    [(w % 0x100) as byte, (w / 0x100 % 0x100) as byte, (w / 0x1_0000 % 0x100) as byte, (w / 0x100_0000) as byte]
  }

  function IntBytes(i: int32): Bytes {
    WordBytes(if i >= 0 then i as int else i as int + 0x1_0000_0000)
  }

  function IntsBytes(fields: seq<int32>): Bytes {
    if fields == [] then [] else IntBytes(fields[0]) + IntsBytes(fields[1..])
  }

  function Zeros(n: nat): (z: Bytes)
    ensures |z| == n && forall i :: 0 <= i < n ==> z[i] == 0
  {
    seq(n, _ => 0)
  }

  /** Value::init_raw: the raw form of a value in a column of the given width. */
  function InitRaw(v: Value, len: nat): Result<Bytes> {
    match v
    case IntValue(i) => if len == INT_SIZE then Ok(IntBytes(i)) else Err(AssertionFailed)
    case FloatValue(bits) => if len == INT_SIZE then Ok(WordBytes(bits as int)) else Err(AssertionFailed)
    case StringValue(s) => if |s| <= len then Ok(s + Zeros(len - |s|)) else Err(StringOverflow)
    case DateTimeValue(fields) => if len == DATETIME_SIZE then Ok(IntsBytes(fields)) else Err(AssertionFailed)
  }

  /** The number of bytes before the first NUL (strlen, stopping at the end). */
  function StrLen(a: Bytes): (n: nat)
    ensures n <= |a| && (n < |a| ==> a[n] == 0) && forall i :: 0 <= i < n ==> a[i] != 0
  {
    if a == [] || a[0] == 0 then 0 else 1 + StrLen(a[1..])
  }

  function SignedWord(a: Bytes): (i: int32)
    ensures i as int == IntOf(a)
  {
    IntOf(a) as int32
  }

  function Ints(a: Bytes, n: nat): seq<int32>
    decreases n
  {
    if n == 0 then [] else [SignedWord(a)] + Ints(if |a| >= INT_SIZE then a[INT_SIZE..] else [], n - 1)
  }

  /** The value that rec2dict reads out of a field. */
  function Decode(ty: ColumnType, field: Bytes): Value {
    match ty
    case INT => IntValue(SignedWord(field))
    case FLOAT => FloatValue(Word(field) as word32)
    case STRING => StringValue(field[..StrLen(field)])
    case DATETIME => DateTimeValue(Ints(field, DATETIME_FIELDS))
  }

  /** What the parser produces: strings without NUL, and date-times of six fields. */
  ghost predicate WellMade(v: Value) {
    match v
    case StringValue(s) => forall i :: 0 <= i < |s| ==> s[i] != 0
    case DateTimeValue(fields) => |fields| == DATETIME_FIELDS
    case _ => true
  }

  lemma WordOfBytes(w: int, rest: Bytes)
    requires 0 <= w < 0x1_0000_0000
    ensures Word(WordBytes(w) + rest) == w
  {
    var a, b := WordBytes(w), WordBytes(w) + rest;
    assert b[0] == a[0] && b[1] == a[1] && b[2] == a[2] && b[3] == a[3];
    assert w / 0x100 / 0x100 == w / 0x1_0000 && w / 0x1_0000 / 0x100 == w / 0x100_0000;
  }

  /** Integers are stored in two's complement with the least significant byte first. */
  lemma IntLayout(i: int32)
    ensures var a := IntBytes(i);
            |a| == 4 && a[0] as int + 256 * a[1] as int + 65536 * a[2] as int + 16777216 * a[3] as int
              == if i < 0 then i as int + 4294967296 else i as int
  {
    var w := if i >= 0 then i as int else i as int + 0x1_0000_0000;
    WordOfBytes(w, []);
    assert IntBytes(i) + [] == IntBytes(i);
  }

  lemma BytesOfWord(a: Bytes)
    requires |a| == INT_SIZE
    ensures WordBytes(Word(a)) == a
  {
    var w := Word(a);
    assert w % 0x100 == ByteAt(a, 0);
    assert w / 0x100 == ByteAt(a, 1) + 0x100 * (ByteAt(a, 2) + 0x100 * ByteAt(a, 3));
    assert w / 0x1_0000 == ByteAt(a, 2) + 0x100 * ByteAt(a, 3);
    assert w / 0x100_0000 == ByteAt(a, 3);
  }

  lemma IntOfBytes(i: int32, rest: Bytes)
    ensures IntOf(IntBytes(i) + rest) == i as int
  {
    WordOfBytes(if i >= 0 then i as int else i as int + 0x1_0000_0000, rest);
  }

  lemma BytesOfInt(a: Bytes)
    requires |a| == INT_SIZE
    ensures IntBytes(SignedWord(a)) == a
  {
    BytesOfWord(a);
  }

  lemma {:induction false} IntsRoundTrip(fields: seq<int32>)
    ensures Ints(IntsBytes(fields), |fields|) == fields
    ensures |IntsBytes(fields)| == INT_SIZE * |fields|
  {
    if fields != [] {
      IntOfBytes(fields[0], IntsBytes(fields[1..]));
      IntsRoundTrip(fields[1..]);
      assert IntsBytes(fields)[INT_SIZE..] == IntsBytes(fields[1..]);
    }
  }

  lemma {:induction false} IntsBytesRoundTrip(a: Bytes, n: nat)
    requires |a| == INT_SIZE * n
    ensures IntsBytes(Ints(a, n)) == a
  {
    if n > 0 {
      BytesOfInt(a[..INT_SIZE]);
      assert Word(a[..INT_SIZE]) == Word(a);
      IntsBytesRoundTrip(a[INT_SIZE..], n - 1);
      var fields := Ints(a, n);
      assert fields[1..] == Ints(a[INT_SIZE..], n - 1);
      assert a == a[..INT_SIZE] + a[INT_SIZE..];
    }
  }

  /** The ints found in an area are those stored there, whatever follows them. */
  lemma {:induction false} IntsStored(fields: seq<int32>, rest: Bytes, k: nat)
    requires k < |fields|
    ensures IntAt(IntsBytes(fields) + rest, k) == fields[k] as int
  {
    IntsRoundTrip(fields);
    var a, tail := IntsBytes(fields) + rest, IntsBytes(fields[1..]) + rest;
    assert a == IntBytes(fields[0]) + tail;
    if k == 0 {
      IntOfBytes(fields[0], tail);
      assert a[0..] == a;
    } else {
      IntsRoundTrip(fields[1..]);
      IntsStored(fields[1..], rest, k - 1);
      assert a[4 * k..] == tail[4 * (k - 1)..];
    }
  }

  lemma {:induction false} PaddedLength(s: Bytes, n: nat)
    requires forall i :: 0 <= i < |s| ==> s[i] != 0
    ensures StrLen(s + Zeros(n)) == |s|
  {
    var d := s + Zeros(n);
    forall i | 0 <= i < |s| ensures d[i] != 0 { assert d[i] == s[i]; }
    if n > 0 { assert d[|s|] == 0; }
  }

  /** A stored value is read back unchanged, and its raw form has the column's width. */
  lemma ValueRoundTrip(v: Value, len: nat)
    requires WellMade(v) && InitRaw(v, len).Ok?
    ensures Decode(TypeOf(v), InitRaw(v, len).value) == v && |InitRaw(v, len).value| == len
  {
    var d := InitRaw(v, len).value;
    match v {
      case IntValue(i) =>
        IntOfBytes(i, []);
        assert d + [] == d;
      case FloatValue(bits) =>
        WordOfBytes(bits as int, []);
        assert d + [] == d;
      case StringValue(s) =>
        PaddedLength(s, len - |s|);
      case DateTimeValue(fields) =>
        IntsRoundTrip(fields);
    }
  }

  /** A field is canonical when nothing but NULs follows the first NUL of a string. */
  ghost predicate Canonical(ty: ColumnType, field: Bytes) {
    ty == STRING ==> forall i :: StrLen(field) <= i < |field| ==> field[i] == 0
  }

  predicate WidthOk(ty: ColumnType, len: nat) {
    match ty
    case STRING => true
    case DATETIME => len == DATETIME_SIZE
    case _ => len == INT_SIZE
  }

  lemma StringRoundTrip(field: Bytes)
    ensures InitRaw(Decode(STRING, field), |field|) == Ok(field) <==> Canonical(STRING, field)
  {
    var n := StrLen(field);
    var d := field[..n] + Zeros(|field| - n);
    assert InitRaw(Decode(STRING, field), |field|) == Ok(d);
    if Canonical(STRING, field) {
      assert d == field;
    } else {
      var i :| n <= i < |field| && field[i] != 0;
      assert d[i] == 0;
    }
  }

  /** Reading a field and encoding it again, as rec2dict does, gives the field back exactly when it is canonical. */
  lemma FieldRoundTrip(ty: ColumnType, field: Bytes)
    requires WidthOk(ty, |field|)
    ensures InitRaw(Decode(ty, field), |field|) == Ok(field) <==> Canonical(ty, field)
  {
    match ty {
      case INT => BytesOfInt(field);
      case FLOAT =>
        BytesOfWord(field);
      case STRING => StringRoundTrip(field);
      case DATETIME => IntsBytesRoundTrip(field, DATETIME_FIELDS);
    }
  }

  /** A byte behind the first NUL of a string is lost. */
  lemma TailLost()
    ensures InitRaw(Decode(STRING, [0, 65]), 2) == Ok([0, 0])
  {
    assert StrLen([0, 65]) == 0;
    assert [0, 65][..0] + Zeros(2) == [0, 0];
  }

  lemma RawCanonical(v: Value, len: nat)
    requires WellMade(v) && InitRaw(v, len).Ok?
    ensures Canonical(TypeOf(v), InitRaw(v, len).value)
  {
    if v.StringValue? {
      ValueRoundTrip(v, len);
      var d := InitRaw(v, len).value;
      assert d[..StrLen(d)] == v.s;
    }
  }

  // ----- the columns of a record -----

  ghost predicate FollowsOn(cols: seq<Column>, i: nat)
    requires i < |cols|
  {
    cols[i].offset == if i == 0 then 0 else cols[i - 1].End()
  }

  /** Each column starts where the previous one ends. */
  ghost predicate LaidOut(cols: seq<Column>) {
    && (forall i :: 0 <= i < |cols| ==> FollowsOn(cols, i))
    && (forall i :: 0 <= i < |cols| ==> WidthOk(cols[i].ty, cols[i].len))
  }

  ghost predicate DistinctNames(cols: seq<Column>) {
    forall i, j :: 0 <= i < j < |cols| ==> cols[i].Ref() != cols[j].Ref()
  }

  function RecordSize(cols: seq<Column>): nat {
    if cols == [] then 0 else cols[|cols| - 1].End()
  }

  /** A column as CREATE TABLE gives it. The grammar lets the length of a CHAR column be negative. */
  datatype ColumnDef = ColumnDef(name: string, ty: ColumnType, len: int)

  predicate DefOk(d: ColumnDef) {
    d.len >= 0 && WidthOk(d.ty, d.len)
  }

  function TotalSize(defs: seq<ColumnDef>): int {
    if defs == [] then 0 else TotalSize(defs[..|defs| - 1]) + defs[|defs| - 1].len
  }

  /** The offset that create_table gives to column i. */
  function StartOf(defs: seq<ColumnDef>, i: nat): int
    requires i <= |defs|
  {
    TotalSize(defs[..i])
  }

  ghost predicate Occupies(defs: seq<ColumnDef>, i: nat, x: int) {
    i < |defs| && StartOf(defs, i) <= x < StartOf(defs, i) + defs[i].len
  }

  ghost predicate Occupied(defs: seq<ColumnDef>, x: int) {
    exists i: nat :: Occupies(defs, i, x)
  }

  /** Every byte of the record lies in exactly one column, and no column reaches outside the record. */
  ghost predicate Tiles(defs: seq<ColumnDef>) {
    && (forall x :: 0 <= x < TotalSize(defs) ==> Occupied(defs, x))
    && (forall i: nat, x :: Occupies(defs, i, x) ==> 0 <= x < TotalSize(defs))
    && (forall i: nat, j: nat, x :: Occupies(defs, i, x) && Occupies(defs, j, x) ==> i == j)
  }

  lemma NextStart(defs: seq<ColumnDef>, i: nat)
    requires i < |defs|
    ensures StartOf(defs, i + 1) == StartOf(defs, i) + defs[i].len
  {
    assert defs[..i + 1][..i] == defs[..i];
  }

  /** Between an offset at or before x and one behind it lies a column that has the byte x. */
  lemma {:induction false} Crossing(defs: seq<ColumnDef>, a: nat, b: nat, x: int) returns (k: nat)
    requires a <= b <= |defs| && StartOf(defs, a) <= x < StartOf(defs, b)
    ensures a <= k < b && Occupies(defs, k, x)
    decreases b
  {
    NextStart(defs, b - 1);
    if StartOf(defs, b - 1) <= x { k := b - 1; } else { k := Crossing(defs, a, b - 1, x); }
  }

  lemma {:induction false} StartsGrow(defs: seq<ColumnDef>, i: nat, j: nat)
    requires i <= j <= |defs| && forall k :: 0 <= k < |defs| ==> defs[k].len >= 0
    ensures StartOf(defs, i) <= StartOf(defs, j)
    decreases j
  {
    if i < j {
      NextStart(defs, j - 1);
      StartsGrow(defs, i, j - 1);
    }
  }

  /** create_table checks no more than the sum of the lengths. The columns that it accepts share the record out exactly
      when no length is negative. */
  lemma {:induction false} TilesIff(defs: seq<ColumnDef>)
    requires TotalSize(defs) > 0
    ensures Tiles(defs) <==> forall i :: 0 <= i < |defs| ==> defs[i].len >= 0
  {
    assert defs[..|defs|] == defs;
    if i: nat :| i < |defs| && defs[i].len < 0 {
      Overlap(defs, i);
    } else {
      forall x | 0 <= x < TotalSize(defs) ensures Occupied(defs, x) {
        var k := Crossing(defs, 0, |defs|, x);
      }
      forall i: nat, j: nat | i < j < |defs| ensures StartOf(defs, i) + defs[i].len <= StartOf(defs, j) {
        NextStart(defs, i);
        StartsGrow(defs, i + 1, j);
      }
      forall i: nat | i < |defs| ensures 0 <= StartOf(defs, i) <= StartOf(defs, i) + defs[i].len <= TotalSize(defs) {
        NextStart(defs, i);
        StartsGrow(defs, 0, i);
        StartsGrow(defs, i + 1, |defs|);
      }
    }
  }

  /** Behind a column of negative length the offsets run a second time over bytes that earlier columns have, or start
      before the record. */
  lemma {:induction false} Overlap(defs: seq<ColumnDef>, i: nat)
    requires i < |defs| && defs[i].len < 0 && TotalSize(defs) > 0
    ensures !Tiles(defs)
  {
    assert defs[..|defs|] == defs;
    NextStart(defs, i);
    var x := StartOf(defs, i) - 1;
    if x < 0 {
      var k := Crossing(defs, i + 1, |defs|, -1);
    } else {
      var k := Crossing(defs, 0, i, x);
      if x < TotalSize(defs) { var j := Crossing(defs, i + 1, |defs|, x); }
    }
  }

  lemma {:induction false} SizesAddUp(cols: seq<Column>, defs: seq<ColumnDef>, n: nat)
    requires LaidOut(cols) && |cols| == |defs| && n <= |defs|
    requires forall i :: 0 <= i < |defs| ==> cols[i].len == defs[i].len
    ensures RecordSize(cols[..n]) == TotalSize(defs[..n])
  {
    if n > 0 {
      SizesAddUp(cols, defs, n - 1);
      assert defs[..n][..n - 1] == defs[..n - 1] && cols[..n][n - 1] == cols[n - 1];
      assert FollowsOn(cols, n - 1);
      if n > 1 { assert cols[..n - 1][n - 2] == cols[n - 2]; }
    }
  }

  /** The column list that create_table builds. */
  method CreateColumns(tab: string, defs: seq<ColumnDef>) returns (cols: seq<Column>)
    requires forall i :: 0 <= i < |defs| ==> DefOk(defs[i])
    ensures LaidOut(cols) && |cols| == |defs| && RecordSize(cols) == TotalSize(defs)
    ensures forall i :: 0 <= i < |defs| ==>
      DefOk(defs[i]) && cols[i] == Column(tab, defs[i].name, defs[i].ty, defs[i].len, cols[i].offset, false)
  {
    cols := [];
    var currOffset := 0;
    for i := 0 to |defs|
      invariant LaidOut(cols) && |cols| == i && currOffset == RecordSize(cols)
      invariant forall k :: 0 <= k < i ==>
        cols[k] == Column(tab, defs[k].name, defs[k].ty, defs[k].len, cols[k].offset, false)
    {
      var col := Column(tab, defs[i].name, defs[i].ty, defs[i].len, currOffset, false);
      LaidOutAppend(cols, col);
      cols := cols + [col];
      currOffset := currOffset + defs[i].len;
    }
    SizesAddUp(cols, defs, |defs|);
    assert cols[..|defs|] == cols && defs[..|defs|] == defs;
  }

  lemma LaidOutAppend(cols: seq<Column>, col: Column)
    requires LaidOut(cols) && col.offset == RecordSize(cols) && WidthOk(col.ty, col.len)
    ensures LaidOut(cols + [col]) && RecordSize(cols + [col]) == col.End()
  {
    var all := cols + [col];
    forall i | 0 <= i < |all| ensures FollowsOn(all, i) && WidthOk(all[i].ty, all[i].len) {
      if i < |cols| { assert all[i] == cols[i] && FollowsOn(cols, i); }
      if i > 0 { assert all[i - 1] == cols[i - 1]; }
    }
  }

  lemma {:induction false} OffsetsGrow(cols: seq<Column>, i: nat, j: nat)
    requires LaidOut(cols) && i < j < |cols|
    ensures cols[i].End() <= cols[j].offset
    decreases j
  {
    assert FollowsOn(cols, j);
    if i < j - 1 { OffsetsGrow(cols, i, j - 1); }
  }

  lemma InsideRecord(cols: seq<Column>, i: nat)
    requires LaidOut(cols) && i < |cols|
    ensures cols[i].End() <= RecordSize(cols)
  {
    if i < |cols| - 1 { OffsetsGrow(cols, i, |cols| - 1); }
  }

  ghost predicate Covers(c: Column, x: nat) {
    c.offset <= x < c.End()
  }

  lemma {:induction false} CoveredBelow(cols: seq<Column>, n: nat, x: nat)
    requires LaidOut(cols) && n <= |cols| && x < RecordSize(cols[..n])
    ensures exists i :: 0 <= i < n && Covers(cols[i], x)
  {
    assert cols[..n][n - 1] == cols[n - 1];
    if !Covers(cols[n - 1], x) {
      assert FollowsOn(cols, n - 1);
      if n > 1 { assert cols[..n - 1][n - 2] == cols[n - 2]; }
      CoveredBelow(cols, n - 1, x);
    }
  }

  /** Every byte of a record belongs to exactly one column. */
  lemma ColumnsPartitionRecord(cols: seq<Column>, x: nat) returns (i: nat)
    requires LaidOut(cols) && x < RecordSize(cols)
    ensures i < |cols| && Covers(cols[i], x)
    ensures forall j :: 0 <= j < |cols| && Covers(cols[j], x) ==> j == i
  {
    assert cols[..|cols|] == cols;
    CoveredBelow(cols, |cols|, x);
    i :| 0 <= i < |cols| && Covers(cols[i], x);
    forall j | 0 <= j < |cols| && Covers(cols[j], x) ensures j == i {
      if j < i { OffsetsGrow(cols, j, i); }
      if i < j { OffsetsGrow(cols, i, j); }
    }
  }

  /** The bytes of a column in a record; bytes past the end of the record read as NUL. */
  function Field(rec: Bytes, c: Column): (f: Bytes)
    ensures |f| == c.len
  {
    seq(c.len, i requires 0 <= i => if c.offset + i < |rec| then rec[c.offset + i] else 0)
  }

  /** memcpy of a column's bytes into a record. */
  function Store(rec: Bytes, c: Column, data: Bytes): Bytes
    requires c.End() <= |rec| && |data| == c.len
  {
    rec[..c.offset] + data + rec[c.End()..]
  }

  /** A store changes its own column and no other. */
  lemma StoreField(rec: Bytes, cols: seq<Column>, k: nat, data: Bytes)
    requires LaidOut(cols) && k < |cols| && |rec| == RecordSize(cols) && |data| == cols[k].len
    ensures cols[k].End() <= |rec| && |Store(rec, cols[k], data)| == |rec|
    ensures Field(Store(rec, cols[k], data), cols[k]) == data
    ensures forall i :: 0 <= i < |cols| && i != k ==> Field(Store(rec, cols[k], data), cols[i]) == Field(rec, cols[i])
  {
    InsideRecord(cols, k);
    forall i | 0 <= i < |cols| && i != k ensures Field(Store(rec, cols[k], data), cols[i]) == Field(rec, cols[i]) {
      InsideRecord(cols, i);
      if i < k { OffsetsGrow(cols, i, k); } else { OffsetsGrow(cols, k, i); }
    }
  }

  // ----- whole rows -----

  /** A stored row: as long as its columns say, every field canonical, and no NaN in a FLOAT column. */
  ghost predicate RowOk(cols: seq<Column>, rec: Bytes) {
    && |rec| == RecordSize(cols)
    && (forall i :: 0 <= i < |cols| ==> FieldOk(cols[i], Field(rec, cols[i])))
  }

  ghost predicate FieldOk(c: Column, field: Bytes) {
    Canonical(c.ty, field) && (c.ty == FLOAT ==> !IsNaN(field))
  }

  ghost predicate Number(v: Value) {
    v.FloatValue? ==> !IsNaN(WordBytes(v.bits as int))
  }

  /** The first error of encoding values k.. of a row, if there is one. */
  function RowError(cols: seq<Column>, values: seq<Value>, k: nat): Option<Error>
    requires |values| == |cols| && k <= |cols|
    decreases |cols| - k
  {
    if k == |cols| then None
    else if cols[k].ty != TypeOf(values[k]) then Some(IncompatibleType)
    else if InitRaw(values[k], cols[k].len).Err? then Some(InitRaw(values[k], cols[k].len).error)
    else RowError(cols, values, k + 1)
  }

  function CheckRow(cols: seq<Column>, values: seq<Value>): Option<Error> {
    if |values| != |cols| then Some(InvalidValueCount) else RowError(cols, values, 0)
  }

  ghost predicate Encodes(cols: seq<Column>, values: seq<Value>, rec: Bytes) {
    && |rec| == RecordSize(cols) && |values| == |cols|
    && (forall i :: 0 <= i < |cols| ==>
        TypeOf(values[i]) == cols[i].ty && InitRaw(values[i], cols[i].len) == Ok(Field(rec, cols[i])))
  }

  /** The record buffer that insert_into fills. */
  method EncodeRow(cols: seq<Column>, values: seq<Value>) returns (r: Result<Bytes>)
    requires LaidOut(cols) && forall v :: v in values ==> WellMade(v)
    ensures match CheckRow(cols, values)
            case Some(e) => r == Err(e)
            case None => r.Ok? && Encodes(cols, values, r.value)
  {
    if |values| != |cols| {
      return Err(InvalidValueCount);
    }
    var rec := Zeros(RecordSize(cols));
    for i := 0 to |values|
      invariant |rec| == RecordSize(cols) && RowError(cols, values, i) == RowError(cols, values, 0)
      invariant forall k :: 0 <= k < i ==>
        TypeOf(values[k]) == cols[k].ty && InitRaw(values[k], cols[k].len) == Ok(Field(rec, cols[k]))
    {
      var col, val := cols[i], values[i];
      if col.ty != TypeOf(val) {
        return Err(IncompatibleType);
      }
      var raw := InitRaw(val, col.len);
      if raw.Err? {
        return Err(raw.error);
      }
      assert val in values;
      ValueRoundTrip(val, col.len);
      StoreField(rec, cols, i, raw.value);
      rec := Store(rec, col, raw.value);
    }
    return Ok(rec);
  }

  function DecodeRow(cols: seq<Column>, rec: Bytes): (values: seq<Value>)
    ensures |values| == |cols|
  {
    seq(|cols|, i requires 0 <= i < |cols| => Decode(cols[i].ty, Field(rec, cols[i])))
  }

  /** The values of an accepted row are read back unchanged, and the stored record is a sound row. */
  lemma RowRoundTrip(cols: seq<Column>, values: seq<Value>, rec: Bytes)
    requires LaidOut(cols) && Encodes(cols, values, rec)
    requires forall v :: v in values ==> WellMade(v) && Number(v)
    ensures DecodeRow(cols, rec) == values && RowOk(cols, rec)
  {
    forall i | 0 <= i < |cols|
      ensures DecodeRow(cols, rec)[i] == values[i] && FieldOk(cols[i], Field(rec, cols[i]))
    {
      var v := values[i];
      assert v in values;
      ValueRoundTrip(v, cols[i].len);
      RawCanonical(v, cols[i].len);
    }
  }

  /** With the widths that the schema fixes, a row is rejected only for its value count, a type or a long string. */
  lemma {:induction false} RowErrors(cols: seq<Column>, values: seq<Value>, k: nat)
    requires LaidOut(cols) && |values| == |cols| && k <= |cols|
    ensures RowError(cols, values, k) == None <==> forall i :: k <= i < |cols| ==> Fits(cols[i], values[i])
    ensures RowError(cols, values, k) in {None, Some(IncompatibleType), Some(StringOverflow)}
    decreases |cols| - k
  {
    if k < |cols| { RowErrors(cols, values, k + 1); }
  }

  /** Value k is the first that its column cannot hold: it has another type, or is a string that is too long. */
  ghost predicate FirstUnfit(cols: seq<Column>, values: seq<Value>, k: nat, e: Error) {
    && k < |cols| == |values| && !Fits(cols[k], values[k]) && (forall i :: 0 <= i < k ==> Fits(cols[i], values[i]))
    && e == if TypeOf(values[k]) != cols[k].ty then IncompatibleType else StringOverflow
  }

  /** A row is rejected for the number of its values, or else for the first value that its column cannot hold. */
  lemma RowErrorMeaning(cols: seq<Column>, values: seq<Value>)
    requires LaidOut(cols)
    ensures CheckRow(cols, values) == None <==>
      |values| == |cols| && forall i :: 0 <= i < |cols| ==> Fits(cols[i], values[i])
    ensures CheckRow(cols, values) == Some(InvalidValueCount) <==> |values| != |cols|
    ensures forall e :: |values| == |cols| ==>
      (CheckRow(cols, values) == Some(e) <==> exists k: nat :: FirstUnfit(cols, values, k, e))
  {
    if |values| == |cols| {
      RowErrors(cols, values, 0);
      var k := FirstError(cols, values, 0);
    }
  }

  lemma {:induction false} FirstError(cols: seq<Column>, values: seq<Value>, i: nat) returns (k: nat)
    requires LaidOut(cols) && |values| == |cols| && i <= |cols|
    requires forall j :: 0 <= j < i ==> Fits(cols[j], values[j])
    ensures RowError(cols, values, i) == None ==> k == |cols|
    ensures forall e :: RowError(cols, values, i) == Some(e) <==> FirstUnfit(cols, values, k, e)
    ensures forall j, e :: FirstUnfit(cols, values, j, e) ==> j == k
    decreases |cols| - i
  {
    k := i;
    if i < |cols| && Fits(cols[i], values[i]) { k := FirstError(cols, values, i + 1); }
  }

  predicate Fits(c: Column, v: Value) {
    TypeOf(v) == c.ty && (v.StringValue? ==> |v.s| <= c.len)
  }
}
