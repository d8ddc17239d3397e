/** The catalog file: printing the metadata of a database to a stream of characters and reading it back. */
module Catalog {
  import opened Common
  import opened Rows

  datatype TableMeta = TableMeta(name: string, cols: seq<Column>)

  datatype DbMeta = DbMeta(name: string, tabs: map<string, TableMeta>)

  const INT_MAX := 0x7fff_ffff
  const SIZE_MAX := 0xffff_ffff_ffff_ffff

  predicate IsSpace(c: char) {
    c == ' ' || c == '\n' || c == '\t' || c == '\r' || c == '\U{0B}' || c == '\U{0C}'
  }

  predicate IsDigit(c: char) {
    '0' <= c <= '9'
  }

  // ----- writing -----

  function Digit(d: nat): char
    requires d < 10
  {
    '0' + d as char
  }

  function Decimal(n: nat): (s: string)
    ensures s != [] && forall i :: 0 <= i < |s| ==> IsDigit(s[i])
  {
    if n < 10 then [Digit(n)] else Decimal(n / 10) + [Digit(n % 10)]
  }

  /** A word and the separator after it, before whatever is printed next. */
  function Put(word: string, sep: char, next: string): string {
    word + ([sep] + next)
  }

  function TypeCode(ty: ColumnType): nat {
    match ty
    case INT => 0
    case FLOAT => 1
    case STRING => 2
    case DATETIME => 3
  }

  function PutColumn(c: Column, next: string): string {
    Put(c.tab, ' ', Put(c.name, ' ', Put(Decimal(TypeCode(c.ty)), ' ',
      Put(Decimal(c.len), ' ', Put(Decimal(c.offset), ' ',
      Put(Decimal(if c.index then 1 else 0), '\n', next))))))
  }

  function PutColumns(cols: seq<Column>, next: string): string {
    if cols == [] then next else PutColumn(cols[0], PutColumns(cols[1..], next))
  }

  function PutTable(t: TableMeta, next: string): string {
    Put(t.name, '\n', Put(Decimal(|t.cols|), '\n', PutColumns(t.cols, next)))
  }

  /** The tables in some order, each followed by an empty line. */
  function PutTables(tabs: seq<TableMeta>, next: string): string {
    if tabs == [] then next else PutTable(tabs[0], ['\n'] + PutTables(tabs[1..], next))
  }

  /** The printed catalog; the map lists its tables in the given order. */
  function PutDb(db: DbMeta, tabs: seq<TableMeta>): string {
    Put(db.name, '\n', Put(Decimal(|tabs|), '\n', PutTables(tabs, [])))
  }

  // ----- what is written -----

  function Power10(k: nat): nat {
    if k == 0 then 1 else 10 * Power10(k - 1)
  }

  /** The number that a string of digits stands for, each digit counting by its place. */
  function ByPlace(s: string): nat
    requires forall i :: 0 <= i < |s| ==> IsDigit(s[i])
  {
    if s == [] then 0
    else
      var first := s[0];
      assert IsDigit(first);
      (first - '0') as nat * Power10(|s| - 1) + ByPlace(s[1..])
  }

  lemma {:induction false} ByPlaceAppend(s: string, d: char)
    requires (forall i :: 0 <= i < |s| ==> IsDigit(s[i])) && IsDigit(d)
    ensures forall i :: 0 <= i < |s| + 1 ==> IsDigit((s + [d])[i])
    ensures ByPlace(s + [d]) == 10 * ByPlace(s) + (d - '0') as nat
  {
    var t := s + [d];
    if s != [] {
      ByPlaceAppend(s[1..], d);
      assert t[1..] == s[1..] + [d];
      TimesTen((s[0] - '0') as nat, Power10(|s| - 1));
    } else {
      assert t[1..] == [];
    }
  }

  lemma TimesTen(a: nat, b: nat)
    ensures a * (10 * b) == 10 * (a * b)
  {
  }

  /** Numbers are printed in decimal without leading zeros. */
  lemma {:induction false} DecimalMeaning(n: nat)
    ensures ByPlace(Decimal(n)) == n && (n > 0 ==> Decimal(n)[0] != '0') && (n == 0 ==> Decimal(n) == "0")
    ensures n < 10 ==> |Decimal(n)| == 1
  {
    if n >= 10 {
      DecimalMeaning(n / 10);
      ByPlaceAppend(Decimal(n / 10), Digit(n % 10));
    } else {
      assert Decimal(n)[1..] == [];
    }
  }

  /** The line of a column: table, name, type as a number, length, offset and index flag, with blanks between them. */
  lemma ColumnText(c: Column, next: string)
    ensures PutColumn(c, next) == c.tab + " " + c.name + " " + (match c.ty
              case INT => "0"
              case FLOAT => "1"
              case STRING => "2"
              case DATETIME => "3")
              + " " + Decimal(c.len) + " " + Decimal(c.offset) + " " + (if c.index then "1" else "0") + "\n" + next
  {
    hide Decimal;
    SmallDecimals();
    var flag, ty := Decimal(if c.index then 1 else 0), Decimal(TypeCode(c.ty));
    var r5 := Put(flag, '\n', next);
    var r4 := Put(Decimal(c.offset), ' ', r5);
    var r3 := Put(Decimal(c.len), ' ', r4);
    var r2 := Put(ty, ' ', r3);
    Further("", c.tab, ' ', Put(c.name, ' ', r2));
    Further(c.tab + " ", c.name, ' ', r2);
    Further(c.tab + " " + c.name + " ", ty, ' ', r3);
    Further(c.tab + " " + c.name + " " + ty + " ", Decimal(c.len), ' ', r4);
    Further(c.tab + " " + c.name + " " + ty + " " + Decimal(c.len) + " ", Decimal(c.offset), ' ', r5);
    Further(c.tab + " " + c.name + " " + ty + " " + Decimal(c.len) + " " + Decimal(c.offset) + " ", flag, '\n', next);
  }

  lemma SmallDecimals()
    ensures Decimal(0) == "0" && Decimal(1) == "1" && Decimal(2) == "2" && Decimal(3) == "3"
  {
  }

  lemma Further(before: string, word: string, sep: char, next: string)
    ensures before + Put(word, sep, next) == before + word + [sep] + next
  {
  }

  /** The text of a table: its name and the number of its columns on lines of their own, then the columns. */
  lemma {:induction false} TableText(t: TableMeta, next: string)
    ensures PutTable(t, next) == t.name + "\n" + Decimal(|t.cols|) + "\n" + PutColumns(t.cols, next)
  {
    hide PutColumns, Decimal;
  }

  /** The catalog: the name of the database, the number of its tables, and the tables. */
  lemma {:induction false} DbText(db: DbMeta, tabs: seq<TableMeta>)
    ensures PutDb(db, tabs) == db.name + "\n" + Decimal(|tabs|) + "\n" + PutTables(tabs, [])
  {
    hide PutTables, Decimal;
  }

  /** Behind each table comes an empty line. */
  lemma TablesText(tabs: seq<TableMeta>)
    ensures forall k :: 0 <= k < |tabs| ==>
      PutTables(tabs[k..], []) == PutTable(tabs[k], "\n" + PutTables(tabs[k + 1..], []))
  {
    hide PutTable;
    forall k | 0 <= k < |tabs|
      ensures PutTables(tabs[k..], []) == PutTable(tabs[k], "\n" + PutTables(tabs[k + 1..], []))
    {
      assert tabs[k..][0] == tabs[k] && tabs[k..][1..] == tabs[k + 1..];
    }
  }

  // ----- reading -----

  function SkipSpace(s: string): string {
    if s != [] && IsSpace(s[0]) then SkipSpace(s[1..]) else s
  }

  function WordLength(s: string): (n: nat)
    ensures n <= |s| && (n < |s| ==> IsSpace(s[n])) && forall i :: 0 <= i < n ==> !IsSpace(s[i])
  {
    if s == [] || IsSpace(s[0]) then 0 else 1 + WordLength(s[1..])
  }

  function DigitsLength(s: string): (n: nat)
    ensures n <= |s| && (n < |s| ==> !IsDigit(s[n])) && forall i :: 0 <= i < n ==> IsDigit(s[i])
  {
    if s == [] || !IsDigit(s[0]) then 0 else 1 + DigitsLength(s[1..])
  }

  function Number(s: string): nat
    requires forall i :: 0 <= i < |s| ==> IsDigit(s[i])
  {
    if s == [] then 0
    else
      var last := s[|s| - 1];
      assert IsDigit(last);
      10 * Number(s[..|s| - 1]) + (last - '0') as nat
  }

  /** Reading a string: white space is skipped, then everything up to the next white space is taken. */
  function GetWord(s: string): Option<(string, string)> {
    var t := SkipSpace(s);
    var n := WordLength(t);
    if n == 0 then None else Some((t[..n], t[n..]))
  }

  /** Reading an unsigned number that must not exceed a limit. */
  function GetNumber(s: string, max: nat): Option<(nat, string)> {
    var t := SkipSpace(s);
    var n := DigitsLength(t);
    if n == 0 || Number(t[..n]) > max then None else Some((Number(t[..n]), t[n..]))
  }

  function TypeOfCode(code: nat): Option<ColumnType> {
    match code
    case 0 => Some(INT)
    case 1 => Some(FLOAT)
    case 2 => Some(STRING)
    case 3 => Some(DATETIME)
    case _ => None
  }

  function GetColumn(s: string): Option<(Column, string)> {
    var tab := GetWord(s);
    if tab.None? then None else
    var name := GetWord(tab.value.1);
    if name.None? then None else
    var code := GetNumber(name.value.1, INT_MAX);
    if code.None? || TypeOfCode(code.value.0).None? then None else
    var len := GetNumber(code.value.1, INT_MAX);
    if len.None? then None else
    var offset := GetNumber(len.value.1, INT_MAX);
    if offset.None? then None else
    var index := GetNumber(offset.value.1, 1);
    if index.None? then None else
    Some((Column(tab.value.0, name.value.0, TypeOfCode(code.value.0).value, len.value.0, offset.value.0,
      index.value.0 == 1),
          index.value.1))
  }

  function GetColumns(s: string, n: nat): Option<(seq<Column>, string)>
    decreases n
  {
    if n == 0 then Some(([], s))
    else
      var c := GetColumn(s);
      if c.None? then None else
      var cs := GetColumns(c.value.1, n - 1);
      if cs.None? then None else Some(([c.value.0] + cs.value.0, cs.value.1))
  }

  function GetTable(s: string): Option<(TableMeta, string)> {
    var name := GetWord(s);
    if name.None? then None else
    var n := GetNumber(name.value.1, SIZE_MAX);
    if n.None? then None else
    var cols := GetColumns(n.value.1, n.value.0);
    if cols.None? then None else Some((TableMeta(name.value.0, cols.value.0), cols.value.1))
  }

  /** Reads tables one after the other into a map under their names. */
  function GetTables(s: string, n: nat, tabs: map<string, TableMeta>): Option<map<string, TableMeta>>
    decreases n
  {
    if n == 0 then Some(tabs)
    else
      var t := GetTable(s);
      if t.None? then None else GetTables(t.value.1, n - 1, tabs[t.value.0.name := t.value.0])
  }

  function GetDb(s: string): Option<DbMeta> {
    var name := GetWord(s);
    if name.None? then None else
    var n := GetNumber(name.value.1, SIZE_MAX);
    if n.None? then None else
    var tabs := GetTables(n.value.1, n.value.0, map[]);
    if tabs.None? then None else Some(DbMeta(name.value.0, tabs.value))
  }

  /** The column loop of the table reader. */
  method ReadColumns(s: string, n: nat) returns (r: Option<(seq<Column>, string)>)
    ensures r == GetColumns(s, n)
  {
    hide GetColumn;
    var cols: seq<Column>, rest := [], s;
    assert GetColumns(s, n).Some? ==> cols + GetColumns(s, n).value.0 == GetColumns(s, n).value.0;
    for i := 0 to n
      invariant match GetColumns(rest, n - i)
                case None => GetColumns(s, n) == None
                case Some((cs, end)) => GetColumns(s, n) == Some((cols + cs, end))
    {
      var c := GetColumn(rest);
      if c.None? {
        return None;
      }
      ghost var tail := GetColumns(c.value.1, n - i - 1);
      if tail.Some? { assert cols + ([c.value.0] + tail.value.0) == cols + [c.value.0] + tail.value.0; }
      cols, rest := cols + [c.value.0], c.value.1;
    }
    assert cols + [] == cols;
    return Some((cols, rest));
  }

  /** The table loop of the database reader. */
  method ReadTables(s: string, n: nat) returns (r: Option<map<string, TableMeta>>)
    ensures r == GetTables(s, n, map[])
  {
    var tabs: map<string, TableMeta>, rest := map[], s;
    for i := 0 to n
      invariant GetTables(rest, n - i, tabs) == GetTables(s, n, map[])
    {
      var t := GetTable(rest);
      if t.None? {
        return None;
      }
      tabs, rest := tabs[t.value.0.name := t.value.0], t.value.1;
    }
    return Some(tabs);
  }

  // ----- what is read -----

  ghost predicate Blank(s: string, from: nat, to: nat) {
    from <= to <= |s| && forall i :: from <= i < to ==> IsSpace(s[i])
  }

  lemma {:induction false} SkipMeaning(s: string) returns (k: nat)
    ensures Blank(s, 0, k) && (k < |s| ==> !IsSpace(s[k])) && SkipSpace(s) == s[k..]
  {
    k := 0;
    if s != [] && IsSpace(s[0]) {
      var m := SkipMeaning(s[1..]);
      k := m + 1;
      forall i | 0 <= i < k ensures IsSpace(s[i]) {
        if i > 0 { assert s[i] == s[1..][i - 1]; }
      }
    }
  }

  /** A word is what lies between white space; there is none when nothing else is left. */
  lemma WordRead(s: string) returns (k: nat, m: nat)
    ensures k <= m <= |s| && Blank(s, 0, k) && (k < |s| ==> !IsSpace(s[k]))
    ensures (forall i :: k <= i < m ==> !IsSpace(s[i])) && (m < |s| ==> IsSpace(s[m]))
    ensures GetWord(s) == if k < m then Some((s[k..m], s[m..])) else None
  {
    k := SkipMeaning(s);
    m := k + WordLength(s[k..]);
    forall i | k <= i < m ensures !IsSpace(s[i]) { assert s[i] == s[k..][i - k]; }
    assert s[k..][..m - k] == s[k..m] && s[k..][m - k..] == s[m..];
  }

  lemma {:induction false} NumberByPlace(s: string)
    requires forall i :: 0 <= i < |s| ==> IsDigit(s[i])
    ensures Number(s) == ByPlace(s)
  {
    if s != [] {
      var n := |s| - 1;
      NumberByPlace(s[..n]);
      ByPlaceAppend(s[..n], s[n]);
      assert s[..n] + [s[n]] == s;
    }
  }

  ghost predicate AllDigits(s: string) {
    forall i :: 0 <= i < |s| ==> IsDigit(s[i])
  }

  /** A number is the digits behind the white space; there is none when no digit is there, or when it is too large. */
  lemma NumberRead(s: string, max: nat) returns (k: nat, m: nat)
    ensures k <= m <= |s| && Blank(s, 0, k) && (k < |s| ==> !IsSpace(s[k]))
    ensures AllDigits(s[k..m]) && (m < |s| ==> !IsDigit(s[m]))
    ensures GetNumber(s, max) ==
      if k < m && ByPlace(s[k..m]) <= max then Some((ByPlace(s[k..m]), s[m..])) else None
  {
    k := SkipMeaning(s);
    m := k + DigitsLength(s[k..]);
    forall i | 0 <= i < m - k ensures IsDigit(s[k..m][i]) { assert s[k..m][i] == s[k..][i]; }
    assert s[k..][..m - k] == s[k..m];
    NumberByPlace(s[k..m]);
  }

  // ----- the round trip -----

  /** Names that survive: not empty and without white space. */
  ghost predicate IsName(s: string) {
    s != [] && forall i :: 0 <= i < |s| ==> !IsSpace(s[i])
  }

  ghost predicate ColumnOk(c: Column) {
    IsName(c.tab) && IsName(c.name) && c.len <= 2147483647 && c.offset <= 2147483647
  }

  ghost predicate TableOk(t: TableMeta) {
    IsName(t.name) && |t.cols| <= SIZE_MAX && forall i :: 0 <= i < |t.cols| ==> ColumnOk(t.cols[i])
  }

  /** s is t, possibly after some white space. */
  ghost predicate Ahead(s: string, t: string) {
    |t| <= |s| && s[|s| - |t|..] == t && forall i :: 0 <= i < |s| - |t| ==> IsSpace(s[i])
  }

  lemma {:induction false} SkipAhead(s: string, t: string)
    requires Ahead(s, t) && (t == [] || !IsSpace(t[0]))
    ensures SkipSpace(s) == t
    decreases |s|
  {
    if |s| > |t| {
      assert IsSpace(s[0]);
      SkipAhead(s[1..], t);
    }
  }

  lemma GetWordPut(s: string, word: string, sep: char, next: string)
    requires IsName(word) && IsSpace(sep) && Ahead(s, Put(word, sep, next))
    ensures GetWord(s) == Some((word, [sep] + next)) && Ahead([sep] + next, next)
  {
    var t := Put(word, sep, next);
    assert t[0] == word[0];
    SkipAhead(s, t);
    forall i | 0 <= i < |word| ensures !IsSpace(t[i]) { assert t[i] == word[i]; }
    assert t[|word|] == sep;
    assert WordLength(t) == |word|;
    assert t[..|word|] == word && t[|word|..] == [sep] + next;
  }

  lemma {:induction false} NumberDecimal(n: nat)
    ensures Number(Decimal(n)) == n
  {
    if n < 10 {
      assert Decimal(n)[..0] == [];
    } else {
      NumberDecimal(n / 10);
      assert Decimal(n)[..|Decimal(n)| - 1] == Decimal(n / 10);
    }
  }

  lemma {:induction false} GetNumberPut(s: string, n: nat, max: nat, sep: char, next: string)
    requires IsSpace(sep) && Ahead(s, Put(Decimal(n), sep, next))
    ensures GetNumber(s, max) == (if n <= max then Some((n, [sep] + next)) else None) && Ahead([sep] + next, next)
  {
    var word, t := Decimal(n), Put(Decimal(n), sep, next);
    assert t[0] == word[0];
    SkipAhead(s, t);
    forall i | 0 <= i < |word| ensures IsDigit(t[i]) { assert t[i] == word[i]; }
    assert t[|word|] == sep;
    assert DigitsLength(t) == |word|;
    assert t[..|word|] == word && t[|word|..] == [sep] + next;
    NumberDecimal(n);
  }

  lemma GetColumnPut(s: string, c: Column, next: string) returns (rest: string)
    requires ColumnOk(c) && Ahead(s, PutColumn(c, next))
    ensures GetColumn(s) == Some((c, rest)) && Ahead(rest, next)
  {
    hide Put, GetWord, GetNumber, Ahead;
    var flag := if c.index then 1 else 0;
    var t6 := Put(Decimal(flag), '\n', next);
    var t5 := Put(Decimal(c.offset), ' ', t6);
    var t4 := Put(Decimal(c.len), ' ', t5);
    var t3 := Put(Decimal(TypeCode(c.ty)), ' ', t4);
    var t2 := Put(c.name, ' ', t3);
    GetWordPut(s, c.tab, ' ', t2);
    GetWordPut([' '] + t2, c.name, ' ', t3);
    GetNumberPut([' '] + t3, TypeCode(c.ty), INT_MAX, ' ', t4);
    GetNumberPut([' '] + t4, c.len, INT_MAX, ' ', t5);
    GetNumberPut([' '] + t5, c.offset, INT_MAX, ' ', t6);
    GetNumberPut([' '] + t6, flag, 1, '\n', next);
    rest := ['\n'] + next;
  }

  /** A length that an int cannot hold is not read. */
  lemma LengthTooLarge(s: string, c: Column, next: string)
    requires IsName(c.tab) && IsName(c.name) && c.len > 2147483647 && Ahead(s, PutColumn(c, next))
    ensures GetColumn(s) == None
  {
    hide Put, GetWord, GetNumber, Ahead;
    var t5 := Put(Decimal(c.offset), ' ', Put(Decimal(if c.index then 1 else 0), '\n', next));
    var t4 := Put(Decimal(c.len), ' ', t5);
    var t3 := Put(Decimal(TypeCode(c.ty)), ' ', t4);
    var t2 := Put(c.name, ' ', t3);
    GetWordPut(s, c.tab, ' ', t2);
    GetWordPut([' '] + t2, c.name, ' ', t3);
    GetNumberPut([' '] + t3, TypeCode(c.ty), INT_MAX, ' ', t4);
    GetNumberPut([' '] + t4, c.len, INT_MAX, ' ', t5);
  }

  lemma {:induction false} GetColumnsPut(s: string, cols: seq<Column>, next: string) returns (rest: string)
    requires (forall i :: 0 <= i < |cols| ==> ColumnOk(cols[i])) && Ahead(s, PutColumns(cols, next))
    ensures GetColumns(s, |cols|) == Some((cols, rest)) && Ahead(rest, next)
    decreases |cols|
  {
    if cols == [] {
      rest := s;
    } else {
      var mid := GetColumnPut(s, cols[0], PutColumns(cols[1..], next));
      rest := GetColumnsPut(mid, cols[1..], next);
      assert [cols[0]] + cols[1..] == cols;
    }
  }

  lemma GetTablePut(s: string, t: TableMeta, next: string) returns (rest: string)
    requires TableOk(t) && Ahead(s, PutTable(t, next))
    ensures GetTable(s) == Some((t, rest)) && Ahead(rest, next)
  {
    var t2 := PutColumns(t.cols, next);
    var t1 := Put(Decimal(|t.cols|), '\n', t2);
    GetWordPut(s, t.name, '\n', t1);
    GetNumberPut(['\n'] + t1, |t.cols|, SIZE_MAX, '\n', t2);
    rest := GetColumnsPut(['\n'] + t2, t.cols, next);
  }

  function Listed(tabs: seq<TableMeta>, m: map<string, TableMeta>): map<string, TableMeta> {
    if tabs == [] then m else Listed(tabs[1..], m[tabs[0].name := tabs[0]])
  }

  lemma AheadMore(s: string, next: string)
    requires Ahead(s, ['\n'] + next)
    ensures Ahead(s, next)
  {
    var k := |s| - |next|;
    assert s[k - 1..] == ['\n'] + next;
    assert s[k..] == s[k - 1..][1..] == next;
    assert s[k - 1] == s[k - 1..][0] == '\n';
  }

  lemma {:induction false} GetTablesPut(s: string, tabs: seq<TableMeta>, m: map<string, TableMeta>)
    requires (forall i :: 0 <= i < |tabs| ==> TableOk(tabs[i])) && Ahead(s, PutTables(tabs, []))
    ensures GetTables(s, |tabs|, m) == Some(Listed(tabs, m))
    decreases |tabs|
  {
    if tabs != [] {
      var rest := GetTablePut(s, tabs[0], ['\n'] + PutTables(tabs[1..], []));
      AheadMore(rest, PutTables(tabs[1..], []));
      GetTablesPut(rest, tabs[1..], m[tabs[0].name := tabs[0]]);
    }
  }

  /** tabs lists the tables of the map, each once, under their names. */
  ghost predicate Lists(tabs: seq<TableMeta>, m: map<string, TableMeta>) {
    && (forall i, j :: 0 <= i < j < |tabs| ==> tabs[i].name != tabs[j].name)
    && (forall i :: 0 <= i < |tabs| ==> tabs[i].name in m && m[tabs[i].name] == tabs[i])
    && (forall name :: name in m ==> exists i :: 0 <= i < |tabs| && tabs[i].name == name)
  }

  lemma {:induction false} ListedAll(tabs: seq<TableMeta>, m: map<string, TableMeta>, name: string)
    requires forall i, j :: 0 <= i < j < |tabs| ==> tabs[i].name != tabs[j].name
    ensures (name in Listed(tabs, m)) <==> name in m || exists i :: 0 <= i < |tabs| && tabs[i].name == name
    ensures forall i :: 0 <= i < |tabs| && tabs[i].name == name ==> Listed(tabs, m)[name] == tabs[i]
    ensures name in m && (forall i :: 0 <= i < |tabs| ==> tabs[i].name != name) ==> Listed(tabs, m)[name] == m[name]
    decreases |tabs|
  {
    if tabs != [] {
      var m' := m[tabs[0].name := tabs[0]];
      ListedAll(tabs[1..], m', name);
      forall i | 0 <= i < |tabs| && tabs[i].name == name ensures Listed(tabs, m)[name] == tabs[i] {
        if i > 0 { assert tabs[1..][i - 1] == tabs[i]; }
      }
      if exists i :: 0 <= i < |tabs[1..]| && tabs[1..][i].name == name {
        var i :| 0 <= i < |tabs[1..]| && tabs[1..][i].name == name;
        assert tabs[i + 1].name == name;
      }
    }
  }

  /** Reading a printed catalog gives it back, in whatever order the tables were printed. */
  lemma CatalogRoundTrip(db: DbMeta, tabs: seq<TableMeta>)
    requires IsName(db.name) && |tabs| <= SIZE_MAX && Lists(tabs, db.tabs)
    requires forall i :: 0 <= i < |tabs| ==> TableOk(tabs[i])
    ensures GetDb(PutDb(db, tabs)) == Some(db)
  {
    var t2 := PutTables(tabs, []);
    var t1 := Put(Decimal(|tabs|), '\n', t2);
    GetWordPut(PutDb(db, tabs), db.name, '\n', t1);
    GetNumberPut(['\n'] + t1, |tabs|, SIZE_MAX, '\n', t2);
    GetTablesPut(['\n'] + t2, tabs, map[]);
    var got := Listed(tabs, map[]);
    forall name ensures (name in got <==> name in db.tabs) && (name in got ==> got[name] == db.tabs[name]) {
      ListedAll(tabs, map[], name);
    }
    assert got == db.tabs;
  }
}
