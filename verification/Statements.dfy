/** The statements that change a table: insert, delete, update, and creating and dropping an index. */
module Statements {
  import opened Common
  import opened Seqs
  import opened KeyOrder
  import opened IndexHandler
  import opened RecordFile
  import opened Rows
  import opened Conditions
  import opened WhereClause
  import opened Meaning
  import opened TableIndexes
  import opened Tables
  import opened TableScan
  import opened IndexUpkeep
  import opened Layout

  function SetOf(rids: seq<RecordID>): set<RecordID> {
    set r | r in rids
  }

  lemma SetOfNext(rids: seq<RecordID>, i: nat)
    requires i < |rids| && NoDup(rids)
    ensures SetOf(rids[..i + 1]) == SetOf(rids[..i]) + {rids[i]} && rids[i] !in SetOf(rids[..i])
  {
    assert rids[..i + 1] == rids[..i] + [rids[i]];
    forall k | 0 <= k < i ensures rids[..i][k] != rids[i] { NoDupAt(rids, k, i); }
  }

  // ----- create table -----

  lemma SchemaWith(schema: Schema, name: string, cols: seq<Column>)
    requires LaidOut(cols) && forall i :: 0 <= i < |cols| ==> cols[i].tab == name
    ensures SchemaOk(schema) ==> SchemaOk(schema[name := cols])
  {
  }

  method SumOfLengths(defs: seq<ColumnDef>) returns (recordSize: int)
    ensures recordSize == TotalSize(defs) && (defs == [] ==> recordSize == 0)
  {
    recordSize := 0;
    for i := 0 to |defs|
      invariant recordSize == TotalSize(defs[..i])
    {
      assert defs[..i + 1][..i] == defs[..i];
      recordSize := recordSize + defs[i].len;
    }
    assert defs[..|defs|] == defs;
  }

  /** create_table: a new, empty table, unless the name is taken or the record size is out of range. */
  method CreateTable(schema: Schema, name: string, defs: seq<ColumnDef>) returns (r: Result<Table>, schema': Schema)
    requires name !in schema && 1 <= TotalSize(defs) <= MAX_RECORD_SIZE ==>
      forall i :: 0 <= i < |defs| ==> DefOk(defs[i])
    ensures r.Err? && r.error == TableExists <==> name in schema
    ensures r.Err? && r.error == InvalidRecordSize <==> name !in schema && !(1 <= TotalSize(defs) <= 512)
    ensures r.Err? ==> r.error in {TableExists, InvalidRecordSize}
    ensures r.Ok? ==> fresh(r.value) && r.value.Valid() && r.value.Recs() == map[] && r.value.indexes == map[]
    ensures r.Ok? ==> r.value.name == name && |r.value.cols| == |defs|
    ensures r.Ok? ==> forall i :: 0 <= i < |defs| ==> DefinedAs(r.value.cols[i], name, defs[i])
    ensures schema' == if r.Ok? then schema[name := r.value.cols] else schema
    ensures SchemaOk(schema) ==> SchemaOk(schema')
  {
    hide Table.Valid, LaidOut, TotalSize, SchemaOk, Table.Recs, DefinedAs;
    if name in schema {
      return Err(TableExists), schema;
    }
    var recordSize := SumOfLengths(defs);
    if recordSize < 1 || recordSize > MAX_RECORD_SIZE {
      return Err(InvalidRecordSize), schema;
    }
    var table := new Table(name, defs);
    table.Parts();
    SchemaWith(schema, name, table.cols);
    return Ok(table), schema[name := table.cols];
  }

  // ----- insert -----

  /** insert_into: a row is rejected without a change, or stored under a record id not in use. */
  method InsertInto(table: Table, values: seq<Value>) returns (r: Result<RecordID>)
    requires table.Valid() && forall v :: v in values ==> WellMade(v) && Number(v)
    modifies table.Storage()
    ensures table.Valid() && table.cols == old(table.cols) && table.indexes == old(table.indexes)
    ensures r.Err? <==> CheckRow(table.cols, values) != None
    ensures r.Ok? <==>
      |values| == |table.cols| && forall i :: 0 <= i < |values| ==> Fits(table.cols[i], values[i])
    ensures r.Err? ==> CheckRow(table.cols, values) == Some(r.error) && unchanged(table) && unchanged(table.file)
    ensures r.Err? ==> forall i :: i in table.indexes ==> unchanged(table.indexes[i])
    ensures r.Ok? ==> r.value !in old(table.Recs()) && r.value in table.Recs()
    ensures r.Ok? ==> table.Recs() == old(table.Recs())[r.value := table.Recs()[r.value]]
    ensures r.Ok? ==>
      Encodes(table.cols, values, table.Recs()[r.value]) && DecodeRow(table.cols, table.Recs()[r.value]) == values
  {
    hide Table.Valid, IndexAgrees, RecordFile.Valid, RecordFile.Contents, RowOk, Encodes, DecodeRow;
    table.Parts();
    RowErrorMeaning(table.cols, values);
    var enc := EncodeRow(table.cols, values);
    if enc.Err? {
      return Err(enc.error);
    }
    var rec := enc.value;
    RowRoundTrip(table.cols, values, rec);
    ghost var recs := table.Recs();
    var rid := table.file.InsertRecord(rec);
    InsertIntoIndexes(table.cols, table.indexes, rid, rec, recs);
    table.Whole();
    return Ok(rid);
  }

  // ----- the rows a statement concerns -----

  /** The record ids of the rows that satisfy the conditions, each once. */
  method CollectRids(table: Table, conds: seq<Condition>) returns (rids: seq<RecordID>)
    requires table.Valid() && Ready(table.cols, conds)
    ensures NoDup(rids) && SetOf(rids) == Qualified(table.cols, table.Recs(), conds)
  {
    hide TableNode.Linked, TableNode.ScanOk, Table.Valid, Table.Holding, Qualified, Ready, RecordFile.Contents;
    OwnConds(table, conds);
    ghost var store := table.Storage();
    ghost var want := Qualified(table.cols, table.Recs(), conds);
    var scan := new TableNode(table, conds, store);
    assert scan.fedConds == conds;
    scan.Begin();
    rids := [];
    assert SetOf(rids) == {};
    while !scan.IsEnd()
      invariant scan.Open() && fresh(scan.Repr) && scan.Repr !! store
      invariant NoDup(rids) && SetOf(rids) !! scan.todo && SetOf(rids) + scan.todo == want
      decreases scan.todo
    {
      NoDupConcat(rids, [scan.rid]);
      assert SetOf(rids + [scan.rid]) == SetOf(rids) + {scan.rid};
      rids := rids + [scan.rid];
      scan.Next();
    }
  }

  lemma OwnConds(table: Table, conds: seq<Condition>)
    requires table.Valid() && Ready(table.cols, conds)
    ensures forall c :: c in conds ==> c.lhs.tab == table.name && SwapOnto(table.name, c) == c
    ensures table.Holding(table.Storage(), table.cols, table.Recs())
  {
    forall c | c in conds ensures c.lhs.tab == table.name {
      assert table.cols[FindCol(table.cols, c.lhs)].tab == table.name;
    }
  }

  ghost function Targets(table: Table, conds: seq<Condition>): set<RecordID>
    reads table.Storage()
  {
    Qualified(table.cols, table.Recs(), conds)
  }

  // ----- delete -----

  /** Takes the entries of the given rows out of every index. */
  method UnindexRows(table: Table, rids: seq<RecordID>)
    requires table.Valid() && NoDup(rids) && SetOf(rids) <= table.Recs().Keys
    modifies table.indexes.Values
    ensures AllAgree(table.cols, table.indexes, table.Recs() - SetOf(rids))
  {
    hide Table.Valid, IndexAgrees, RecordFile.Valid, RecordFile.Contents, RowOk;
    table.Parts();
    ghost var recs := table.Recs();
    assert recs - SetOf(rids[..0]) == recs;
    for i := 0 to |rids|
      invariant AllAgree(table.cols, table.indexes, recs - SetOf(rids[..i]))
    {
      SetOfNext(rids, i);
      assert recs - SetOf(rids[..i + 1]) == (recs - SetOf(rids[..i])) - {rids[i]};
      assert rids[i] in SetOf(rids);
      var rec := ReadRow(table.file, rids[i]);
      DeleteFromIndexes(table.cols, table.indexes, rids[i], rec, recs - SetOf(rids[..i]));
    }
    assert rids[..|rids|] == rids;
  }

  /** Takes the given rows out of the record file. */
  method DeleteRows(file: RecordFile, rids: seq<RecordID>) returns (affected: nat)
    requires file.Valid() && NoDup(rids) && SetOf(rids) <= file.Contents().Keys
    modifies file
    ensures file.Valid() && file.Contents() == old(file.Contents()) - SetOf(rids) && affected == |rids|
  {
    hide RecordFile.Valid, RecordFile.Contents;
    affected := 0;
    ghost var recs := file.Contents();
    assert recs - SetOf(rids[..0]) == recs;
    for i := 0 to |rids|
      invariant file.Valid() && affected == i && file.Contents() == recs - SetOf(rids[..i])
    {
      SetOfNext(rids, i);
      assert recs - SetOf(rids[..i + 1]) == (recs - SetOf(rids[..i])) - {rids[i]};
      assert rids[i] in SetOf(rids);
      LiveInRange(file, rids[i]);
      var found := file.DeleteRecord(rids[i]);
      affected := affected + 1;
    }
    assert rids[..|rids|] == rids;
  }

  lemma LiveInRange(file: RecordFile, rid: RecordID)
    requires rid in file.Contents()
    ensures InRange(file.hdr, rid)
  {
    RecordsAt(file.hdr, file.pages, rid);
  }

  /** The body of delete_from: exactly the qualifying rows go, from the record file and from every index. */
  method DeleteQualified(table: Table, conds: seq<Condition>) returns (affected: nat)
    requires table.Valid() && Ready(table.cols, conds)
    modifies table.Storage()
    ensures table.Valid() && table.cols == old(table.cols) && table.indexes == old(table.indexes)
    ensures table.Recs() == old(table.Recs()) - old(Targets(table, conds))
    ensures affected == |old(Targets(table, conds))|
  {
    hide Table.Valid, IndexAgrees, RecordFile.Valid, RecordFile.Contents, RowOk, Qualified, Ready;
    var rids := CollectRids(table, conds);
    table.Parts();
    QualifiedExist(table.cols, table.Recs(), conds);
    UnindexRows(table, rids);
    affected := DeleteRows(table.file, rids);
    table.Whole();
    CardinalityOf(rids);
  }

  lemma {:induction false} CardinalityOf(rids: seq<RecordID>)
    requires NoDup(rids)
    ensures |SetOf(rids)| == |rids|
  {
    if rids != [] {
      var n := |rids| - 1;
      SetOfNext(rids, n);
      assert rids[..n + 1] == rids;
      CardinalityOf(rids[..n]);
    }
  }

  // ----- update -----

  /** A new value, in raw form, for a column given by position. */
  datatype Assign = Assign(col: nat, raw: Bytes)

  ghost predicate AssignOk(cols: seq<Column>, a: Assign) {
    a.col < |cols| && |a.raw| == cols[a.col].len && FieldOk(cols[a.col], a.raw)
  }

  ghost predicate AssignsOk(cols: seq<Column>, assigns: seq<Assign>) {
    LaidOut(cols) && forall a :: a in assigns ==> AssignOk(cols, a)
  }

  /** The value that the last assignment to column i gives; the old field when there is none. */
  function NewField(assigns: seq<Assign>, i: nat, field: Bytes): Bytes {
    if assigns == [] then field
    else if assigns[|assigns| - 1].col == i then assigns[|assigns| - 1].raw
    else NewField(assigns[..|assigns| - 1], i, field)
  }

  /** rec' is rec with the assignments applied: nothing but the fields assigned to differs. */
  ghost predicate Rewritten(cols: seq<Column>, assigns: seq<Assign>, rec: Bytes, rec': Bytes) {
    && |rec'| == |rec|
    && (forall i :: 0 <= i < |cols| ==> Field(rec', cols[i]) == NewField(assigns, i, Field(rec, cols[i])))
  }

  /** The copying of the new values into the record buffer. */
  method ApplyAssigns(cols: seq<Column>, assigns: seq<Assign>, rec: Bytes) returns (r: Bytes)
    requires AssignsOk(cols, assigns) && RowOk(cols, rec)
    ensures Rewritten(cols, assigns, rec, r) && RowOk(cols, r)
  {
    r := rec;
    for k := 0 to |assigns|
      invariant Rewritten(cols, assigns[..k], rec, r) && RowOk(cols, r)
    {
      var a := assigns[k];
      assert a in assigns && AssignOk(cols, a);
      StoreField(r, cols, a.col, a.raw);
      assert assigns[..k + 1][..k] == assigns[..k];
      r := Store(r, cols[a.col], a.raw);
    }
    assert assigns[..|assigns|] == assigns;
  }

  /** The k-th assignment is the last one to column i. */
  ghost predicate LastTo(assigns: seq<Assign>, i: nat, k: nat) {
    k < |assigns| && assigns[k].col == i && forall m :: k < m < |assigns| ==> assigns[m].col != i
  }

  lemma {:induction false} LastWins(assigns: seq<Assign>, i: nat, k: nat, field: Bytes)
    requires LastTo(assigns, i, k)
    ensures NewField(assigns, i, field) == assigns[k].raw
  {
    var n := |assigns| - 1;
    if k < n {
      assert assigns[n].col != i;
      LastWins(assigns[..n], i, k, field);
    }
  }

  /** In a rewritten record a column has the bytes of the last assignment to it, and a column without assignment those
      it had. */
  lemma RewrittenFields(cols: seq<Column>, assigns: seq<Assign>, rec: Bytes, rec': Bytes, i: nat)
    requires Rewritten(cols, assigns, rec, rec') && i < |cols|
    ensures forall k: nat :: LastTo(assigns, i, k) ==> Field(rec', cols[i]) == assigns[k].raw
    ensures (forall k :: 0 <= k < |assigns| ==> assigns[k].col != i) ==> Field(rec', cols[i]) == Field(rec, cols[i])
  {
    forall k: nat | LastTo(assigns, i, k) ensures Field(rec', cols[i]) == assigns[k].raw {
      LastWins(assigns, i, k, Field(rec, cols[i]));
    }
    if forall k :: 0 <= k < |assigns| ==> assigns[k].col != i { FieldKept(assigns, i, Field(rec, cols[i])); }
  }

  /** Two records with the same fields are the same record. */
  lemma FieldsDetermine(cols: seq<Column>, a: Bytes, b: Bytes)
    requires LaidOut(cols) && |a| == RecordSize(cols) == |b|
    requires forall i :: 0 <= i < |cols| ==> Field(a, cols[i]) == Field(b, cols[i])
    ensures a == b
  {
    forall x: nat | x < |a| ensures a[x] == b[x] {
      var i := ColumnsPartitionRecord(cols, x);
      InsideRecord(cols, i);
      assert Field(a, cols[i])[x - cols[i].offset] == a[x];
      assert Field(b, cols[i])[x - cols[i].offset] == b[x];
    }
  }

  /** The assignments leave no choice about the record. */
  lemma RewrittenUnique(cols: seq<Column>, assigns: seq<Assign>, rec: Bytes, a: Bytes, b: Bytes)
    requires LaidOut(cols) && RowOk(cols, rec) && Rewritten(cols, assigns, rec, a) && Rewritten(cols, assigns, rec, b)
    ensures a == b
  {
    FieldsDetermine(cols, a, b);
  }

  /** now is was with the rows of done rewritten and the others untouched. */
  ghost predicate RowsRewritten(cols: seq<Column>, assigns: seq<Assign>, done: set<RecordID>, was: Records,
                                now: Records) {
    && now.Keys == was.Keys
    && (forall r :: r in was && r in done ==> Rewritten(cols, assigns, was[r], now[r]))
    && (forall r :: r in was && r !in done ==> now[r] == was[r])
  }

  /** The indexes of the columns assigned to. */
  method IndexesToUpdate(cols: seq<Column>, indexes: map<nat, IndexHandle>,
                         assigns: seq<Assign>) returns (ihs: map<nat, IndexHandle>)
    requires Flagged(cols, indexes)
    ensures forall i: nat :: i in ihs ==> i in indexes && ihs[i] == indexes[i]
    ensures forall k :: 0 <= k < |assigns| && assigns[k].col in indexes ==> assigns[k].col in ihs
  {
    ihs := map[];
    for k := 0 to |assigns|
      invariant forall i: nat :: i in ihs ==> i in indexes && ihs[i] == indexes[i]
      invariant forall j :: 0 <= j < k && assigns[j].col in indexes ==> assigns[j].col in ihs
    {
      var i := assigns[k].col;
      if i in indexes && i !in ihs {
        ihs := ihs[i := indexes[i]];
      }
    }
  }

  lemma {:induction false} FieldKept(assigns: seq<Assign>, i: nat, field: Bytes)
    requires forall k :: 0 <= k < |assigns| ==> assigns[k].col != i
    ensures NewField(assigns, i, field) == field
  {
    if assigns != [] { FieldKept(assigns[..|assigns| - 1], i, field); }
  }

  /** An index on a column without assignment agrees with the rewritten row as it is. */
  lemma OtherIndexAgrees(ih: IndexHandle, cols: seq<Column>, assigns: seq<Assign>, i: nat, recs: Records,
                         rid: RecordID, rec: Bytes)
    requires i < |cols| && IndexAgrees(ih, cols[i], recs) && rid in recs && Rewritten(cols, assigns, recs[rid], rec)
    requires forall k :: 0 <= k < |assigns| ==> assigns[k].col != i
    ensures IndexAgrees(ih, cols[i], recs[rid := rec])
  {
    FieldKept(assigns, i, Field(recs[rid], cols[i]));
    MirrorFrame(ih.Contents(), recs, recs[rid := rec], cols[i]);
  }

  /** The update of one row: entries out, record rewritten, entries in. */
  method UpdateRow(table: Table, ihs: map<nat, IndexHandle>, assigns: seq<Assign>, rid: RecordID)
    requires table.Valid() && rid in table.Recs() && AssignsOk(table.cols, assigns)
    requires forall i: nat :: i in ihs ==> i in table.indexes && ihs[i] == table.indexes[i]
    requires forall k :: 0 <= k < |assigns| && assigns[k].col in table.indexes ==> assigns[k].col in ihs
    modifies table.Storage()
    ensures table.Valid() && table.cols == old(table.cols) && table.indexes == old(table.indexes)
    ensures rid in table.Recs() && table.Recs() == old(table.Recs())[rid := table.Recs()[rid]]
    ensures Rewritten(table.cols, assigns, old(table.Recs())[rid], table.Recs()[rid])
  {
    hide Table.Valid, IndexAgrees, RecordFile.Valid, RecordFile.Contents, RowOk, AssignsOk, Rewritten;
    table.Parts();
    ghost var recs, cols := table.Recs(), table.cols;
    var rec := ReadRow(table.file, rid);
    DeleteFromIndexes(table.cols, ihs, rid, rec, recs);
    var rec' := ApplyAssigns(table.cols, assigns, rec);
    LiveInRange(table.file, rid);
    var found := table.file.UpdateRecord(rid, rec');
    InsertIntoIndexes(table.cols, ihs, rid, rec', recs - {rid});
    assert (recs - {rid})[rid := rec'] == recs[rid := rec'];
    forall i: nat | i in table.indexes && i !in ihs
      ensures IndexAgrees(table.indexes[i], table.cols[i], recs[rid := rec'])
    {
      OtherIndexAgrees(table.indexes[i], cols, assigns, i, recs, rid, rec');
    }
    table.Whole();
  }

  /** The body of update_set: each row that qualified beforehand is rewritten once, whatever its new key. */
  method UpdateQualified(table: Table, assigns: seq<Assign>, conds: seq<Condition>) returns (affected: nat)
    requires table.Valid() && Ready(table.cols, conds) && AssignsOk(table.cols, assigns)
    modifies table.Storage()
    ensures table.Valid() && table.cols == old(table.cols) && table.indexes == old(table.indexes)
    ensures RowsRewritten(table.cols, assigns, old(Targets(table, conds)), old(table.Recs()), table.Recs())
    ensures affected == |old(Targets(table, conds))|
  {
    hide Table.Valid, IndexAgrees, RecordFile.Valid, RecordFile.Contents, RowOk, AssignsOk, Rewritten, Qualified, Ready;
    var rids := CollectRids(table, conds);
    QualifiedExist(table.cols, table.Recs(), conds);
    table.Parts();
    var ihs := IndexesToUpdate(table.cols, table.indexes, assigns);
    affected := 0;
    ghost var recs := table.Recs();
    for i := 0 to |rids|
      invariant table.Valid() && table.cols == old(table.cols) && table.indexes == old(table.indexes)
      invariant affected == i && RowsRewritten(table.cols, assigns, SetOf(rids[..i]), recs, table.Recs())
    {
      SetOfNext(rids, i);
      assert rids[i] in SetOf(rids);
      UpdateRow(table, ihs, assigns, rids[i]);
      affected := affected + 1;
    }
    assert rids[..|rids|] == rids;
    CardinalityOf(rids);
  }

  // ----- the statements as parsed -----

  /** The table is the schema's, and no condition on it compares a column with a narrower one. */
  ghost predicate Checkable(schema: Schema, table: Table, where: seq<ParsedCond>)
    reads table
  {
    && SchemaOk(schema) && table.name != "" && table.name in schema && schema[table.name] == table.cols
    && FromSchema(schema, table.cols)
    && (forall c :: c in where ==> ProperLiteral(c) && (CheckCond(schema, table.cols, c).Ok? ==>
        WidthsFit(schema, table.name, CheckCond(schema, table.cols, c).value)))
  }

  ghost predicate WidthsFit(schema: Schema, name: string, c: Condition) {
    WellTyped(schema, c) && Solved([name], c) && c.rhs.ColumnOf? ==>
      ColumnIn(schema, c.lhs).len <= ColumnIn(schema, c.rhs.col).len
  }

  lemma CheckedReady(schema: Schema, table: Table, where: seq<ParsedCond>, conds: seq<Condition>)
    requires Checkable(schema, table, where) && CheckedAs(schema, table.cols, where, conds)
    requires forall c :: c in conds ==> Solved([table.name], c)
    ensures Ready(table.cols, conds)
  {
    forall c | c in conds ensures Evaluable(table.cols, c) && NumberRhs(c) {
      var i :| 0 <= i < |conds| && conds[i] == c;
      assert where[i] in where;
      CheckedWellTyped(schema, table.cols, where[i]);
    }
  }

  /** The run-time check of the scan: conditions that mention another table fail before anything has changed. */
  method OwnConditions(schema: Schema, table: Table, where: seq<ParsedCond>, conds: seq<Condition>)
    returns (ok: bool)
    requires Checkable(schema, table, where) && CheckedAs(schema, table.cols, where, conds)
    ensures ok <==> WhereOk(schema, [table.name], table.cols, where)
    ensures ok ==> Ready(table.cols, conds)
  {
    hide CheckCond, SchemaOk, FromSchema, WellTyped, Solved, Ready;
    SolvedWhere(schema, [table.name], table.cols, where, conds);
    for i := 0 to |conds|
      invariant forall k :: 0 <= k < i ==> Solved([table.name], conds[k])
    {
      if !Solved([table.name], conds[i]) {
        return false;
      }
    }
    CheckedReady(schema, table, where, conds);
    return true;
  }

  /** The rows of which the where clause holds, by their values. */
  ghost function Chosen(schema: Schema, cols: seq<Column>, recs: Records, where: seq<ParsedCond>): set<RecordID> {
    set r | r in recs && WhereHolds(schema, cols, where, RowOf(cols, recs[r]))
  }

  /** The rows that qualify under the checked conditions are those of which the where clause holds. */
  lemma QualifiedChosen(schema: Schema, table: Table, where: seq<ParsedCond>, conds: seq<Condition>)
    requires table.Valid() && Checkable(schema, table, where) && WhereOk(schema, [table.name], table.cols, where)
    requires CheckedAs(schema, table.cols, where, conds) && Ready(table.cols, conds)
    ensures Targets(table, conds) == Chosen(schema, table.cols, table.Recs(), where)
  {
    hide CheckedAs, WhereOk, Ready, WhereHolds, RowOf, RowOk, AllHold, Table.Valid, Solved;
    var recs := table.Recs();
    SolvedWhere(schema, [table.name], table.cols, where, conds);
    table.Parts();
    forall r | r in recs
      ensures AllHold(Dict(table.cols, recs[r]), conds) <==>
        WhereHolds(schema, table.cols, where, RowOf(table.cols, recs[r]))
    {
      ReadyEvaluable(table.cols, conds);
      TableMeaning(schema, table.name, table.cols, where, conds, recs[r]);
    }
  }

  lemma ReadyEvaluable(cols: seq<Column>, conds: seq<Condition>)
    requires Ready(cols, conds)
    ensures AllEvaluable(cols, conds)
  {
  }

  /** Why a deletion fails: the first error of the where clause, or its foreign tables when it has none. */
  ghost predicate DeleteError(schema: Schema, cols: seq<Column>, where: seq<ParsedCond>, e: Error)
    requires SchemaOk(schema) && FromSchema(schema, cols)
  {
    if !AllChecked(schema, cols, where) then WhereError(schema, cols, where, e) else e == AssertionFailed
  }

  /** delete_from. */
  method DeleteFrom(schema: Schema, table: Table, where: seq<ParsedCond>) returns (r: Result<nat>,
                    ghost conds: seq<Condition>)
    requires table.Valid() && Checkable(schema, table, where)
    modifies table.Storage()
    ensures table.Valid() && table.cols == old(table.cols) && table.indexes == old(table.indexes)
    ensures r.Ok? <==> WhereOk(schema, [table.name], table.cols, where)
    ensures r.Err? ==> unchanged(table) && unchanged(table.file) && DeleteError(schema, table.cols, where, r.error)
    ensures r.Err? ==> forall i :: i in table.indexes ==> unchanged(table.indexes[i])
    ensures r.Ok? ==> CheckedAs(schema, table.cols, where, conds) && Ready(table.cols, conds)
    ensures r.Ok? ==> old(Targets(table, conds)) == Chosen(schema, table.cols, old(table.Recs()), where)
    ensures r.Ok? ==> r.value == |old(Targets(table, conds))|
    ensures r.Ok? ==> table.Recs() == old(table.Recs()) - old(Targets(table, conds))
  {
    hide Table.Valid, Ready, Targets, RecordFile.Contents, CheckCond, Chosen;
    var checked := CheckWhere(schema, table.cols, where);
    if checked.Err? {
      return Err(checked.error), [];
    }
    var own := OwnConditions(schema, table, where, checked.value);
    if !own {
      return Err(AssertionFailed), [];
    }
    conds := checked.value;
    QualifiedChosen(schema, table, where, conds);
    var affected := DeleteQualified(table, checked.value);
    return Ok(affected), conds;
  }

  datatype SetClause = SetClause(col: string, val: Value)

  /** One round of the set-clause check of update_set. */
  function CheckSet(tab: string, cols: seq<Column>, s: SetClause): Result<Assign> {
    var k := FindCol(cols, TabCol(tab, s.col));
    if k == |cols| then Err(ColumnNotFound)
    else if cols[k].ty != TypeOf(s.val) then Err(IncompatibleType)
    else
      var raw := InitRaw(s.val, cols[k].len);
      if raw.Err? then Err(raw.error) else Ok(Assign(k, raw.value))
  }

  ghost predicate SetsTo(tab: string, cols: seq<Column>, sets: seq<SetClause>, assigns: seq<Assign>) {
    |assigns| == |sets| && forall i :: 0 <= i < |sets| ==> CheckSet(tab, cols, sets[i]) == Ok(assigns[i])
  }

  ghost predicate SetsOk(tab: string, cols: seq<Column>, sets: seq<SetClause>) {
    forall i :: 0 <= i < |sets| ==> CheckSet(tab, cols, sets[i]).Ok?
  }

  /** The error is that of the first set clause that fails. */
  ghost predicate SetError(tab: string, cols: seq<Column>, sets: seq<SetClause>, e: Error) {
    exists i :: 0 <= i < |sets| && CheckSet(tab, cols, sets[i]) == Err(e)
      && forall k :: 0 <= k < i ==> CheckSet(tab, cols, sets[k]).Ok?
  }

  lemma CheckedSet(tab: string, cols: seq<Column>, s: SetClause)
    requires LaidOut(cols) && WellMade(s.val) && Number(s.val) && CheckSet(tab, cols, s).Ok?
    ensures AssignOk(cols, CheckSet(tab, cols, s).value)
    ensures var a := CheckSet(tab, cols, s).value;
      cols[a.col].Ref() == TabCol(tab, s.col) && Decode(cols[a.col].ty, a.raw) == s.val
  {
    var k := FindCol(cols, TabCol(tab, s.col));
    ValueRoundTrip(s.val, cols[k].len);
    RawCanonical(s.val, cols[k].len);
  }

  /** The set clause is about column i. */
  ghost predicate SetsColumn(cols: seq<Column>, s: SetClause, i: nat) {
    FirstNamed(cols, s.col, i)
  }

  /** A set clause passes its check exactly when a column has its name and can hold its value; otherwise it is answered
      with the missing column, the wrong type or the length, in this order. */
  lemma CheckSetMeaning(tab: string, cols: seq<Column>, s: SetClause)
    requires LaidOut(cols) && forall i :: 0 <= i < |cols| ==> cols[i].tab == tab
    ensures CheckSet(tab, cols, s).Ok? <==> exists i: nat :: SetsColumn(cols, s, i) && Fits(cols[i], s.val)
    ensures CheckSet(tab, cols, s) == Err(ColumnNotFound) <==> forall i :: 0 <= i < |cols| ==> cols[i].name != s.col
    ensures CheckSet(tab, cols, s) == Err(IncompatibleType) <==>
      exists i: nat :: SetsColumn(cols, s, i) && cols[i].ty != TypeOf(s.val)
    ensures CheckSet(tab, cols, s) == Err(StringOverflow) <==>
      exists i: nat :: SetsColumn(cols, s, i) && cols[i].ty == STRING && s.val.StringValue? && |s.val.s| > cols[i].len
    ensures CheckSet(tab, cols, s).Ok? ==> SetsColumn(cols, s, CheckSet(tab, cols, s).value.col)
  {
    FindFirst(tab, cols, s.col);
    var k := FindCol(cols, TabCol(tab, s.col));
    if k < |cols| {
      assert SetsColumn(cols, s, k);
      assert WidthOk(cols[k].ty, cols[k].len);
    }
  }

  /** The k-th set clause is the last one about column i. */
  ghost predicate LastSet(cols: seq<Column>, sets: seq<SetClause>, i: nat, k: nat) {
    k < |sets| && SetsColumn(cols, sets[k], i) && forall m :: k < m < |sets| ==> !SetsColumn(cols, sets[m], i)
  }

  /** The new row has the values of the set clauses, the last one counting, and otherwise those of the old row. */
  ghost predicate SetIn(cols: seq<Column>, sets: seq<SetClause>, was: seq<Value>, now: seq<Value>) {
    && |was| == |now| == |cols|
    && (forall i: nat, k: nat :: i < |cols| && LastSet(cols, sets, i, k) ==> now[i] == sets[k].val)
    && (forall i: nat :: i < |cols| && (forall k :: 0 <= k < |sets| ==> !SetsColumn(cols, sets[k], i)) ==>
        now[i] == was[i])
  }

  /** A rewritten row has the values that the set clauses give it. */
  lemma RewrittenValues(tab: string, cols: seq<Column>, sets: seq<SetClause>, assigns: seq<Assign>, rec: Bytes,
                        rec': Bytes)
    requires LaidOut(cols) && (forall i :: 0 <= i < |cols| ==> cols[i].tab == tab)
    requires SetsTo(tab, cols, sets, assigns) && forall s :: s in sets ==> WellMade(s.val) && Number(s.val)
    requires Rewritten(cols, assigns, rec, rec')
    ensures SetIn(cols, sets, DecodeRow(cols, rec), DecodeRow(cols, rec'))
  {
    hide CheckSet, LaidOut, WellMade, Number;
    forall k | 0 <= k < |sets|
      ensures SetsColumn(cols, sets[k], assigns[k].col)
      ensures Decode(cols[assigns[k].col].ty, assigns[k].raw) == sets[k].val
    {
      assert sets[k] in sets && CheckSet(tab, cols, sets[k]) == Ok(assigns[k]);
      CheckSetMeaning(tab, cols, sets[k]);
      CheckedSet(tab, cols, sets[k]);
    }
    forall i: nat, k: nat | i < |cols| && k < |sets| ensures SetsColumn(cols, sets[k], i) <==> assigns[k].col == i { }
    forall i: nat | i < |cols| ensures FieldSet(cols, sets, rec, rec', i) {
      RewrittenFields(cols, assigns, rec, rec', i);
      forall k: nat | LastSet(cols, sets, i, k)
        ensures Decode(cols[i].ty, Field(rec', cols[i])) == sets[k].val
      {
        assert LastTo(assigns, i, k);
      }
    }
    var was, now := DecodeRow(cols, rec), DecodeRow(cols, rec');
    forall i: nat, k: nat | i < |cols| && LastSet(cols, sets, i, k) ensures now[i] == sets[k].val {
      assert FieldSet(cols, sets, rec, rec', i);
    }
    forall i: nat | i < |cols| && (forall k :: 0 <= k < |sets| ==> !SetsColumn(cols, sets[k], i))
      ensures now[i] == was[i]
    {
      assert FieldSet(cols, sets, rec, rec', i);
    }
  }

  ghost predicate FieldSet(cols: seq<Column>, sets: seq<SetClause>, rec: Bytes, rec': Bytes, i: nat)
    requires i < |cols|
  {
    && (forall k: nat :: LastSet(cols, sets, i, k) ==> Decode(cols[i].ty, Field(rec', cols[i])) == sets[k].val)
    && ((forall k :: 0 <= k < |sets| ==> !SetsColumn(cols, sets[k], i)) ==> Field(rec', cols[i]) == Field(rec, cols[i]))
  }

  /** Of the rows there were, the chosen ones have the values of the set clauses, and the others are as they were. */
  ghost predicate RowsSet(cols: seq<Column>, sets: seq<SetClause>, chosen: set<RecordID>, was: Records, now: Records) {
    && now.Keys == was.Keys
    && (forall r :: r in was && r in chosen ==> SetIn(cols, sets, DecodeRow(cols, was[r]), DecodeRow(cols, now[r])))
    && (forall r :: r in was && r !in chosen ==> now[r] == was[r])
  }

  lemma RewrittenSet(table: Table, sets: seq<SetClause>, assigns: seq<Assign>, chosen: set<RecordID>, was: Records,
                     now: Records)
    requires table.SchemaOk() && SetsTo(table.name, table.cols, sets, assigns)
    requires forall s :: s in sets ==> WellMade(s.val) && Number(s.val)
    requires RowsRewritten(table.cols, assigns, chosen, was, now)
    ensures RowsSet(table.cols, sets, chosen, was, now)
  {
    hide SetIn, Rewritten, SetsTo, DecodeRow, WellMade, Number;
    forall r | r in was && r in chosen
      ensures SetIn(table.cols, sets, DecodeRow(table.cols, was[r]), DecodeRow(table.cols, now[r]))
    {
      RewrittenValues(table.name, table.cols, sets, assigns, was[r], now[r]);
    }
  }

  method CheckSets(tab: string, cols: seq<Column>, sets: seq<SetClause>) returns (r: Result<seq<Assign>>)
    requires LaidOut(cols) && forall s :: s in sets ==> WellMade(s.val) && Number(s.val)
    ensures r.Ok? <==> SetsOk(tab, cols, sets)
    ensures r.Err? ==> SetError(tab, cols, sets, r.error)
    ensures r.Ok? ==> SetsTo(tab, cols, sets, r.value) && AssignsOk(cols, r.value)
  {
    hide CheckSet, AssignOk, WellMade, Number;
    var assigns: seq<Assign> := [];
    for i := 0 to |sets|
      invariant |assigns| == i && forall k :: 0 <= k < i ==> CheckSet(tab, cols, sets[k]) == Ok(assigns[k])
      invariant forall a :: a in assigns ==> AssignOk(cols, a)
    {
      var one := CheckSet(tab, cols, sets[i]);
      if one.Err? {
        return Err(one.error);
      }
      assert sets[i] in sets;
      CheckedSet(tab, cols, sets[i]);
      assigns := assigns + [one.value];
    }
    return Ok(assigns);
  }

  /** Why an update fails: the first error of the where clause; when it has none, that of the set clauses; when these
      have none either, the foreign tables of the where clause. */
  ghost predicate UpdateError(schema: Schema, name: string, cols: seq<Column>, sets: seq<SetClause>,
                              where: seq<ParsedCond>, e: Error)
    requires SchemaOk(schema) && FromSchema(schema, cols)
  {
    if !AllChecked(schema, cols, where) then WhereError(schema, cols, where, e)
    else if !SetsOk(name, cols, sets) then SetError(name, cols, sets, e)
    else e == AssertionFailed
  }

  /** The checks of update_set, in its order: the where clause, the set clauses, and the tables of the conditions. */
  method CheckUpdate(schema: Schema, table: Table, sets: seq<SetClause>, where: seq<ParsedCond>)
    returns (r: Result<(seq<Condition>, seq<Assign>)>)
    requires LaidOut(table.cols) && Checkable(schema, table, where)
    requires forall s :: s in sets ==> WellMade(s.val) && Number(s.val)
    ensures r.Ok? <==> WhereOk(schema, [table.name], table.cols, where) && SetsOk(table.name, table.cols, sets)
    ensures r.Err? ==> UpdateError(schema, table.name, table.cols, sets, where, r.error)
    ensures r.Ok? ==> CheckedAs(schema, table.cols, where, r.value.0) && Ready(table.cols, r.value.0)
    ensures r.Ok? ==> SetsTo(table.name, table.cols, sets, r.value.1) && AssignsOk(table.cols, r.value.1)
  {
    hide Ready, CheckCond, CheckSet, AssignsOk, SchemaOk, FromSchema, AllChecked, WhereOk, CheckedAs, SetsOk, SetsTo,
      WhereError, SetError, ProperLiteral, WidthsFit;
    if WhereOk(schema, [table.name], table.cols, where) {
      WhereOkChecked(schema, [table.name], table.cols, where);
    }
    var checked := CheckWhere(schema, table.cols, where);
    if checked.Err? {
      return Err(checked.error);
    }
    var news := CheckSets(table.name, table.cols, sets);
    if news.Err? {
      return Err(news.error);
    }
    var own := OwnConditions(schema, table, where, checked.value);
    if !own {
      return Err(AssertionFailed);
    }
    return Ok((checked.value, news.value));
  }

  /** update_set. */
  method UpdateSet(schema: Schema, table: Table, sets: seq<SetClause>, where: seq<ParsedCond>)
    returns (r: Result<nat>, ghost conds: seq<Condition>, ghost assigns: seq<Assign>)
    requires table.Valid() && Checkable(schema, table, where)
    requires forall s :: s in sets ==> WellMade(s.val) && Number(s.val)
    modifies table.Storage()
    ensures table.Valid() && table.cols == old(table.cols) && table.indexes == old(table.indexes)
    ensures r.Ok? <==> WhereOk(schema, [table.name], table.cols, where) && SetsOk(table.name, table.cols, sets)
    ensures r.Err? ==> unchanged(table) && unchanged(table.file)
    ensures r.Err? ==> forall i :: i in table.indexes ==> unchanged(table.indexes[i])
    ensures r.Err? ==> UpdateError(schema, table.name, table.cols, sets, where, r.error)
    ensures r.Ok? ==> CheckedAs(schema, table.cols, where, conds) && Ready(table.cols, conds)
    ensures r.Ok? ==> SetsTo(table.name, table.cols, sets, assigns) && AssignsOk(table.cols, assigns)
    ensures r.Ok? ==> old(Targets(table, conds)) == Chosen(schema, table.cols, old(table.Recs()), where)
    ensures r.Ok? ==> r.value == |old(Targets(table, conds))|
    ensures r.Ok? ==> RowsSet(table.cols, sets, old(Targets(table, conds)), old(table.Recs()), table.Recs())
    ensures r.Ok? ==> RowsRewritten(table.cols, assigns, old(Targets(table, conds)), old(table.Recs()), table.Recs())
  {
    hide Table.Valid, Ready, Targets, RecordFile.Contents, CheckCond, CheckSet, RowsRewritten, AssignsOk, SchemaOk,
      FromSchema, WhereOk, CheckedAs, SetsOk, SetsTo, UpdateError, ProperLiteral, WidthsFit, Chosen, RowsSet;
    table.Parts();
    var checks := CheckUpdate(schema, table, sets, where);
    if checks.Err? {
      return Err(checks.error), [], [];
    }
    conds, assigns := checks.value.0, checks.value.1;
    QualifiedChosen(schema, table, where, conds);
    ghost var chosen, recs := Targets(table, conds), table.Recs();
    var affected := UpdateQualified(table, checks.value.1, checks.value.0);
    table.Parts();
    RewrittenSet(table, sets, assigns, chosen, recs, table.Recs());
    return Ok(affected), conds, assigns;
  }

  // ----- indexes -----

  function WithFlag(cols: seq<Column>, i: nat, index: bool): seq<Column>
    requires i < |cols|
  {
    cols[i := cols[i].(index := index)]
  }

  /** Flagging a column changes nothing about where the columns are. */
  lemma FlagOnly(cols: seq<Column>, i: nat, index: bool, recs: Records)
    requires LaidOut(cols) && i < |cols| && AllRowsOk(cols, recs)
    ensures LaidOut(WithFlag(cols, i, index))
    ensures AllRowsOk(WithFlag(cols, i, index), recs)
  {
    var after := WithFlag(cols, i, index);
    forall k: nat | k < |cols| ensures FollowsOn(after, k) { assert FollowsOn(cols, k); }
    forall r | r in recs ensures RowOk(after, recs[r]) { SameRow(cols, i, index, recs[r]); }
  }

  lemma SameRow(cols: seq<Column>, i: nat, index: bool, rec: Bytes)
    requires i < |cols| && RowOk(cols, rec)
    ensures RowOk(WithFlag(cols, i, index), rec)
  {
    var after := WithFlag(cols, i, index);
    forall k | 0 <= k < |cols| ensures FieldOk(after[k], Field(rec, after[k])) {
      assert FieldOk(cols[k], Field(rec, cols[k]));
      assert Field(rec, after[k]) == Field(rec, cols[k]);
    }
  }

  /** The building loop of create_index: every record of the file goes into a new index. */
  method BuildIndex(file: RecordFile, cols: seq<Column>, i: nat) returns (ih: IndexHandle)
    requires file.Valid() && i < |cols| && cols[i].ty != DATETIME && cols[i].len <= MAX_COL_LEN
    requires AllRowsOk(cols, file.Contents())
    ensures fresh(ih) && IndexAgrees(ih, cols[i], file.Contents())
  {
    hide RecordScan.Valid, RowOk, RecordFile.Valid, RecordFile.Contents, RecordScan.IsEnd, IndexAgrees;
    ih := NewIndex(cols[i]);
    ghost var recs := file.Contents();
    var scan := new RecordScan.OverFile(file, {file});
    assert recs - scan.ahead == map[];
    while !scan.IsEnd()
      invariant scan.Valid() && fresh(scan.objs) && scan.store == {file} && fresh(ih) && ih !in scan.objs
      invariant scan.ahead <= recs.Keys
      invariant IndexAgrees(ih, cols[i], recs - scan.ahead)
      decreases scan.ahead
    {
      var rid := scan.GetRecordID();
      var rec := ReadRow(file, rid);
      RowField(cols, i, rec);
      InsertIntoIndex(ih, cols[i], rid, rec, recs - scan.ahead);
      PutBack(recs, scan.ahead, rid);
      scan.Next();
    }
    assert recs - scan.ahead == recs;
  }

  lemma PutBack(recs: Records, ahead: set<RecordID>, rid: RecordID)
    requires rid in ahead && ahead <= recs.Keys
    ensures (recs - ahead)[rid := recs[rid]] == recs - (ahead - {rid})
  {
  }

  lemma RowField(cols: seq<Column>, i: nat, rec: Bytes)
    requires i < |cols| && RowOk(cols, rec)
    ensures FieldOk(cols[i], Field(rec, cols[i]))
  {
  }

  method NewIndex(col: Column) returns (ih: IndexHandle)
    requires col.ty != DATETIME && col.len <= MAX_COL_LEN
    ensures fresh(ih) && IndexAgrees(ih, col, map[])
  {
    hide IndexHandle.Valid, IndexHandle.Contents, Lawful, BtreeOrder;
    ColumnOrdLawful(col.ty, col.len);
    IndexPageFits(col.len);
    ih := new IndexHandle(ColumnOrd(col.ty, col.len), BtreeOrder(col.len));
  }

  /** create_index: the column gets an index over the records there are, unless it has one. */
  method CreateIndex(table: Table, name: string) returns (r: Result<nat>)
    requires table.Valid()
    requires forall i :: 0 <= i < |table.cols| && table.cols[i].name == name ==> table.cols[i].ty != DATETIME
    modifies table
    ensures table.Valid() && table.Recs() == old(table.Recs())
    ensures r == Err(ColumnNotFound) <==> forall i :: 0 <= i < |old(table.cols)| ==> old(table.cols)[i].name != name
    ensures forall i: nat :: FirstNamed(old(table.cols), name, i) ==>
      r == if old(table.cols)[i].index then Err(IndexExists) else Ok(i)
    ensures r.Ok? ==> FirstNamed(old(table.cols), name, r.value)
    ensures r.Err? ==> table.cols == old(table.cols) && table.indexes == old(table.indexes)
    ensures r.Ok? ==> table.cols == WithFlag(old(table.cols), r.value, true)
    ensures r.Ok? ==> r.value in table.indexes && table.indexes - {r.value} == old(table.indexes)
    ensures r.Ok? ==> fresh(table.indexes[r.value])
  {
    hide Table.Valid, IndexAgrees, RecordFile.Valid, RecordFile.Contents, AllRowsOk, LaidOut, FirstNamed;
    table.Parts();
    FindFirst(table.name, table.cols, name);
    var k := FindCol(table.cols, TabCol(table.name, name));
    if k == |table.cols| {
      return Err(ColumnNotFound);
    }
    if table.cols[k].index {
      return Err(IndexExists);
    }
    var ih := BuildIndex(table.file, table.cols, k);
    FlagOnly(table.cols, k, true, table.Recs());
    FlagAgrees(table.indexes, table.cols, k, true, table.Recs());
    SameIndex(ih, table.cols[k], true, table.Recs());
    table.indexes := table.indexes[k := ih];
    table.cols := WithFlag(table.cols, k, true);
    table.Whole();
    return Ok(k);
  }

  lemma SameIndex(ih: IndexHandle, col: Column, index: bool, recs: Records)
    requires IndexAgrees(ih, col, recs)
    ensures IndexAgrees(ih, col.(index := index), recs)
  {
    var after := col.(index := index);
    forall rec: Bytes ensures Field(rec, after) == Field(rec, col) { }
  }

  lemma FlagAgrees(indexes: map<nat, IndexHandle>, cols: seq<Column>, k: nat, index: bool, recs: Records)
    requires k < |cols| && forall i: nat :: i in indexes && i < |cols| ==> IndexAgrees(indexes[i], cols[i], recs)
    ensures forall i: nat :: i in indexes && i < |cols| ==> IndexAgrees(indexes[i], WithFlag(cols, k, index)[i], recs)
  {
    forall i: nat | i in indexes && i < |cols| ensures IndexAgrees(indexes[i], WithFlag(cols, k, index)[i], recs) {
      if i == k { SameIndex(indexes[i], cols[i], index, recs); }
    }
  }

  /** drop_index: the column's index goes; the records and the other indexes stay. */
  method DropIndex(table: Table, name: string) returns (r: Result<nat>)
    requires table.Valid()
    modifies table
    ensures table.Valid() && table.Recs() == old(table.Recs())
    ensures r == Err(ColumnNotFound) <==> forall i :: 0 <= i < |old(table.cols)| ==> old(table.cols)[i].name != name
    ensures forall i: nat :: FirstNamed(old(table.cols), name, i) ==>
      r == if old(table.cols)[i].index then Ok(i) else Err(IndexNotFound)
    ensures r.Ok? ==> FirstNamed(old(table.cols), name, r.value)
    ensures r.Err? ==> table.cols == old(table.cols) && table.indexes == old(table.indexes)
    ensures r.Ok? ==>
      table.cols == WithFlag(old(table.cols), r.value, false) && table.indexes == old(table.indexes) - {r.value}
  {
    hide Table.Valid, IndexAgrees, RecordFile.Valid, RecordFile.Contents, AllRowsOk, LaidOut, FirstNamed;
    table.Parts();
    FindFirst(table.name, table.cols, name);
    var k := FindCol(table.cols, TabCol(table.name, name));
    if k == |table.cols| {
      return Err(ColumnNotFound);
    }
    if !table.cols[k].index {
      return Err(IndexNotFound);
    }
    FlagOnly(table.cols, k, false, table.Recs());
    FlagAgrees(table.indexes, table.cols, k, false, table.Recs());
    table.indexes := table.indexes - {k};
    table.cols := WithFlag(table.cols, k, false);
    table.Whole();
    return Ok(k);
  }
}
