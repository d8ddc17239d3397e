/** Whole runs of statements on one table. */
module TableRuns {
  import opened Common
  import opened Rows
  import opened Conditions
  import opened TableIndexes
  import opened Tables
  import opened TableScan
  import opened Statements

  /** A statement whose conditions and new values have passed their checks. */
  datatype Statement =
    | Insert(values: seq<Value>)
    | Delete(conds: seq<Condition>)
    | Update(assigns: seq<Assign>, conds: seq<Condition>)
    | IndexColumn(name: string)
    | UnindexColumn(name: string)

  /** Column lists that differ in their index flags at most. */
  ghost predicate SameColumns(a: seq<Column>, b: seq<Column>) {
    |a| == |b| && forall i :: 0 <= i < |a| ==> a[i] == b[i].(index := a[i].index)
  }

  ghost predicate Runnable(cols: seq<Column>, s: Statement) {
    match s
    case Insert(values) => forall v :: v in values ==> WellMade(v) && Number(v)
    case Delete(conds) => Ready(cols, conds)
    case Update(assigns, conds) => Ready(cols, conds) && AssignsOk(cols, assigns)
    case IndexColumn(name) => forall i :: 0 <= i < |cols| && cols[i].name == name ==> cols[i].ty != DATETIME
    case UnindexColumn(_) => true
  }

  lemma {:induction false} FindSame(a: seq<Column>, b: seq<Column>, t: TabCol)
    requires SameColumns(a, b)
    ensures FindCol(a, t) == FindCol(b, t)
  {
    if a != [] { FindSame(a[1..], b[1..], t); }
  }

  lemma EvaluableSame(a: seq<Column>, b: seq<Column>, c: Condition)
    requires SameColumns(a, b) && Evaluable(b, c)
    ensures Evaluable(a, c)
  {
    FindSame(a, b, c.lhs);
    assert a[FindCol(b, c.lhs)].Ref() == c.lhs;
    if c.rhs.ColumnOf? {
      FindSame(a, b, c.rhs.col);
      assert a[FindCol(b, c.rhs.col)].Ref() == c.rhs.col;
    }
  }

  /** Index flags do not matter for whether a statement can run. */
  lemma RunnableSame(a: seq<Column>, b: seq<Column>, s: Statement)
    requires SameColumns(a, b) && Runnable(b, s) && LaidOut(a)
    ensures Runnable(a, s)
  {
    match s {
      case Delete(conds) => forall c | c in conds ensures Evaluable(a, c) { EvaluableSame(a, b, c); }
      case Update(assigns, conds) =>
        forall c | c in conds ensures Evaluable(a, c) { EvaluableSame(a, b, c); }
        forall x | x in assigns ensures AssignOk(a, x) { assert AssignOk(b, x); }
      case IndexColumn(name) =>
        forall i | 0 <= i < |a| && a[i].name == name ensures a[i].ty != DATETIME { assert b[i].name == name; }
      case _ =>
    }
  }

  // ----- what a statement does -----

  /** What a run can see of a table between two statements: its columns with their index flags, and its records. */
  datatype TableState = TableState(cols: seq<Column>, recs: Records)

  ghost function StateOf(table: Table): TableState
    reads table.Storage()
  {
    TableState(table.cols, table.Recs())
  }

  /** The first column of the name has the flag, whatever it had before; all else about the columns is as it was. */
  ghost predicate Reflagged(was: seq<Column>, now: seq<Column>, name: string, index: bool) {
    |now| == |was| && forall i: nat :: i < |was| ==>
      now[i] == if FirstNamed(was, name, i) then was[i].(index := index) else was[i]
  }

  /** A row that cannot be encoded leaves the table alone; another is stored under one new record id. */
  ghost predicate Inserts(values: seq<Value>, was: TableState, now: TableState) {
    if CheckRow(was.cols, values).Some? then now == was
    else now.cols == was.cols && exists rid :: StoredAs(values, was, now, rid)
  }

  ghost predicate StoredAs(values: seq<Value>, was: TableState, now: TableState, rid: RecordID) {
    && rid !in was.recs && rid in now.recs && now.recs == was.recs[rid := now.recs[rid]]
    && Encodes(was.cols, values, now.recs[rid])
  }

  /** The effect of a statement on a table. */
  ghost predicate Effect(s: Statement, was: TableState, now: TableState) {
    match s
    case Insert(values) => Inserts(values, was, now)
    case Delete(conds) => now == was.(recs := was.recs - Qualified(was.cols, was.recs, conds))
    case Update(assigns, conds) =>
      now.cols == was.cols && RowsRewritten(was.cols, assigns, Qualified(was.cols, was.recs, conds), was.recs, now.recs)
    case IndexColumn(name) => now.recs == was.recs && Reflagged(was.cols, now.cols, name, true)
    case UnindexColumn(name) => now.recs == was.recs && Reflagged(was.cols, now.cols, name, false)
  }

  /** Updates leave no choice: the records after one are determined by those before it. */
  lemma UpdateDetermined(s: Statement, was: TableState, a: TableState, b: TableState)
    requires s.Update? && LaidOut(was.cols) && AllRowsOk(was.cols, was.recs)
    requires Effect(s, was, a) && Effect(s, was, b)
    ensures a == b
  {
    hide LaidOut, RowOk, Rewritten, Qualified;
    forall r | r in was.recs ensures a.recs[r] == b.recs[r] {
      if r in Qualified(was.cols, was.recs, s.conds) {
        RewrittenUnique(was.cols, s.assigns, was.recs[r], a.recs[r], b.recs[r]);
      }
    }
    assert a.recs == b.recs;
  }

  // ----- runs -----

  lemma OneMoreIndex(now: map<nat, IndexHandler.IndexHandle>, was: map<nat, IndexHandler.IndexHandle>, k: nat)
    requires k in now && now - {k} == was
    ensures now.Values <= was.Values + {now[k]}
  {
    forall x | x in now.Values ensures x in was.Values + {now[k]} {
      var i :| i in now && now[i] == x;
      if i != k { assert i in now - {k} && was[i] == x; }
    }
  }

  lemma FlagEffect(was: seq<Column>, name: string, r: Result<nat>, index: bool, now: seq<Column>)
    requires r.Err? ==> now == was && forall i: nat :: FirstNamed(was, name, i) ==> was[i].index == index
    requires r.Ok? ==> FirstNamed(was, name, r.value) && now == WithFlag(was, r.value, index)
    ensures Reflagged(was, now, name, index) && SameColumns(now, was)
  {
  }

  /** One statement. */
  method RunOne(table: Table, s: Statement)
    requires table.Valid() && Runnable(table.cols, s)
    modifies table.Storage()
    ensures table.Valid() && SameColumns(table.cols, old(table.cols))
    ensures Effect(s, old(StateOf(table)), StateOf(table))
    ensures forall o :: o in table.Storage() ==> o in old(table.Storage()) || fresh(o)
  {
    hide Table.Valid, Ready, RecordFile.RecordFile.Contents, Qualified, RowsRewritten, Encodes;
    ghost var was := StateOf(table);
    match s {
      case Insert(values) =>
        var r := InsertInto(table, values);
        if r.Ok? { assert StoredAs(values, was, StateOf(table), r.value); }
      case Delete(conds) => var n := DeleteQualified(table, conds);
      case Update(assigns, conds) => var n := UpdateQualified(table, assigns, conds);
      case IndexColumn(name) =>
        var r := CreateIndex(table, name);
        FlagEffect(was.cols, name, r, true, table.cols);
        if r.Ok? { OneMoreIndex(table.indexes, old(table.indexes), r.value); }
      case UnindexColumn(name) =>
        var r := DropIndex(table, name);
        FlagEffect(was.cols, name, r, false, table.cols);
    }
  }

  /** The states lead from one to the next by the statements. */
  ghost predicate RunOf(stmts: seq<Statement>, states: seq<TableState>) {
    |states| == |stmts| + 1 && forall i :: 0 <= i < |stmts| ==> Effect(stmts[i], states[i], states[i + 1])
  }

  /** Any run of statements: each has its effect, and in the end every index still holds exactly the column value and
      record id of each live record. */
  method RunStatements(table: Table, stmts: seq<Statement>) returns (ghost states: seq<TableState>)
    requires table.Valid() && forall s :: s in stmts ==> Runnable(table.cols, s)
    modifies table.Storage()
    ensures table.Valid() && SameColumns(table.cols, old(table.cols))
    ensures RunOf(stmts, states)
    ensures states[0] == old(StateOf(table)) && states[|stmts|] == StateOf(table)
    ensures forall i: nat :: i in table.indexes ==> table.IndexOk(i, states[|stmts|].recs)
  {
    hide Runnable, Table.Valid, Table.Storage, IndexAgrees, RecordFile.RecordFile.Contents, Effect;
    ghost var cols := table.cols;
    states := [StateOf(table)];
    for i := 0 to |stmts|
      invariant table.Valid() && SameColumns(table.cols, cols)
      invariant |states| == i + 1 && states[0] == old(StateOf(table)) && states[i] == StateOf(table)
      invariant forall k :: 0 <= k < i ==> Effect(stmts[k], states[k], states[k + 1])
      invariant forall o :: o in table.Storage() ==> o in old(table.Storage()) || fresh(o)
    {
      var s := stmts[i];
      assert s in stmts;
      table.Parts();
      RunnableSame(table.cols, cols, s);
      RunOne(table, s);
      states := states + [StateOf(table)];
    }
    table.Parts();
  }
}
