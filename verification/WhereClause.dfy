/** Resolution and type checking of where clauses (check_column, check_where_clause). */
module WhereClause {
  import opened Common
  import opened KeyOrder
  import opened Rows
  import opened Conditions

  /** A condition as parsed: the left column may lack its table, the right side is a literal or a column. */
  datatype ParsedRhs = Literal(val: Value) | Reference(col: TabCol)

  datatype ParsedCond = ParsedCond(lhs: TabCol, op: CompOp, rhs: ParsedRhs)

  /** The columns of every table of the database. */
  type Schema = map<string, seq<Column>>

  ghost predicate SchemaOk(schema: Schema) {
    forall t :: t in schema ==> LaidOut(schema[t]) && forall i :: 0 <= i < |schema[t]| ==> schema[t][i].tab == t
  }

  /** The columns come from tables of the database, whose names are not empty. */
  ghost predicate FromSchema(schema: Schema, cols: seq<Column>) {
    forall i :: 0 <= i < |cols| ==>
      cols[i].tab in schema && cols[i].tab != "" && cols[i].Ref() in Refs(schema[cols[i].tab])
  }

  /** The tables of the columns with a given name, one for each such column. */
  function TablesWith(cols: seq<Column>, name: string): seq<string> {
    if cols == [] then []
    else TablesWith(cols[..|cols| - 1], name) + if cols[|cols| - 1].name == name then [cols[|cols| - 1].tab] else []
  }

  /** What a column reference means: a named table must have the column; otherwise exactly one column in scope
      may have the name. */
  function Resolve(schema: Schema, cols: seq<Column>, target: TabCol): Result<TabCol> {
    if target.tab != "" then
      if target.tab in schema && FindCol(schema[target.tab], target) < |schema[target.tab]| then Ok(target)
        else Err(ColumnNotFound)
    else
      var tabs := TablesWith(cols, target.col);
      if tabs == [] then Err(ColumnNotFound)
      else if |tabs| == 1 then Ok(TabCol(tabs[0], target.col))
      else Err(AmbiguousColumn)
  }

  lemma {:induction false} TablesWithGrow(cols: seq<Column>, name: string, n: nat)
    requires n <= |cols|
    ensures |TablesWith(cols[..n], name)| <= |TablesWith(cols, name)|
    decreases |cols| - n
  {
    if n < |cols| {
      assert cols[..n + 1][..n] == cols[..n];
      TablesWithGrow(cols, name, n + 1);
    } else {
      assert cols[..n] == cols;
    }
  }

  /** check_column. */
  method CheckColumn(schema: Schema, cols: seq<Column>, target: TabCol) returns (r: Result<TabCol>)
    requires FromSchema(schema, cols)
    ensures r == Resolve(schema, cols, target)
  {
    if target.tab == "" {
      var tabName := "";
      for i := 0 to |cols|
        invariant |TablesWith(cols[..i], target.col)| <= 1
        invariant tabName == "" <==> TablesWith(cols[..i], target.col) == []
        invariant tabName != "" ==> TablesWith(cols[..i], target.col) == [tabName]
      {
        assert cols[..i + 1][..i] == cols[..i];
        if cols[i].name == target.col {
          if tabName != "" {
            TablesWithGrow(cols, target.col, i + 1);
            return Err(AmbiguousColumn);
          }
          tabName := cols[i].tab;
        }
      }
      assert cols[..|cols|] == cols;
      return if tabName == "" then Err(ColumnNotFound) else Ok(TabCol(tabName, target.col));
    } else {
      return if target.tab in schema && FindCol(schema[target.tab], target) < |schema[target.tab]| then Ok(target)
        else Err(ColumnNotFound);
    }
  }

  /** A resolved reference names an existing column. */
  lemma {:induction false} TablesWithFound(schema: Schema, cols: seq<Column>, name: string, k: nat)
    requires FromSchema(schema, cols) && k < |TablesWith(cols, name)|
    ensures TablesWith(cols, name)[k] in schema
    ensures TabCol(TablesWith(cols, name)[k], name) in Refs(schema[TablesWith(cols, name)[k]])
  {
    var n := |cols| - 1;
    if k < |TablesWith(cols[..n], name)| {
      TablesWithFound(schema, cols[..n], name, k);
    } else {
      assert cols[n].Ref() in Refs(schema[cols[n].tab]);
    }
  }

  lemma ResolveFound(schema: Schema, cols: seq<Column>, target: TabCol)
    requires SchemaOk(schema) && FromSchema(schema, cols) && Resolve(schema, cols, target).Ok?
    ensures var t := Resolve(schema, cols, target).value; t.tab in schema && t in Refs(schema[t.tab])
  {
    if target.tab == "" {
      TablesWithFound(schema, cols, target.col, 0);
    } else {
      var cs := schema[target.tab];
      assert cs[FindCol(cs, target)].Ref() == target;
    }
  }

  function ColumnIn(schema: Schema, t: TabCol): Column
    requires t.tab in schema && t in Refs(schema[t.tab])
  {
    schema[t.tab][FindCol(schema[t.tab], t)]
  }

  /** One round of check_where_clause: resolve the columns, encode the literal, then compare the types. */
  function CheckCond(schema: Schema, cols: seq<Column>, c: ParsedCond): Result<Condition>
    requires SchemaOk(schema) && FromSchema(schema, cols)
  {
    var lhs := Resolve(schema, cols, c.lhs);
    if lhs.Err? then Err(lhs.error)
    else
      ResolveFound(schema, cols, c.lhs);
      var lhsCol := ColumnIn(schema, lhs.value);
      match c.rhs
      case Literal(v) =>
        var raw := InitRaw(v, lhsCol.len);
        if raw.Err? then Err(raw.error)
        else if lhsCol.ty != TypeOf(v) then Err(IncompatibleType)
        else Ok(Condition(lhs.value, c.op, ValueOf(RawValue(TypeOf(v), raw.value))))
      case Reference(t) =>
        var rhs := Resolve(schema, cols, t);
        if rhs.Err? then Err(rhs.error)
        else
          ResolveFound(schema, cols, t);
          if lhsCol.ty != ColumnIn(schema, rhs.value).ty then Err(IncompatibleType)
          else Ok(Condition(lhs.value, c.op, ColumnOf(rhs.value)))
  }

  /** conds are the checked forms of the conditions, one for each. */
  ghost predicate CheckedAs(schema: Schema, cols: seq<Column>, where: seq<ParsedCond>, conds: seq<Condition>)
    requires SchemaOk(schema) && FromSchema(schema, cols)
  {
    |conds| == |where| && forall i :: 0 <= i < |where| ==> CheckCond(schema, cols, where[i]) == Ok(conds[i])
  }

  /** The i-th condition is the first that fails its check, with the given error. */
  ghost predicate FirstError(schema: Schema, cols: seq<Column>, where: seq<ParsedCond>, i: nat, e: Error)
    requires SchemaOk(schema) && FromSchema(schema, cols)
  {
    i < |where| && CheckCond(schema, cols, where[i]) == Err(e)
      && forall k :: 0 <= k < i ==> CheckCond(schema, cols, where[k]).Ok?
  }

  /** The error is that of the first condition that fails its check. */
  ghost predicate WhereError(schema: Schema, cols: seq<Column>, where: seq<ParsedCond>, e: Error)
    requires SchemaOk(schema) && FromSchema(schema, cols)
  {
    exists i: nat :: FirstError(schema, cols, where, i, e)
  }

  ghost predicate AllChecked(schema: Schema, cols: seq<Column>, where: seq<ParsedCond>)
    requires SchemaOk(schema) && FromSchema(schema, cols)
  {
    forall i :: 0 <= i < |where| ==> CheckCond(schema, cols, where[i]).Ok?
  }

  /** Every condition passes its check and mentions none but the named tables. */
  ghost predicate WhereOk(schema: Schema, tabs: seq<string>, cols: seq<Column>, where: seq<ParsedCond>)
    requires SchemaOk(schema) && FromSchema(schema, cols)
  {
    forall i :: 0 <= i < |where| ==>
      CheckCond(schema, cols, where[i]).Ok? && Solved(tabs, CheckCond(schema, cols, where[i]).value)
  }

  lemma WhereOkChecked(schema: Schema, tabs: seq<string>, cols: seq<Column>, where: seq<ParsedCond>)
    requires SchemaOk(schema) && FromSchema(schema, cols) && WhereOk(schema, tabs, cols, where)
    ensures AllChecked(schema, cols, where)
  {
  }

  lemma {:induction false} SolvedWhere(schema: Schema, tabs: seq<string>, cols: seq<Column>, where: seq<ParsedCond>,
                                       conds: seq<Condition>)
    requires SchemaOk(schema) && FromSchema(schema, cols) && CheckedAs(schema, cols, where, conds)
    ensures (forall c :: c in conds ==> Solved(tabs, c)) <==> WhereOk(schema, tabs, cols, where)
  {
    if WhereOk(schema, tabs, cols, where) {
      forall c | c in conds ensures Solved(tabs, c) {
        var i :| 0 <= i < |conds| && conds[i] == c;
        assert CheckCond(schema, cols, where[i]) == Ok(conds[i]);
      }
    }
    if forall c :: c in conds ==> Solved(tabs, c) {
      forall i | 0 <= i < |where|
        ensures CheckCond(schema, cols, where[i]).Ok? && Solved(tabs, CheckCond(schema, cols, where[i]).value)
      {
        assert CheckCond(schema, cols, where[i]) == Ok(conds[i]) && conds[i] in conds;
      }
    }
  }

  /** check_where_clause: the checked conditions, or the first error. */
  method CheckWhere(schema: Schema, cols: seq<Column>, conds: seq<ParsedCond>) returns (r: Result<seq<Condition>>)
    requires SchemaOk(schema) && FromSchema(schema, cols)
    ensures r.Ok? <==> AllChecked(schema, cols, conds)
    ensures r.Ok? ==> CheckedAs(schema, cols, conds, r.value)
    ensures r.Err? ==> WhereError(schema, cols, conds, r.error)
  {
    var checked: seq<Condition> := [];
    for i := 0 to |conds|
      invariant |checked| == i && forall k :: 0 <= k < i ==> CheckCond(schema, cols, conds[k]) == Ok(checked[k])
    {
      var one := CheckCond(schema, cols, conds[i]);
      if one.Err? {
        assert FirstError(schema, cols, conds, i, one.error);
        return Err(one.error);
      }
      checked := checked + [one.value];
    }
    return Ok(checked);
  }

  /** The columns of a condition exist and its two sides have one type; a literal is as wide as its column. */
  ghost predicate WellTyped(schema: Schema, c: Condition) {
    && c.lhs.tab in schema && c.lhs in Refs(schema[c.lhs.tab])
    && match c.rhs
       case ValueOf(v) =>
         v.ty == ColumnIn(schema, c.lhs).ty && |v.raw| == ColumnIn(schema, c.lhs).len && NumberValue(v)
       case ColumnOf(t) =>
         t.tab in schema && t in Refs(schema[t.tab]) && ColumnIn(schema, t).ty == ColumnIn(schema, c.lhs).ty
  }

  ghost predicate NumberValue(v: RawValue) {
    v.ty == FLOAT ==> !IsNaN(v.raw)
  }

  ghost predicate ProperLiteral(c: ParsedCond) {
    c.rhs.Literal? ==> WellMade(c.rhs.val) && Number(c.rhs.val)
  }

  /** A condition that passes the check is well typed and compares what was written. */
  lemma CheckedWellTyped(schema: Schema, cols: seq<Column>, c: ParsedCond)
    requires SchemaOk(schema) && FromSchema(schema, cols) && ProperLiteral(c)
    requires CheckCond(schema, cols, c).Ok?
    ensures WellTyped(schema, CheckCond(schema, cols, c).value)
    ensures CheckCond(schema, cols, c).value.op == c.op
    ensures c.rhs.Literal? ==> Decode(TypeOf(c.rhs.val), CheckCond(schema, cols, c).value.rhs.val.raw) == c.rhs.val
  {
    ResolveFound(schema, cols, c.lhs);
    match c.rhs
    case Literal(v) => ValueRoundTrip(v, ColumnIn(schema, Resolve(schema, cols, c.lhs).value).len);
    case Reference(t) => ResolveFound(schema, cols, t);
  }

  /** A literal of another type than its column is answered with the type error only when it happens to have the
      column's width: encoding comes first, and aborts or complains about the string length otherwise. */
  lemma TypeErrorMasked(schema: Schema, cols: seq<Column>, c: ParsedCond)
    requires SchemaOk(schema) && FromSchema(schema, cols) && Resolve(schema, cols, c.lhs).Ok? && c.rhs.Literal?
    requires var t := Resolve(schema, cols, c.lhs).value;
      t.tab in schema && t in Refs(schema[t.tab]) && ColumnIn(schema, t).ty != TypeOf(c.rhs.val)
    ensures CheckCond(schema, cols, c) == Err(IncompatibleType) <==>
      (var len := ColumnIn(schema, Resolve(schema, cols, c.lhs).value).len;
       match c.rhs.val
       case StringValue(s) => |s| <= len
       case DateTimeValue(_) => len == DATETIME_SIZE
       case _ => len == INT_SIZE)
  {
  }

  /** A string of five characters against an INT column is called too long, and a number against a CHAR(5) column
      aborts: neither is reported as the type error that it is. */
  lemma LongLiteralMasks(schema: Schema, cols: seq<Column>, c: ParsedCond, len: nat)
    requires SchemaOk(schema) && FromSchema(schema, cols) && Resolve(schema, cols, c.lhs).Ok?
    requires var t := Resolve(schema, cols, c.lhs).value;
      t.tab in schema && t in Refs(schema[t.tab]) && ColumnIn(schema, t).len == len
    ensures len == 4 && c.rhs == Literal(StringValue([65, 65, 65, 65, 65])) ==>
      CheckCond(schema, cols, c) == Err(StringOverflow)
    ensures len == 5 && c.rhs == Literal(IntValue(1)) ==> CheckCond(schema, cols, c) == Err(AssertionFailed)
  {
  }
}
