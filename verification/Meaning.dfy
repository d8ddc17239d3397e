/** Statements as they are meant: column references by name, and conditions on the values of rows. */
module Meaning {
  import opened Common
  import opened Rows
  import opened Conditions
  import opened WhereClause
  import opened ValueOrder

  // ----- column references -----

  /** Columns i and j in scope, two different ones, have the name. */
  ghost predicate Twice(cols: seq<Column>, name: string) {
    exists i, j :: 0 <= i < j < |cols| && cols[i].name == name && cols[j].name == name
  }

  /** u is the column that a reference names: with a table, that table's column; without, the only column in scope of
      that name. */
  ghost predicate NamesColumn(schema: Schema, cols: seq<Column>, t: TabCol, u: TabCol) {
    if t.tab != "" then u == t && t.tab in schema && t in Refs(schema[t.tab])
    else exists i :: 0 <= i < |cols| && cols[i].Ref() == u && u.col == t.col && !Twice(cols, t.col)
  }

  /** How many columns have the name. */
  lemma {:induction false} OneForEach(cols: seq<Column>, name: string)
    ensures TablesWith(cols, name) == [] <==> forall i :: 0 <= i < |cols| ==> cols[i].name != name
    ensures |TablesWith(cols, name)| > 1 <==> Twice(cols, name)
    ensures |TablesWith(cols, name)| == 1 ==>
      exists i :: 0 <= i < |cols| && cols[i].name == name && cols[i].tab == TablesWith(cols, name)[0]
  {
    if cols != [] {
      var n := |cols| - 1;
      var init := cols[..n];
      OneForEach(init, name);
      if Twice(init, name) {
        var i, j :| 0 <= i < j < n && init[i].name == name && init[j].name == name;
        assert cols[i].name == name && cols[j].name == name;
      }
      if |TablesWith(init, name)| == 1 {
        var i :| 0 <= i < n && init[i].name == name && init[i].tab == TablesWith(init, name)[0];
        assert cols[i].name == name && cols[i].tab == init[i].tab;
        if cols[n].name == name { assert Twice(cols, name); }
      }
      if Twice(cols, name) && !Twice(init, name) {
        var i, j :| 0 <= i < j < |cols| && cols[i].name == name && cols[j].name == name;
        assert init[i].name == name;
        if j < n { assert init[j].name == name; }
      }
    }
  }

  /** check_column finds the column that a reference names, complains of two columns of that name in scope, and
      otherwise of none. */
  lemma ResolveMeaning(schema: Schema, cols: seq<Column>, t: TabCol)
    ensures forall u :: Resolve(schema, cols, t) == Ok(u) <==> NamesColumn(schema, cols, t, u)
    ensures Resolve(schema, cols, t) == Err(AmbiguousColumn) <==> t.tab == "" && Twice(cols, t.col)
    ensures Resolve(schema, cols, t).Err? ==> Resolve(schema, cols, t).error in {AmbiguousColumn, ColumnNotFound}
  {
    if t.tab == "" {
      OneForEach(cols, t.col);
      forall u ensures Resolve(schema, cols, t) == Ok(u) <==> NamesColumn(schema, cols, t, u) {
        if NamesColumn(schema, cols, t, u) {
          var i :| 0 <= i < |cols| && cols[i].Ref() == u && u.col == t.col;
          OnlyOne(cols, t.col, i);
        }
      }
    }
  }

  lemma {:induction false} OnlyOne(cols: seq<Column>, name: string, i: nat)
    requires i < |cols| && cols[i].name == name && !Twice(cols, name)
    ensures TablesWith(cols, name) == [cols[i].tab]
  {
    OneForEach(cols, name);
    var k :| 0 <= k < |cols| && cols[k].name == name && cols[k].tab == TablesWith(cols, name)[0];
    assert k == i;
  }

  // ----- conditions -----

  /** d compares what c asks for: the column that the left reference names with the literal, or with the column that the
      right reference names, of the same type. */
  ghost predicate Compares(schema: Schema, cols: seq<Column>, c: ParsedCond, d: Condition) {
    && NamesColumn(schema, cols, c.lhs, d.lhs) && d.op == c.op
    && d.lhs.tab in schema && d.lhs in Refs(schema[d.lhs.tab])
    && var col := ColumnIn(schema, d.lhs);
       match c.rhs
       case Literal(v) =>
         && Fits(col, v) && d.rhs.ValueOf? && d.rhs.val.ty == col.ty && |d.rhs.val.raw| == col.len
         && SoundValue(d.rhs.val) && ValueOfRaw(d.rhs.val) == v
       case Reference(t) =>
         d.rhs.ColumnOf? && NamesColumn(schema, cols, t, d.rhs.col) && d.rhs.col.tab in schema
           && d.rhs.col in Refs(schema[d.rhs.col.tab]) && ColumnIn(schema, d.rhs.col).ty == col.ty
  }

  lemma LiteralChecked(schema: Schema, cols: seq<Column>, v: Value, u: TabCol)
    requires SchemaOk(schema) && u.tab in schema && u in Refs(schema[u.tab]) && WellMade(v) && Number(v)
    ensures var col := ColumnIn(schema, u);
            Fits(col, v) <==> InitRaw(v, col.len).Ok? && col.ty == TypeOf(v)
    ensures var col := ColumnIn(schema, u);
            Fits(col, v) ==>
              var raw := InitRaw(v, col.len).value;
              |raw| == col.len && SoundValue(RawValue(col.ty, raw)) && Decode(col.ty, raw) == v
  {
    var col := ColumnIn(schema, u);
    assert WidthOk(col.ty, col.len);
    if InitRaw(v, col.len).Ok? {
      ValueRoundTrip(v, col.len);
      RawCanonical(v, col.len);
    }
  }

  /** A condition passes its check exactly when its references name columns that can be compared, and then compares
      them. */
  lemma CheckMeaning(schema: Schema, cols: seq<Column>, c: ParsedCond)
    requires SchemaOk(schema) && FromSchema(schema, cols) && ProperLiteral(c)
    ensures CheckCond(schema, cols, c).Ok? ==> Compares(schema, cols, c, CheckCond(schema, cols, c).value)
    ensures CheckCond(schema, cols, c).Ok? <==> exists d :: Compares(schema, cols, c, d)
  {
    hide NamesColumn, Resolve, SoundValue, ColumnIn, FromSchema, InitRaw;
    ResolveMeaning(schema, cols, c.lhs);
    var l := Resolve(schema, cols, c.lhs);
    if l.Ok? {
      ResolveFound(schema, cols, c.lhs);
      match c.rhs {
        case Literal(v) => LiteralChecked(schema, cols, v, l.value);
        case Reference(t) =>
          ResolveMeaning(schema, cols, t);
          if Resolve(schema, cols, t).Ok? { ResolveFound(schema, cols, t); }
      }
    }
    if d :| Compares(schema, cols, c, d) {
      assert l == Ok(d.lhs);
      if c.rhs.Reference? { assert Resolve(schema, cols, c.rhs.col) == Ok(d.rhs.col); }
    }
  }

  /** The error that a reference without a column is answered with. */
  ghost predicate Unnamed(schema: Schema, cols: seq<Column>, t: TabCol, e: Error) {
    && (forall u :: !NamesColumn(schema, cols, t, u))
    && e == if t.tab == "" && Twice(cols, t.col) then AmbiguousColumn else ColumnNotFound
  }

  /** The error of a literal: encoding comes before the comparison of types. */
  ghost predicate LiteralError(col: Column, v: Value, e: Error) {
    !Fits(col, v) && e == match v
      case StringValue(s) => if |s| > col.len then StringOverflow else IncompatibleType
      case DateTimeValue(_) => if col.len != DATETIME_SIZE then AssertionFailed else IncompatibleType
      case _ => if col.len != INT_SIZE then AssertionFailed else IncompatibleType
  }

  /** Why a condition fails its check: the left reference, the right one or the literal, and last the types. */
  ghost predicate ConditionError(schema: Schema, cols: seq<Column>, c: ParsedCond, e: Error) {
    || Unnamed(schema, cols, c.lhs, e)
    || exists l :: NamesColumn(schema, cols, c.lhs, l) && l.tab in schema && l in Refs(schema[l.tab])
         && RhsError(schema, cols, ColumnIn(schema, l), c.rhs, e)
  }

  ghost predicate RhsError(schema: Schema, cols: seq<Column>, col: Column, rhs: ParsedRhs, e: Error) {
    match rhs
    case Literal(v) => LiteralError(col, v, e)
    case Reference(t) =>
      || Unnamed(schema, cols, t, e)
      || (e == IncompatibleType && exists r :: NamesColumn(schema, cols, t, r) && OtherType(schema, r, col.ty))
  }

  ghost predicate OtherType(schema: Schema, t: TabCol, ty: ColumnType) {
    t.tab in schema && t in Refs(schema[t.tab]) && ColumnIn(schema, t).ty != ty
  }

  lemma UnnamedError(schema: Schema, cols: seq<Column>, t: TabCol)
    ensures forall e :: Resolve(schema, cols, t) == Err(e) <==> Unnamed(schema, cols, t, e)
  {
    ResolveMeaning(schema, cols, t);
    if Resolve(schema, cols, t).Ok? { assert NamesColumn(schema, cols, t, Resolve(schema, cols, t).value); }
  }

  lemma LiteralErrors(schema: Schema, u: TabCol, v: Value)
    requires SchemaOk(schema) && u.tab in schema && u in Refs(schema[u.tab]) && WellMade(v)
    ensures var col := ColumnIn(schema, u);
            forall e :: LiteralError(col, v, e) <==>
              InitRaw(v, col.len) == Err(e)
                || (InitRaw(v, col.len).Ok? && col.ty != TypeOf(v) && e == IncompatibleType)
  {
    var col := ColumnIn(schema, u);
    assert WidthOk(col.ty, col.len);
  }

  /** Which error a condition is answered with that fails its check. */
  lemma ConditionErrorMeaning(schema: Schema, cols: seq<Column>, c: ParsedCond, e: Error)
    requires SchemaOk(schema) && FromSchema(schema, cols) && ProperLiteral(c)
    ensures CheckCond(schema, cols, c) == Err(e) <==> ConditionError(schema, cols, c, e)
  {
    hide NamesColumn, Resolve, ColumnIn, FromSchema, InitRaw, Unnamed, LiteralError, WellMade;
    ResolveMeaning(schema, cols, c.lhs);
    UnnamedError(schema, cols, c.lhs);
    var l := Resolve(schema, cols, c.lhs);
    if l.Ok? {
      ResolveFound(schema, cols, c.lhs);
      assert NamesColumn(schema, cols, c.lhs, l.value);
      match c.rhs {
        case Literal(v) => LiteralErrors(schema, l.value, v);
        case Reference(t) =>
          ResolveMeaning(schema, cols, t);
          UnnamedError(schema, cols, t);
          if Resolve(schema, cols, t).Ok? {
            ResolveFound(schema, cols, t);
            assert NamesColumn(schema, cols, t, Resolve(schema, cols, t).value);
          }
      }
    }
  }

  // ----- what a condition says of a row -----

  /** The values of a row, or of a combination of rows, by column. */
  type RowValues = map<TabCol, Value>

  function ValuesOf(env: Env): RowValues {
    map t | t in env :: ValueOfRaw(env[t])
  }

  /** The condition holds of the values: the value of the left column stands in the relation to the literal, or to as
      much of the value of the right column as the left one is wide. */
  ghost predicate CondHolds(schema: Schema, cols: seq<Column>, c: ParsedCond, row: RowValues) {
    exists l :: NamesColumn(schema, cols, c.lhs, l) && l in row && RhsMeets(schema, cols, c, l, row)
  }

  ghost predicate RhsMeets(schema: Schema, cols: seq<Column>, c: ParsedCond, l: TabCol, row: RowValues)
    requires l in row
  {
    match c.rhs
    case Literal(v) => Meets(c.op, row[l], v)
    case Reference(t) =>
      exists r :: NamesColumn(schema, cols, t, r) && r in row && l.tab in schema && l in Refs(schema[l.tab])
        && Meets(c.op, row[l], Clip(row[r], ColumnIn(schema, l).len))
  }

  ghost predicate WhereHolds(schema: Schema, cols: seq<Column>, where: seq<ParsedCond>, row: RowValues) {
    forall i :: 0 <= i < |where| ==> CondHolds(schema, cols, where[i], row)
  }

  /** The value is one that its column can hold. */
  ghost predicate FitsColumn(schema: Schema, t: TabCol, v: RawValue) {
    && t.tab in schema && t in Refs(schema[t.tab]) && v.ty == ColumnIn(schema, t).ty
    && |v.raw| == ColumnIn(schema, t).len && SoundValue(v)
  }

  /** The columns that the condition mentions have values, and the right one is no narrower than the left. */
  ghost predicate Valued(schema: Schema, env: Env, d: Condition) {
    && d.lhs in env && FitsColumn(schema, d.lhs, env[d.lhs])
    && (d.rhs.ColumnOf? ==>
        d.rhs.col in env && FitsColumn(schema, d.rhs.col, env[d.rhs.col])
          && |env[d.lhs].raw| <= |env[d.rhs.col].raw|)
  }

  /** A checked condition holds of the raw values of a row exactly when what was written holds of its values. */
  lemma CondMeaning(schema: Schema, cols: seq<Column>, c: ParsedCond, d: Condition, env: Env)
    requires Compares(schema, cols, c, d) && Valued(schema, env, d)
    ensures Holds(env, d) <==> CondHolds(schema, cols, c, ValuesOf(env))
  {
    hide NamesColumn, Compare, Meets, Clip, SoundValue;
    NamesOne(schema, cols, c.lhs);
    var row := ValuesOf(env);
    var l := env[d.lhs];
    match c.rhs {
      case Literal(v) =>
        CompareMeaning(d.op, l, d.rhs.val);
        ClipFits(v, |l.raw|);
      case Reference(t) =>
        NamesOne(schema, cols, t);
        CompareMeaning(d.op, l, env[d.rhs.col]);
    }
  }

  lemma ClipFits(v: Value, width: nat)
    requires v.StringValue? ==> |v.s| <= width
    ensures Clip(v, width) == v
  {
  }

  /** A reference names one column at most. */
  lemma NamesOne(schema: Schema, cols: seq<Column>, t: TabCol)
    ensures forall u, v :: NamesColumn(schema, cols, t, u) && NamesColumn(schema, cols, t, v) ==> u == v
  {
    ResolveMeaning(schema, cols, t);
  }

  // ----- rows of one table -----

  /** The values of a stored row by column. */
  ghost function RowOf(cols: seq<Column>, rec: Bytes): RowValues {
    ValuesOf(Dict(cols, rec))
  }

  lemma RowFits(schema: Schema, cols: seq<Column>, rec: Bytes, t: TabCol)
    requires RowOk(cols, rec) && LaidOut(cols) && t in Refs(cols)
    requires t.tab in schema && schema[t.tab] == cols
    ensures t in Dict(cols, rec) && FitsColumn(schema, t, Dict(cols, rec)[t])
  {
    var i := FindCol(cols, t);
    assert FieldOk(cols[i], Field(rec, cols[i])) && WidthOk(cols[i].ty, cols[i].len);
  }

  /** Checked conditions on one table hold of a row exactly when the where clause holds of its values. */
  lemma TableMeaning(schema: Schema, name: string, cols: seq<Column>, where: seq<ParsedCond>, conds: seq<Condition>,
                     rec: Bytes)
    requires SchemaOk(schema) && FromSchema(schema, cols) && name in schema && schema[name] == cols
    requires CheckedAs(schema, cols, where, conds) && forall c :: c in conds ==> Solved([name], c)
    requires forall c :: c in where ==> ProperLiteral(c)
    requires RowOk(cols, rec) && AllEvaluable(cols, conds)
    ensures AllHold(Dict(cols, rec), conds) <==> WhereHolds(schema, cols, where, RowOf(cols, rec))
  {
    hide Holds, CondHolds, CheckCond, Compares, FitsColumn, RowOk;
    var env := Dict(cols, rec);
    forall i | 0 <= i < |where|
      ensures Holds(env, conds[i]) <==> CondHolds(schema, cols, where[i], RowOf(cols, rec))
    {
      assert where[i] in where && conds[i] in conds;
      CheckMeaning(schema, cols, where[i]);
      OwnValued(schema, name, cols, conds[i], rec);
      CondMeaning(schema, cols, where[i], conds[i], env);
    }
    if AllHold(env, conds) {
      forall i | 0 <= i < |where| ensures Holds(env, conds[i]) { assert conds[i] in conds; }
    }
  }

  lemma OwnValued(schema: Schema, name: string, cols: seq<Column>, c: Condition, rec: Bytes)
    requires SchemaOk(schema) && name in schema && schema[name] == cols && RowOk(cols, rec)
    requires Solved([name], c) && Evaluable(cols, c)
    ensures Valued(schema, Dict(cols, rec), c)
  {
    RowFits(schema, cols, rec, c.lhs);
    if c.rhs.ColumnOf? { RowFits(schema, cols, rec, c.rhs.col); }
  }
}
