/** A query as it is meant: the combinations of rows of which the where clause holds, and their values. */
module QueryMeanings {
  import opened Common
  import opened Rows
  import opened Conditions
  import opened WhereClause
  import opened Meaning
  import opened Tables
  import opened Plans
  import opened Product

  // ----- combinations of rows -----

  /** One live row of each table of the from list. */
  ghost predicate Combination(from: seq<Source>, t: Tuple) {
    |t| == |from| && forall i :: 0 <= i < |from| ==> t[i] in from[i].recs
  }

  /** The values of the rows of a combination, of the tables from the i-th on. */
  ghost function CombinedFrom(from: seq<Source>, t: Tuple, i: nat): RowValues
    requires Combination(from, t) && i <= |from|
    decreases |from| - i
  {
    if i == |from| then map[]
    else RowOf(from[i].cols, from[i].recs[t[i]]) + CombinedFrom(from, t, i + 1)
  }

  /** The values of a combination by column. */
  ghost function CombinedRow(from: seq<Source>, t: Tuple): RowValues
    requires Combination(from, t)
  {
    CombinedFrom(from, t, 0)
  }

  lemma {:induction false} RowKeys(cols: seq<Column>, rec: Bytes)
    ensures RowOf(cols, rec).Keys == Refs(cols)
  {
  }

  lemma ValuesConcat(a: Env, b: Env)
    ensures ValuesOf(a + b) == ValuesOf(a) + ValuesOf(b)
  {
  }

  /** The value of a column of table j is that of the j-th row. */
  lemma {:induction false} CombinedAt(schema: Schema, from: seq<Source>, t: Tuple, i: nat, j: nat, k: TabCol)
    requires FromOk(schema, from) && Combination(from, t) && i <= j < |from| && k in Refs(from[j].cols)
    ensures k in CombinedFrom(from, t, i)
    ensures CombinedFrom(from, t, i)[k] == RowOf(from[j].cols, from[j].recs[t[j]])[k]
    decreases j - i
  {
    hide FromOk, RowOf, Refs;
    RowKeys(from[i].cols, from[i].recs[t[i]]);
    if i < j {
      CombinedAt(schema, from, t, i + 1, j, k);
      RefsOfTable(schema, from, j, k);
      RefsOfTable(schema, from, i, k);
    } else {
      CombinedBelow(schema, from, t, i + 1, k);
      RefsOfTable(schema, from, i, k);
      NamesApart(schema, from, i);
    }
  }

  lemma NamesApart(schema: Schema, from: seq<Source>, i: nat)
    requires FromOk(schema, from) && i < |from|
    ensures forall j :: i < j < |from| ==> from[j].name != from[i].name
  {
  }

  lemma {:induction false} CombinedBelow(schema: Schema, from: seq<Source>, t: Tuple, i: nat, k: TabCol)
    requires FromOk(schema, from) && Combination(from, t) && i <= |from|
    ensures k in CombinedFrom(from, t, i) ==> exists j :: i <= j < |from| && k in Refs(from[j].cols)
    ensures k in CombinedFrom(from, t, i) ==> exists j :: i <= j < |from| && k.tab == from[j].name
    decreases |from| - i
  {
    hide FromOk, RowOf, Refs;
    if i < |from| {
      RowKeys(from[i].cols, from[i].recs[t[i]]);
      CombinedBelow(schema, from, t, i + 1, k);
      RefsOfTable(schema, from, i, k);
    }
  }

  // ----- the combined record of the chain of joins -----

  lemma {:induction false} ChainTuple(schema: Schema, from: seq<Source>, conds: seq<Condition>, i: nat, t: Tuple)
    requires FromOk(schema, from) && i < |from| && |t| == |from| && t[..i] == t[..i]
    ensures LiveTuple(Chain(from, conds, i), t[i..]) <==> forall j :: i <= j < |from| ==> t[j] in from[j].recs
    decreases |from| - i
  {
    var p := Chain(from, conds, i);
    ChainOk(schema, from, conds, i);
    if i < |from| - 1 {
      ChainTuple(schema, from, conds, i + 1, t);
      assert t[i..][..1][0] == t[i] && t[i..][1..] == t[i + 1..];
    } else {
      assert t[i..] == [t[i]];
    }
  }

  /** The values of the combined record are those of the combination. */
  lemma {:induction false} ChainValues(schema: Schema, from: seq<Source>, conds: seq<Condition>, i: nat, t: Tuple)
    requires FromOk(schema, from) && i < |from| && Combination(from, t)
    ensures LiveTuple(Chain(from, conds, i), t[i..])
    ensures ValuesOf(PlanEnv(Chain(from, conds, i), t[i..])) == CombinedFrom(from, t, i)
    decreases |from| - i
  {
    hide FromOk, Dict, PlanCols, PlanRec, PlanOk, ValuesOf, OwnConds;
    var p := Chain(from, conds, i);
    ChainTuple(schema, from, conds, i, t);
    ChainOk(schema, from, conds, i);
    if i < |from| - 1 {
      ChainValues(schema, from, conds, i + 1, t);
      JoinEnv(p, t[i..]);
      ValuesConcat(PlanEnv(p.left, t[i..][..1]), PlanEnv(p.right, t[i..][1..]));
      ScanEnv(from, conds, i, [t[i]]);
      assert t[i..][..1] == [t[i]];
      assert t[i..][..1][0] == t[i] && t[i..][1..] == t[i + 1..];
    } else {
      assert t[i..] == [t[i]];
      ScanEnv(from, conds, i, [t[i]]);
      assert CombinedFrom(from, t, i + 1) == map[];
    }
  }

  lemma {:induction false} ScanEnv(from: seq<Source>, conds: seq<Condition>, i: nat, t: Tuple)
    requires i < |from| && |t| == 1 && t[0] in from[i].recs
    ensures LiveTuple(ScanOf(from, conds, i), t)
    ensures ValuesOf(PlanEnv(ScanOf(from, conds, i), t)) == RowOf(from[i].cols, from[i].recs[t[0]])
  {
  }

  // ----- the where clause on combinations -----

  lemma TableOk(schema: Schema, from: seq<Source>, j: nat)
    requires FromOk(schema, from) && j < |from|
    ensures LaidOut(from[j].cols) && from[j].name in schema && schema[from[j].name] == from[j].cols
    ensures AllRowsOk(from[j].cols, from[j].recs)
  {
    assert SourceOk(schema, from[j]);
  }

  /** A column of a table of the from list has, in a live combination, a value that it can hold. */
  lemma {:induction false} ColumnValued(schema: Schema, from: seq<Source>, conds: seq<Condition>, t: Tuple, u: TabCol)
    requires FromOk(schema, from) && |from| > 0 && Combination(from, t)
    requires u.tab in schema && u in Refs(schema[u.tab]) && TabIndex(Names(from), u.tab) < |from|
    ensures LiveTuple(Chain(from, conds, 0), t)
    ensures u in PlanEnv(Chain(from, conds, 0), t) && FitsColumn(schema, u, PlanEnv(Chain(from, conds, 0), t)[u])
  {
    hide FromOk, Dict, PlanCols, PlanRec, Refs, LaidOut;
    var j := TabIndex(Names(from), u.tab);
    TableOf(schema, from, u);
    assert t[0..] == t;
    ChainTuple(schema, from, conds, 0, t);
    ChainProper(schema, from, conds, 0, t, j, u);
    TableOk(schema, from, j);
    var v := PlanEnv(Chain(from, conds, 0), t)[u];
    StoredNumber(from[j], u, v);
    ColumnWidth(from[j].cols, u);
  }

  lemma {:induction false} ColumnWidth(cols: seq<Column>, u: TabCol)
    requires LaidOut(cols) && u in Refs(cols)
    ensures FindCol(cols, u) < |cols| && WidthOk(cols[FindCol(cols, u)].ty, cols[FindCol(cols, u)].len)
  {
  }

  /** The checked conditions hold of a combination exactly when the where clause holds of its values. */
  lemma {:induction false} CombinationMeaning(schema: Schema, from: seq<Source>, cols: seq<Column>,
                                              where: seq<ParsedCond>, conds: seq<Condition>, t: Tuple)
    requires SchemaOk(schema) && FromSchema(schema, cols) && FromOk(schema, from) && |from| > 0
    requires CheckedAs(schema, cols, where, conds) && CondsOk(schema, from, conds)
    requires (forall c :: c in where ==> ProperLiteral(c)) && Combination(from, t)
    ensures LiveTuple(Chain(from, conds, 0), t)
    ensures AllHold(PlanEnv(Chain(from, conds, 0), t), conds) <==>
      WhereHolds(schema, cols, where, CombinedRow(from, t))
  {
    hide FromOk, Holds, CondHolds, CheckCond, Compares, FitsColumn, Dict, PlanCols, PlanRec, Comparables, Chain;
    assert t[0..] == t;
    ChainValues(schema, from, conds, 0, t);
    var env := PlanEnv(Chain(from, conds, 0), t);
    forall i | 0 <= i < |where|
      ensures Holds(env, conds[i]) <==> CondHolds(schema, cols, where[i], CombinedRow(from, t))
    {
      assert where[i] in where && conds[i] in conds;
      CheckMeaning(schema, cols, where[i]);
      CombinationValued(schema, from, conds, conds[i], t);
      CondMeaning(schema, cols, where[i], conds[i], env);
    }
    if AllHold(env, conds) {
      forall i | 0 <= i < |where| ensures Holds(env, conds[i]) { assert conds[i] in conds; }
    }
  }

  lemma {:induction false} CombinationValued(schema: Schema, from: seq<Source>, conds: seq<Condition>, c: Condition,
                                             t: Tuple)
    requires FromOk(schema, from) && |from| > 0 && Combination(from, t)
    requires Comparables(schema, from, c) && Owner(Names(from), c) < |from|
    ensures LiveTuple(Chain(from, conds, 0), t) && Valued(schema, PlanEnv(Chain(from, conds, 0), t), c)
  {
    hide FromOk, Dict, PlanCols, PlanRec, Chain, LiveTuple;
    ColumnValued(schema, from, conds, t, c.lhs);
    if c.rhs.ColumnOf? { ColumnValued(schema, from, conds, t, c.rhs.col); }
  }
}
