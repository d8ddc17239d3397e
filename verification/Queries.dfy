/** select_from: building the plan of a query, running it and projecting its rows. */
module Queries {
  import opened Common
  import opened Seqs
  import opened Rows
  import opened Conditions
  import opened WhereClause
  import opened Tables
  import opened TableScan
  import opened Plans
  import opened QueryNodes
  import opened Product
  import opened Meaning
  import opened QueryMeanings

  // ----- projection -----

  /** The output columns for the chosen input columns, laid out from the start. */
  ghost predicate ProjectedCols(cols: seq<Column>, idxs: seq<nat>, out: seq<Column>) {
    && |out| == |idxs| && LaidOut(out)
    && (forall k :: 0 <= k < |idxs| ==> idxs[k] < |cols| && out[k] == cols[idxs[k]].(offset := out[k].offset))
  }

  /** The QlNodeProj constructor: the chosen columns one after the other. */
  method ProjectCols(cols: seq<Column>, sel: seq<TabCol>) returns (r: Result<(seq<nat>, seq<Column>)>)
    requires LaidOut(cols)
    ensures r.Ok? <==> forall k :: 0 <= k < |sel| ==> sel[k] in Refs(cols)
    ensures r.Err? ==> r.error == ColumnNotFound
    ensures r.Ok? ==> |r.value.0| == |sel| && ProjectedCols(cols, r.value.0, r.value.1)
    ensures r.Ok? ==> forall k :: 0 <= k < |sel| ==> r.value.0[k] == FindCol(cols, sel[k])
  {
    var idxs: seq<nat>, out: seq<Column>, currOffset := [], [], 0;
    for k := 0 to |sel|
      invariant |idxs| == k && ProjectedCols(cols, idxs, out) && currOffset == RecordSize(out)
      invariant forall j :: 0 <= j < k ==> sel[j] in Refs(cols) && idxs[j] == FindCol(cols, sel[j])
    {
      var pos := FindCol(cols, sel[k]);
      if pos == |cols| {
        return Err(ColumnNotFound);
      }
      assert cols[pos].Ref() == sel[k];
      var col := cols[pos].(offset := currOffset);
      LaidOutAppend(out, col);
      idxs, out := idxs + [pos], out + [col];
      currOffset := currOffset + col.len;
    }
    return Ok((idxs, out));
  }

  /** Each output field is the chosen input field. */
  ghost predicate Projects(cols: seq<Column>, idxs: seq<nat>, out: seq<Column>, rec: Bytes, row: Bytes)
    requires ProjectedCols(cols, idxs, out)
  {
    |row| == RecordSize(out) && forall k :: 0 <= k < |out| ==> Field(row, out[k]) == Field(rec, cols[idxs[k]])
  }

  /** QlNodeProj::rec. */
  method ProjectRec(cols: seq<Column>, idxs: seq<nat>, out: seq<Column>, rec: Bytes) returns (row: Bytes)
    requires ProjectedCols(cols, idxs, out)
    ensures Projects(cols, idxs, out, rec, row)
  {
    row := Zeros(RecordSize(out));
    for k := 0 to |out|
      invariant |row| == RecordSize(out)
      invariant forall j :: 0 <= j < k ==> Field(row, out[j]) == Field(rec, cols[idxs[j]])
    {
      StoreField(row, out, k, Field(rec, cols[idxs[k]]));
      row := Store(row, out[k], Field(rec, cols[idxs[k]]));
    }
  }

  // ----- the from list -----

  /** The tables are open within the given objects; from says what they hold. */
  ghost predicate Opened(tables: seq<Table>, store: set<object>, from: seq<Source>)
    reads store
  {
    |from| == |tables| && forall i :: 0 <= i < |tables| ==>
      tables[i] in store && tables[i].name == from[i].name && tables[i].Holding(store, from[i].cols, from[i].recs)
  }

  /** The tables are distinct and known to the schema by non-empty names. */
  ghost predicate Queryable(schema: Schema, tables: seq<Table>, store: set<object>, from: seq<Source>)
    reads store
  {
    && SchemaOk(schema) && |tables| > 0 && Opened(tables, store, from) && FromOk(schema, from)
    && (forall i :: 0 <= i < |from| ==> from[i].name != "")
  }

  function AllCols(from: seq<Source>): seq<Column> {
    if from == [] then [] else AllCols(from[..|from| - 1]) + from[|from| - 1].cols
  }

  /** Where the columns of table i start among all the columns of the from list. */
  function ColsBefore(from: seq<Source>, i: nat): nat
    requires i <= |from|
  {
    if i == 0 then 0 else ColsBefore(from, i - 1) + |from[i - 1].cols|
  }

  /** The columns of the from list are those of its tables, in the order of the list. */
  lemma {:induction false} AllColsAt(from: seq<Source>, i: nat, k: nat)
    requires i < |from| && k < |from[i].cols|
    ensures |AllCols(from)| == ColsBefore(from, |from|)
    ensures ColsBefore(from, i) + k < |AllCols(from)| && AllCols(from)[ColsBefore(from, i) + k] == from[i].cols[k]
  {
    AllColsUpTo(from, |from|, i, k);
    assert from[..|from|] == from;
  }

  lemma {:induction false} AllColsUpTo(from: seq<Source>, n: nat, i: nat, k: nat)
    requires i < n <= |from| && k < |from[i].cols|
    ensures |AllCols(from[..n])| == ColsBefore(from, n)
    ensures ColsBefore(from, i) + k < |AllCols(from[..n])|
    ensures AllCols(from[..n])[ColsBefore(from, i) + k] == from[i].cols[k]
  {
    assert from[..n][..n - 1] == from[..n - 1];
    if i < n - 1 { AllColsUpTo(from, n - 1, i, k); } else { AllColsLength(from, n - 1); }
  }

  lemma {:induction false} AllColsLength(from: seq<Source>, n: nat)
    requires n <= |from|
    ensures |AllCols(from[..n])| == ColsBefore(from, n)
  {
    if n > 0 {
      assert from[..n][..n - 1] == from[..n - 1];
      AllColsLength(from, n - 1);
    }
  }

  /** get_all_cols. */
  method GetAllCols(tables: seq<Table>, ghost store: set<object>, ghost from: seq<Source>) returns (cols: seq<Column>)
    requires Opened(tables, store, from)
    ensures cols == AllCols(from)
  {
    hide Table.Holding;
    cols := [];
    for i := 0 to |tables|
      invariant cols == AllCols(from[..i])
    {
      HoldingHere(tables[i], store, from[i]);
      assert from[..i + 1][..i] == from[..i];
      cols := cols + tables[i].cols;
    }
    assert from[..|tables|] == from;
  }

  lemma {:induction false} AllColsFromSchema(schema: Schema, from: seq<Source>, n: nat)
    requires FromOk(schema, from) && n <= |from| && forall i :: 0 <= i < |from| ==> from[i].name != ""
    ensures FromSchema(schema, AllCols(from[..n]))
  {
    if n > 0 {
      AllColsFromSchema(schema, from, n - 1);
      assert from[..n][..n - 1] == from[..n - 1];
      assert SourceOk(schema, from[n - 1]);
    }
  }

  // ----- the plan -----

  /** The plan building of select_from: a scan for each table, joined from the last table backwards. */
  method BuildPlan(schema: Schema, tables: seq<Table>, parts: seq<seq<Condition>>, ghost store: set<object>,
                   ghost from: seq<Source>, ghost conds: seq<Condition>) returns (query: QlNode)
    requires Queryable(schema, tables, store, from) && CondsOk(schema, from, conds)
    requires |parts| == |tables| && forall i :: 0 <= i < |tables| ==> parts[i] == Keep(conds, OwnedBy(Names(from), i))
    ensures query.Linked() && query.plan == Chain(from, conds, 0) && query.fed == map[] && query.store == store
    ensures fresh(query.Repr)
  {
    hide QlNode.Linked, Table.Holding, PlanOk, FromOk, CondsOk, SchemaOk, ScanOf;
    var i := |tables| - 1;
    query := BuildScan(schema, tables[i], parts[i], i, store, from, conds);
    while i > 0
      invariant 0 <= i < |tables| && query.Linked() && query.plan == Chain(from, conds, i)
      invariant query.fed == map[] && query.store == store && fresh(query.Repr)
    {
      i := i - 1;
      var leaf := BuildScan(schema, tables[i], parts[i], i, store, from, conds);
      ChainOk(schema, from, conds, i);
      query := new QlNode.Over(leaf, query);
    }
  }

  method BuildScan(schema: Schema, table: Table, part: seq<Condition>, i: nat, ghost store: set<object>,
                   ghost from: seq<Source>, ghost conds: seq<Condition>) returns (leaf: QlNode)
    requires FromOk(schema, from) && CondsOk(schema, from, conds) && i < |from| && table in store
    requires table.name == from[i].name
    requires table.Holding(store, from[i].cols, from[i].recs) && part == Keep(conds, OwnedBy(Names(from), i))
    ensures leaf.Linked() && leaf.plan == ScanOf(from, conds, i) && leaf.fed == map[] && leaf.store == store
    ensures fresh(leaf.Repr)
  {
    hide QlNode.Linked, Table.Holding, PlanOk, TableNode.Linked;
    HoldingHere(table, store, from[i]);
    PartOfTable(schema, from, conds, i);
    var node := new TableNode(table, part, store);
    assert node.conds == OwnConds(from, conds, i);
    ScanSound(schema, from, conds, i);
    leaf := new QlNode.Leaf(node);
  }

  lemma HoldingHere(table: Table, store: set<object>, s: Source)
    requires table in store && table.Holding(store, s.cols, s.recs)
    ensures table.cols == s.cols && table.Storage() <= store && table.Recs() == s.recs
  {
    hide Table.Valid, Table.Recs;
  }

  lemma {:induction false} PartOfTable(schema: Schema, from: seq<Source>, conds: seq<Condition>, i: nat)
    requires i < |from|
    ensures forall c :: c in Keep(conds, OwnedBy(Names(from), i)) ==>
      c.lhs.tab == from[i].name || (c.rhs.ColumnOf? && c.rhs.col.tab == from[i].name)
  {
  }

  lemma ScanSound(schema: Schema, from: seq<Source>, conds: seq<Condition>, i: nat)
    requires FromOk(schema, from) && i < |from|
    ensures PlanOk(ScanOf(from, conds, i))
  {
    assert SourceOk(schema, from[i]);
  }

  // ----- running the query -----

  /** The combined record of the tuple, projected. */
  ghost predicate IsRowOf(p: Plan, idxs: seq<nat>, out: seq<Column>, t: Tuple, row: Bytes)
    requires ProjectedCols(PlanCols(p), idxs, out)
  {
    LiveTuple(p, t) && Projects(PlanCols(p), idxs, out, PlanRec(p, t), row)
  }

  /** rows are the projections of the tuples, each of which occurs once. */
  ghost predicate RowsOf(p: Plan, idxs: seq<nat>, out: seq<Column>, tuples: seq<Tuple>, rows: seq<Bytes>)
    requires ProjectedCols(PlanCols(p), idxs, out)
  {
    |rows| == |tuples| && NoDup(tuples) && forall k :: 0 <= k < |rows| ==> IsRowOf(p, idxs, out, tuples[k], rows[k])
  }

  lemma {:induction false} OneMoreRow(p: Plan, idxs: seq<nat>, out: seq<Column>, tuples: seq<Tuple>, rows: seq<Bytes>,
                                      t: Tuple, row: Bytes)
    requires ProjectedCols(PlanCols(p), idxs, out) && RowsOf(p, idxs, out, tuples, rows)
    requires t !in tuples && IsRowOf(p, idxs, out, t, row)
    ensures RowsOf(p, idxs, out, tuples + [t], rows + [row])
  {
    NoDupConcat(tuples, [t]);
  }

  /** The processing loop of select_from: the plan's combinations, each once, projected. */
  method RunPlan(query: QlNode, idxs: seq<nat>, out: seq<Column>) returns (rows: seq<Bytes>, ghost tuples: seq<Tuple>)
    requires query.Linked() && PlanReady(query.plan, query.fed) && query.cols == PlanCols(query.plan)
    requires ProjectedCols(PlanCols(query.plan), idxs, out)
    modifies query.Repr
    ensures RowsOf(query.plan, idxs, out, tuples, rows)
    ensures forall t :: t in tuples <==> t in Yield(query.plan, old(query.fed))
  {
    hide QlNode.Linked, QlNode.Open, PlanReady, Yield, PlanCols, PlanRec, LiveTuple, ProjectedCols, Projects, RowsOf;
    ghost var p := query.plan;
    query.Begin();
    rows, tuples := [], [];
    NoRows(p, idxs, out);
    query.EndIff();
    while !query.IsEnd()
      invariant query.Open() && (query.IsEnd() <==> query.todo == {}) && fresh(query.Repr - old(query.Repr))
      invariant RowsOf(p, idxs, out, tuples, rows)
      invariant forall t :: t in Yield(p, old(query.fed)) <==> t in tuples || t in query.todo
      invariant forall t :: t in tuples ==> t !in query.todo
      decreases query.todo
    {
      var rec := query.Rec();
      var row := ProjectRec(query.cols, idxs, out, rec);
      query.OpenParts();
      OneMoreRow(p, idxs, out, tuples, rows, query.current, row);
      rows, tuples := rows + [row], tuples + [query.current];
      query.Next();
      query.EndIff();
    }
  }

  lemma {:induction false} NoRows(p: Plan, idxs: seq<nat>, out: seq<Column>)
    requires ProjectedCols(PlanCols(p), idxs, out)
    ensures RowsOf(p, idxs, out, [], [])
  {
  }

  // ----- select -----

  /** The where clause meets the limits of the comparison: proper literals, and columns that can be compared. */
  ghost predicate Limited(schema: Schema, from: seq<Source>, where: seq<ParsedCond>)
    requires SchemaOk(schema) && FromSchema(schema, AllCols(from))
  {
    forall c :: c in where ==> ProperLiteral(c) && (CheckCond(schema, AllCols(from), c).Ok? ==>
      LimitedCond(schema, from, CheckCond(schema, AllCols(from), c).value))
  }

  ghost predicate LimitedCond(schema: Schema, from: seq<Source>, c: Condition) {
    WellTyped(schema, c) && Solved(Names(from), c) ==> Comparables(schema, from, c)
  }

  lemma {:induction false} CheckedCondsOk(schema: Schema, from: seq<Source>, where: seq<ParsedCond>,
                                          conds: seq<Condition>)
    requires SchemaOk(schema) && FromOk(schema, from) && FromSchema(schema, AllCols(from))
    requires Limited(schema, from, where)
    requires CheckedAs(schema, AllCols(from), where, conds) && forall c :: c in conds ==> Solved(Names(from), c)
    ensures CondsOk(schema, from, conds)
  {
    forall c | c in conds ensures Comparables(schema, from, c) && Owner(Names(from), c) < |from| {
      var i :| 0 <= i < |conds| && conds[i] == c;
      assert where[i] in where;
      CheckedWellTyped(schema, AllCols(from), where[i]);
      assert Names(from)[..|from|] == Names(from);
      SolvedOwner(Names(from), |from|, c);
    }
  }

  ghost predicate SelectorsResolve(schema: Schema, cols: seq<Column>, sel: seq<TabCol>) {
    forall k :: 0 <= k < |sel| ==> Resolve(schema, cols, sel[k]).Ok?
  }

  /** The error is that of the first selector that cannot be resolved. */
  ghost predicate SelectorError(schema: Schema, cols: seq<Column>, sel: seq<TabCol>, e: Error) {
    exists k :: 0 <= k < |sel| && Resolve(schema, cols, sel[k]) == Err(e)
      && forall j :: 0 <= j < k ==> Resolve(schema, cols, sel[j]).Ok?
  }

  /** The selected columns: all of them, or the given ones resolved. */
  method Selectors(schema: Schema, cols: seq<Column>, sel: seq<TabCol>) returns (r: Result<seq<TabCol>>)
    requires FromSchema(schema, cols)
    ensures sel == [] ==> r.Ok? && |r.value| == |cols| && forall k :: 0 <= k < |cols| ==> r.value[k] == cols[k].Ref()
    ensures r.Ok? <==> SelectorsResolve(schema, cols, sel)
    ensures r.Err? ==> SelectorError(schema, cols, sel, r.error)
    ensures sel != [] && r.Ok? ==> |r.value| == |sel| && forall k :: 0 <= k < |sel| ==>
      Resolve(schema, cols, sel[k]) == Ok(r.value[k])
  {
    var out: seq<TabCol> := [];
    if sel == [] {
      for k := 0 to |cols|
        invariant |out| == k && forall j :: 0 <= j < k ==> out[j] == cols[j].Ref()
      {
        out := out + [cols[k].Ref()];
      }
    } else {
      for k := 0 to |sel|
        invariant |out| == k && forall j :: 0 <= j < k ==> Resolve(schema, cols, sel[j]) == Ok(out[j])
      {
        var one := CheckColumn(schema, cols, sel[k]);
        if one.Err? {
          return Err(one.error);
        }
        out := out + [one.value];
      }
    }
    return Ok(out);
  }

  datatype Answer = Answer(cols: seq<Column>, rows: seq<Bytes>)

  /** The answer to a query: the projections of exactly those combinations of live rows on whose combined record
      every condition evaluates to true, each combination once. */
  ghost predicate Answers(schema: Schema, from: seq<Source>, conds: seq<Condition>, idxs: seq<nat>,
                          tuples: seq<Tuple>, a: Answer)
    requires FromOk(schema, from) && CondsOk(schema, from, conds) && |from| > 0
  {
    var p := Chain(from, conds, 0);
    && ProjectedCols(PlanCols(p), idxs, a.cols) && RowsOf(p, idxs, a.cols, tuples, a.rows)
    && (forall t :: t in tuples <==> LiveTuple(p, t) && Passes(schema, from, conds, t))
  }

  ghost predicate Passes(schema: Schema, from: seq<Source>, conds: seq<Condition>, t: Tuple)
    requires FromOk(schema, from) && CondsOk(schema, from, conds) && |from| > 0 && LiveTuple(Chain(from, conds, 0), t)
  {
    var p := Chain(from, conds, 0);
    forall c :: c in conds ==> (CondsEvaluable(schema, from, conds, c); EvalCond(PlanCols(p), c, PlanRec(p, t)))
  }

  lemma {:induction false} PassesIffHold(schema: Schema, from: seq<Source>, conds: seq<Condition>, t: Tuple)
    requires FromOk(schema, from) && CondsOk(schema, from, conds) && |from| > 0
    ensures t in Yield(Chain(from, conds, 0), map[]) <==>
      LiveTuple(Chain(from, conds, 0), t) && Passes(schema, from, conds, t)
  {
    hide FromOk, CondsOk;
    var p := Chain(from, conds, 0);
    QueryMeaning(schema, from, conds, t);
    if LiveTuple(p, t) {
      forall c | c in conds ensures Holds(PlanEnv(p, t), c) <==>
        (CondsEvaluable(schema, from, conds, c); EvalCond(PlanCols(p), c, PlanRec(p, t))) {
        CondsEvaluable(schema, from, conds, c);
      }
    }
  }

  lemma {:induction false} PlanFacts(schema: Schema, from: seq<Source>, conds: seq<Condition>)
    requires FromOk(schema, from) && CondsOk(schema, from, conds) && |from| > 0
    ensures var p := Chain(from, conds, 0); LaidOut(PlanCols(p)) && PlanReady(p, map[])
  {
    var p := Chain(from, conds, 0);
    ChainOk(schema, from, conds, 0);
    PlanLaidOut(p);
    ChainTyped(schema, from, conds, 0);
    TypedReady(p, map[], map[]);
  }

  lemma {:induction false} AllColsRefs(from: seq<Source>, n: nat, t: TabCol)
    requires n <= |from|
    ensures t in Refs(AllCols(from[..n])) <==> exists j :: 0 <= j < n && t in Refs(from[j].cols)
  {
    hide Refs;
    if n > 0 {
      AllColsRefs(from, n - 1, t);
      assert from[..n][..n - 1] == from[..n - 1];
      RefsConcat(AllCols(from[..n - 1]), from[n - 1].cols);
      forall j | 0 <= j < n - 1 && t in Refs(from[j].cols) ensures exists k :: 0 <= k < n && t in Refs(from[k].cols) { }
    } else {
      NoCols(t);
    }
  }

  lemma NoCols(t: TabCol)
    ensures t !in Refs([])
  {
  }

  /** The plan has the columns of the tables in the from list and no others. */
  lemma {:induction false} PlanHasAllCols(schema: Schema, from: seq<Source>, conds: seq<Condition>, t: TabCol)
    requires FromOk(schema, from) && |from| > 0
    ensures t in Refs(PlanCols(Chain(from, conds, 0))) <==> t in Refs(AllCols(from))
  {
    ChainRefs(schema, from, conds, 0, t);
    AllColsRefs(from, |from|, t);
    assert from[..|from|] == from;
  }

  /** What it takes for a query to be answered: every condition passes its check and mentions only tables of the from
      list, and every selected column is a column of these tables. */
  ghost predicate CanAnswer(schema: Schema, from: seq<Source>, sel: seq<TabCol>, where: seq<ParsedCond>)
    requires SchemaOk(schema) && FromSchema(schema, AllCols(from))
  {
    && WhereOk(schema, Names(from), AllCols(from), where)
    && (forall k :: 0 <= k < |sel| ==> SelectorOk(schema, from, sel[k]))
  }

  ghost predicate SelectorOk(schema: Schema, from: seq<Source>, t: TabCol) {
    var r := Resolve(schema, AllCols(from), t);
    r.Ok? && r.value in Refs(AllCols(from))
  }

  lemma {:induction false} SelectorsOk(schema: Schema, from: seq<Source>, conds: seq<Condition>, sel: seq<TabCol>,
                                       out: seq<TabCol>)
    requires FromOk(schema, from) && |from| > 0
    requires sel == [] ==> |out| == |AllCols(from)| && forall k :: 0 <= k < |out| ==> out[k] == AllCols(from)[k].Ref()
    requires sel != [] ==> |out| == |sel| && forall k :: 0 <= k < |sel| ==>
      Resolve(schema, AllCols(from), sel[k]) == Ok(out[k])
    ensures (forall k :: 0 <= k < |out| ==> out[k] in Refs(PlanCols(Chain(from, conds, 0)))) <==>
            (forall k :: 0 <= k < |sel| ==> SelectorOk(schema, from, sel[k]))
  {
    hide FromOk, PlanCols;
    forall k | 0 <= k < |out|
      ensures out[k] in Refs(PlanCols(Chain(from, conds, 0))) <==> out[k] in Refs(AllCols(from))
    {
      PlanHasAllCols(schema, from, conds, out[k]);
    }
    if sel != [] {
      forall k | 0 <= k < |sel| ensures SelectorOk(schema, from, sel[k]) <==> out[k] in Refs(AllCols(from)) { }
    }
  }

  /** The part of select_from after the checks: build, project, run. */
  method RunQuery(schema: Schema, tables: seq<Table>, sel: seq<TabCol>, parts: seq<seq<Condition>>,
                  ghost store: set<object>,
                  ghost from: seq<Source>, ghost conds: seq<Condition>)
    returns (r: Result<Answer>, ghost idxs: seq<nat>, ghost tuples: seq<Tuple>)
    requires Queryable(schema, tables, store, from) && CondsOk(schema, from, conds)
    requires |parts| == |tables| && forall i :: 0 <= i < |tables| ==> parts[i] == Keep(conds, OwnedBy(Names(from), i))
    ensures r.Ok? <==> forall k :: 0 <= k < |sel| ==> sel[k] in Refs(PlanCols(Chain(from, conds, 0)))
    ensures r.Err? ==> r.error == ColumnNotFound
    ensures r.Ok? ==> Answers(schema, from, conds, idxs, tuples, r.value) && |idxs| == |sel|
    ensures r.Ok? ==> forall k :: 0 <= k < |sel| ==> idxs[k] == FindCol(PlanCols(Chain(from, conds, 0)), sel[k])
  {
    hide QlNode.Linked, Table.Holding, PlanOk, FromOk, CondsOk, PlanReady, RowsOf, Passes, Yield;
    idxs, tuples := [], [];
    var query := BuildPlan(schema, tables, parts, store, from, conds);
    PlanFacts(schema, from, conds);
    query.LinkedParts();
    var proj := ProjectCols(query.cols, sel);
    if proj.Err? {
      return Err(proj.error), idxs, tuples;
    }
    idxs := proj.value.0;
    var rows;
    rows, tuples := RunPlan(query, proj.value.0, proj.value.1);
    forall t ensures t in tuples <==> LiveTuple(Chain(from, conds, 0), t) && Passes(schema, from, conds, t) {
      PassesIffHold(schema, from, conds, t);
    }
    return Ok(Answer(proj.value.1, rows)), idxs, tuples;
  }

  /** The output columns are those asked for: every column of the from list in order, or each selector's column. */
  ghost predicate Selects(schema: Schema, from: seq<Source>, conds: seq<Condition>, sel: seq<TabCol>, idxs: seq<nat>)
    requires |from| > 0
  {
    var cols := PlanCols(Chain(from, conds, 0));
    if sel == [] then
      |idxs| == |AllCols(from)| && forall k :: 0 <= k < |idxs| ==> idxs[k] == FindCol(cols, AllCols(from)[k].Ref())
    else
      |idxs| == |sel| && forall k :: 0 <= k < |sel| ==>
        (var t := Resolve(schema, AllCols(from), sel[k]); t.Ok? && idxs[k] == FindCol(cols, t.value))
  }

  // ----- what an answer means -----

  /** Column j of the answer is asked to be column u. */
  ghost predicate SelectsColumn(schema: Schema, from: seq<Source>, sel: seq<TabCol>, j: nat, u: TabCol) {
    if sel == [] then j < |AllCols(from)| && u == AllCols(from)[j].Ref()
    else j < |sel| && NamesColumn(schema, AllCols(from), sel[j], u)
  }

  ghost predicate SelectsSome(schema: Schema, from: seq<Source>, sel: seq<TabCol>, j: nat) {
    exists u :: SelectsColumn(schema, from, sel, j, u)
  }

  /** Column j of the answer is called like u, and has its values. */
  ghost predicate ShowsColumn(from: seq<Source>, tuples: seq<Tuple>, a: Answer, j: nat, u: TabCol)
    requires forall t :: t in tuples ==> Combination(from, t)
  {
    j < |a.cols| && a.cols[j].Ref() == u && forall k :: 0 <= k < |a.rows| && k < |tuples| ==>
      u in CombinedRow(from, tuples[k]) && DecodeRow(a.cols, a.rows[k])[j] == CombinedRow(from, tuples[k])[u]
  }

  /** The rows of the answer are the combinations of live rows of which the where clause holds, each once, with the
      values of the columns asked for. */
  ghost predicate MeansAnswer(schema: Schema, from: seq<Source>, sel: seq<TabCol>, where: seq<ParsedCond>,
                              tuples: seq<Tuple>, a: Answer) {
    && NoDup(tuples) && |a.rows| == |tuples|
    && (forall t :: t in tuples <==>
        Combination(from, t) && WhereHolds(schema, AllCols(from), where, CombinedRow(from, t)))
    && |a.cols| == (if sel == [] then |AllCols(from)| else |sel|)
    && (forall j: nat :: j < |a.cols| ==> SelectsSome(schema, from, sel, j))
    && (forall j: nat, u :: j < |a.cols| && SelectsColumn(schema, from, sel, j, u) ==>
        ShowsColumn(from, tuples, a, j, u))
  }

  /** The combinations answered are those of which the where clause holds. */
  lemma {:induction false} TuplesMeaning(schema: Schema, from: seq<Source>, where: seq<ParsedCond>,
                                         conds: seq<Condition>, t: Tuple)
    requires SchemaOk(schema) && FromSchema(schema, AllCols(from)) && FromOk(schema, from) && |from| > 0
    requires CheckedAs(schema, AllCols(from), where, conds) && CondsOk(schema, from, conds)
    requires forall c :: c in where ==> ProperLiteral(c)
    ensures LiveTuple(Chain(from, conds, 0), t) && Passes(schema, from, conds, t) <==>
      Combination(from, t) && WhereHolds(schema, AllCols(from), where, CombinedRow(from, t))
  {
    hide FromOk, CondsOk, Chain, WhereHolds, AllHold, Passes, CheckedAs, SchemaOk, FromSchema, CheckCond, PlanEnv;
    ChainOk(schema, from, conds, 0);
    PassesIffHold(schema, from, conds, t);
    QueryMeaning(schema, from, conds, t);
    LiveWidth(Chain(from, conds, 0), t);
    if |t| == |from| {
      assert t[0..] == t && t[..0] == t[..0];
      ChainTuple(schema, from, conds, 0, t);
      if Combination(from, t) { CombinationMeaning(schema, from, AllCols(from), where, conds, t); }
    }
  }

  lemma {:induction false} LiveWidth(p: Plan, t: Tuple)
    ensures LiveTuple(p, t) ==> |t| == Width(p)
  {
    match p
    case Scan(_, _, _, _) =>
    case Join(l, r) =>
  }

  /** A column of the answer shows the values of the column that it was chosen as. */
  lemma {:induction false} ColumnShown(schema: Schema, from: seq<Source>, conds: seq<Condition>, idxs: seq<nat>,
                                       tuples: seq<Tuple>, a: Answer, j: nat, u: TabCol)
    requires FromOk(schema, from) && CondsOk(schema, from, conds) && |from| > 0
    requires Answers(schema, from, conds, idxs, tuples, a) && forall t :: t in tuples ==> Combination(from, t)
    requires j < |a.cols| && idxs[j] == FindCol(PlanCols(Chain(from, conds, 0)), u)
    ensures ShowsColumn(from, tuples, a, j, u)
  {
    hide FromOk, CondsOk, Passes, Chain, CombinedRow, RowOk, Combination;
    var p := Chain(from, conds, 0);
    var cols := PlanCols(p);
    assert cols[idxs[j]].Ref() == u;
    forall k | 0 <= k < |a.rows|
      ensures u in CombinedRow(from, tuples[k]) && DecodeRow(a.cols, a.rows[k])[j] == CombinedRow(from, tuples[k])[u]
    {
      var t := tuples[k];
      assert t in tuples && IsRowOf(p, idxs, a.cols, t, a.rows[k]);
      RowShown(schema, from, conds, t, u);
    }
  }

  lemma {:induction false} RowShown(schema: Schema, from: seq<Source>, conds: seq<Condition>, t: Tuple, u: TabCol)
    requires FromOk(schema, from) && |from| > 0 && Combination(from, t) && LiveTuple(Chain(from, conds, 0), t)
    requires FindCol(PlanCols(Chain(from, conds, 0)), u) < |PlanCols(Chain(from, conds, 0))|
    ensures var (p, row) := (Chain(from, conds, 0), CombinedRow(from, t));
            var c := PlanCols(p)[FindCol(PlanCols(p), u)];
            u in row && row[u] == Decode(c.ty, Field(PlanRec(p, t), c))
  {
    var p := Chain(from, conds, 0);
    assert t[0..] == t;
    ChainValues(schema, from, conds, 0, t);
    assert PlanCols(p)[FindCol(PlanCols(p), u)].Ref() == u;
    assert u in Refs(PlanCols(p));
  }

  /** The answer to a query means what was asked. */
  lemma {:induction false} AnswerMeaning(schema: Schema, from: seq<Source>, sel: seq<TabCol>, where: seq<ParsedCond>,
                                         conds: seq<Condition>, idxs: seq<nat>, tuples: seq<Tuple>, a: Answer)
    requires SchemaOk(schema) && FromSchema(schema, AllCols(from)) && FromOk(schema, from) && |from| > 0
    requires CheckedAs(schema, AllCols(from), where, conds) && CondsOk(schema, from, conds)
    requires forall c :: c in where ==> ProperLiteral(c)
    requires Answers(schema, from, conds, idxs, tuples, a) && Selects(schema, from, conds, sel, idxs)
    ensures MeansAnswer(schema, from, sel, where, tuples, a)
  {
    hide FromOk, CondsOk, Chain, WhereHolds, Passes, CheckedAs, SchemaOk, FromSchema, CheckCond, ShowsColumn, PlanCols,
      Resolve, NamesColumn, Combination, CombinedRow, LiveTuple;
    forall t ensures t in tuples <==>
      Combination(from, t) && WhereHolds(schema, AllCols(from), where, CombinedRow(from, t))
    {
      TuplesMeaning(schema, from, where, conds, t);
    }
    forall j: nat | j < |a.cols| ensures SelectsSome(schema, from, sel, j) {
      if sel != [] {
        ResolveMeaning(schema, AllCols(from), sel[j]);
        assert SelectsColumn(schema, from, sel, j, Resolve(schema, AllCols(from), sel[j]).value);
      } else {
        assert SelectsColumn(schema, from, sel, j, AllCols(from)[j].Ref());
      }
    }
    forall j: nat, u | j < |a.cols| && SelectsColumn(schema, from, sel, j, u)
      ensures ShowsColumn(from, tuples, a, j, u)
    {
      if sel != [] { ResolveMeaning(schema, AllCols(from), sel[j]); }
      ColumnShown(schema, from, conds, idxs, tuples, a, j, u);
    }
    assert NoDup(tuples) && |a.rows| == |tuples|;
    assert |a.cols| == if sel == [] then |AllCols(from)| else |sel|;
  }

  /** Why a query fails: the first selector that cannot be resolved, then the first error of the where clause, then a
      condition on a table outside the from list, and last a selected column of such a table. */
  ghost predicate SelectError(schema: Schema, from: seq<Source>, sel: seq<TabCol>, where: seq<ParsedCond>, e: Error)
    requires SchemaOk(schema) && FromSchema(schema, AllCols(from))
  {
    if !SelectorsResolve(schema, AllCols(from), sel) then SelectorError(schema, AllCols(from), sel, e)
    else if !AllChecked(schema, AllCols(from), where) then WhereError(schema, AllCols(from), where, e)
    else if !WhereOk(schema, Names(from), AllCols(from), where) then e == AssertionFailed
    else e == ColumnNotFound
  }

  /** select_from: checks the selectors and the where clause, distributes the conditions, and runs the plan. */
  method SelectFrom(schema: Schema, tables: seq<Table>, sel: seq<TabCol>, where: seq<ParsedCond>,
                    ghost store: set<object>,
                    ghost from: seq<Source>)
    returns (r: Result<Answer>, ghost conds: seq<Condition>, ghost idxs: seq<nat>, ghost tuples: seq<Tuple>)
    requires Queryable(schema, tables, store, from) && FromSchema(schema, AllCols(from))
    requires Limited(schema, from, where)
    ensures r.Ok? <==> CanAnswer(schema, from, sel, where)
    ensures r.Err? ==> SelectError(schema, from, sel, where, r.error)
    ensures r.Ok? ==> CheckedAs(schema, AllCols(from), where, conds) && CondsOk(schema, from, conds)
    ensures r.Ok? ==> Answers(schema, from, conds, idxs, tuples, r.value)
    ensures r.Ok? ==> Selects(schema, from, conds, sel, idxs)
    ensures r.Ok? ==> MeansAnswer(schema, from, sel, where, tuples, r.value)
  {
    hide Table.Holding, FromOk, CondsOk, SchemaOk, CheckCond, FromSchema, Answers, PlanCols, MeansAnswer;
    conds, idxs, tuples := [], [], [];
    var allCols := GetAllCols(tables, store, from);
    var selected := Selectors(schema, allCols, sel);
    if selected.Err? {
      assert exists k :: 0 <= k < |sel| && !SelectorOk(schema, from, sel[k]);
      return Err(selected.error), conds, idxs, tuples;
    }
    var checked := CheckWhere(schema, allCols, where);
    if checked.Err? {
      assert !WhereOk(schema, Names(from), AllCols(from), where);
      return Err(checked.error), conds, idxs, tuples;
    }
    conds := checked.value;
    var names := seq(|tables|, i requires 0 <= i < |tables| => tables[i].name);
    assert names == Names(from);
    var parts, rest := DistributeConds(names, checked.value);
    SolvedWhere(schema, names, allCols, where, conds);
    if rest != [] {
      return Err(AssertionFailed), conds, idxs, tuples;
    }
    SelectorsOk(schema, from, conds, sel, selected.value);
    CheckedCondsOk(schema, from, where, conds);
    r, idxs, tuples := RunQuery(schema, tables, selected.value, parts, store, from, conds);
    if r.Ok? { AnswerMeaning(schema, from, sel, where, conds, idxs, tuples, r.value); }
  }
}
