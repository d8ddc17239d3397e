/** A query as the filtered product of its tables, and the chain of joins that select_from builds for it. */
module Product {
  import opened Common
  import opened KeyOrder
  import opened Rows
  import opened Conditions
  import opened WhereClause
  import opened TableIndexes
  import opened Tables
  import opened Plans

  /** One table of the from list. */
  datatype Source = Source(name: string, cols: seq<Column>, recs: Records)

  function Names(from: seq<Source>): (r: seq<string>)
    ensures |r| == |from| && forall i :: 0 <= i < |from| ==> r[i] == from[i].name
  {
    seq(|from|, i requires 0 <= i < |from| => from[i].name)
  }

  ghost predicate SourceOk(schema: Schema, s: Source) {
    && LaidOut(s.cols) && AllRowsOk(s.cols, s.recs)
    && (forall i :: 0 <= i < |s.cols| ==> s.cols[i].tab == s.name)
    && s.name in schema && schema[s.name] == s.cols
  }

  /** Sound tables, none of them twice; those that feed others have no two columns of one name. */
  ghost predicate FromOk(schema: Schema, from: seq<Source>) {
    && (forall i :: 0 <= i < |from| ==> SourceOk(schema, from[i]))
    && (forall i, j :: 0 <= i < j < |from| ==> from[i].name != from[j].name)
    && (forall i :: 0 <= i < |from| - 1 ==> DistinctNames(from[i].cols))
  }

  /** The value occurs in the column of a live row. */
  ghost predicate Stored(s: Source, t: TabCol, v: RawValue) {
    t in Refs(s.cols) && exists r :: r in s.recs && v == FieldValue(s.cols, s.recs[r], t)
  }

  /** No date in the one column clashes with one in the other. */
  ghost predicate NoClash(from: seq<Source>, l: TabCol, r: TabCol) {
    forall i, j, v, w :: 0 <= i < |from| && 0 <= j < |from| && Stored(from[i], l, v) && Stored(from[j], r, w) ==>
      !(v.ty == w.ty == DATETIME && Clash(v.raw, w.raw))
  }

  /** Does the scan that owns the condition have to turn it round, its left side being on an earlier table? */
  predicate Turned(from: seq<Source>, c: Condition) {
    c.rhs.ColumnOf? && TabIndex(Names(from), c.lhs.tab) < TabIndex(Names(from), c.rhs.col.tab)
  }

  /** What the comparison of two columns needs beyond their types. The right one is no narrower than the left; when the
      condition is turned round they have one width, and no two dates in them clash unless the operator is = or <>. */
  ghost predicate Comparables(schema: Schema, from: seq<Source>, c: Condition) {
    && WellTyped(schema, c)
    && (c.rhs.ColumnOf? ==>
        var l, r := ColumnIn(schema, c.lhs), ColumnIn(schema, c.rhs.col);
        if Turned(from, c) then l.len == r.len && (c.op in {EQ, NE} || NoClash(from, c.lhs, c.rhs.col))
        else l.len <= r.len)
  }

  ghost predicate CondsOk(schema: Schema, from: seq<Source>, conds: seq<Condition>) {
    forall c :: c in conds ==> Comparables(schema, from, c) && Owner(Names(from), c) < |from|
  }

  /** The conditions of the i-th scan. */
  function OwnConds(from: seq<Source>, conds: seq<Condition>, i: nat): (r: seq<Condition>)
    requires i < |from|
    ensures var part := Keep(conds, OwnedBy(Names(from), i));
            |r| == |part| && forall k :: 0 <= k < |part| ==> r[k] == SwapOnto(from[i].name, part[k])
  {
    var part := Keep(conds, OwnedBy(Names(from), i));
    seq(|part|, k requires 0 <= k < |part| => SwapOnto(from[i].name, part[k]))
  }

  ghost function ScanOf(from: seq<Source>, conds: seq<Condition>, i: nat): Plan
    requires i < |from|
  {
    Scan(from[i].name, from[i].cols, from[i].recs, OwnConds(from, conds, i))
  }

  /** The joins of the tables from the i-th on, leaning to the right. */
  ghost function Chain(from: seq<Source>, conds: seq<Condition>, i: nat): Plan
    requires i < |from|
    decreases |from| - i
  {
    if i == |from| - 1 then ScanOf(from, conds, i) else Join(ScanOf(from, conds, i), Chain(from, conds, i + 1))
  }

  // ----- the chain is a sound plan -----

  lemma {:induction false} ChainRefs(schema: Schema, from: seq<Source>, conds: seq<Condition>, i: nat, t: TabCol)
    requires FromOk(schema, from) && i < |from|
    ensures t in Refs(PlanCols(Chain(from, conds, i))) <==> exists j :: i <= j < |from| && t in Refs(from[j].cols)
    decreases |from| - i
  {
    hide Refs, FromOk, PlanCols, OwnConds;
    ScanColumns(from, conds, i);
    if i < |from| - 1 {
      ChainRefs(schema, from, conds, i + 1, t);
      JoinRefs(ScanOf(from, conds, i), Chain(from, conds, i + 1));
      forall j | i + 1 <= j < |from| && t in Refs(from[j].cols) ensures exists k ::
        i <= k < |from| && t in Refs(from[k].cols) { }
    }
  }

  lemma ScanColumns(from: seq<Source>, conds: seq<Condition>, i: nat)
    requires i < |from|
    ensures PlanCols(ScanOf(from, conds, i)) == from[i].cols
  {
  }

  lemma RefsOfTable(schema: Schema, from: seq<Source>, i: nat, t: TabCol)
    requires FromOk(schema, from) && i < |from|
    ensures t in Refs(from[i].cols) ==> t.tab == from[i].name
  {
  }

  lemma {:induction false} ChainOk(schema: Schema, from: seq<Source>, conds: seq<Condition>, i: nat)
    requires FromOk(schema, from) && i < |from|
    ensures PlanOk(Chain(from, conds, i)) && Width(Chain(from, conds, i)) == |from| - i
    decreases |from| - i
  {
    assert SourceOk(schema, from[i]);
    if i < |from| - 1 {
      ChainOk(schema, from, conds, i + 1);
      forall t | t in Refs(from[i].cols) ensures t !in Refs(PlanCols(Chain(from, conds, i + 1))) {
        ChainRefs(schema, from, conds, i + 1, t);
        RefsOfTable(schema, from, i, t);
        forall j: nat | i + 1 <= j < |from| ensures t !in Refs(from[j].cols) { RefsOfTable(schema, from, j, t); }
      }
    }
  }

  // ----- the chain is well typed -----

  /** The columns of the tables before the i-th. */
  ghost function ScopeBelow(from: seq<Source>, i: nat): Scope
    requires i <= |from|
  {
    if i == 0 then map[] else ScopeBelow(from, i - 1) + TypesOf(from[i - 1].cols)
  }

  lemma {:induction false} ScopeHas(schema: Schema, from: seq<Source>, i: nat, j: nat, t: TabCol)
    requires FromOk(schema, from) && j < i <= |from| && t in Refs(from[j].cols)
    ensures t in ScopeBelow(from, i) && ScopeBelow(from, i)[t] == ShapeOf(ColumnIn(schema, t))
  {
    hide TypesOf, Refs;
    RefsOfTable(schema, from, j, t);
    RefsOfTable(schema, from, i - 1, t);
    TypesHas(from[i - 1].cols, t);
    assert SourceOk(schema, from[j]);
    if j < i - 1 { ScopeHas(schema, from, i - 1, j, t); }
  }

  lemma {:induction false} TypesHas(cols: seq<Column>, t: TabCol)
    ensures t in TypesOf(cols) <==> t in Refs(cols)
    ensures t in Refs(cols) ==> TypesOf(cols)[t] == ShapeOf(cols[FindCol(cols, t)])
  {
  }

  /** The table of a column that exists is the one its name says. */
  lemma TableOf(schema: Schema, from: seq<Source>, t: TabCol)
    requires FromOk(schema, from) && t.tab in schema && t in Refs(schema[t.tab])
    requires TabIndex(Names(from), t.tab) < |from|
    ensures t in Refs(from[TabIndex(Names(from), t.tab)].cols)
  {
    var k := TabIndex(Names(from), t.tab);
    assert SourceOk(schema, from[k]);
  }

  lemma {:induction false} OwnedTyped(schema: Schema, from: seq<Source>, i: nat, c: Condition)
    requires FromOk(schema, from) && i < |from| && Comparables(schema, from, c) && Owner(Names(from), c) == i
    ensures CondTyped(from[i].cols, ScopeBelow(from, i), from[i].name, SwapOnto(from[i].name, c))
  {
    assert SourceOk(schema, from[i]);
    TableOf(schema, from, c.lhs);
    match c.rhs {
      case ValueOf(v) =>
      case ColumnOf(t) =>
        TableOf(schema, from, t);
        var x, y := TabIndex(Names(from), c.lhs.tab), TabIndex(Names(from), t.tab);
        if x < i { ScopeHas(schema, from, i, x, c.lhs); }
        if y < i { ScopeHas(schema, from, i, y, t); }
    }
  }

  lemma {:induction false} ChainTyped(schema: Schema, from: seq<Source>, conds: seq<Condition>, i: nat)
    requires FromOk(schema, from) && CondsOk(schema, from, conds) && i < |from|
    ensures PlanTyped(Chain(from, conds, i), ScopeBelow(from, i))
    decreases |from| - i
  {
    ScanTyped(schema, from, conds, i);
    if i < |from| - 1 { ChainTyped(schema, from, conds, i + 1); }
  }

  lemma {:induction false} ScanTyped(schema: Schema, from: seq<Source>, conds: seq<Condition>, i: nat)
    requires FromOk(schema, from) && CondsOk(schema, from, conds) && i < |from|
    ensures PlanTyped(ScanOf(from, conds, i), ScopeBelow(from, i))
  {
    var own, part := OwnConds(from, conds, i), Keep(conds, OwnedBy(Names(from), i));
    forall c | c in own ensures CondTyped(from[i].cols, ScopeBelow(from, i), from[i].name, c) {
      var k :| 0 <= k < |own| && own[k] == c;
      assert part[k] in part;
      OwnedTyped(schema, from, i, part[k]);
    }
  }

  // ----- every condition is tested exactly where it belongs -----

  /** The values of all columns are those of live rows. */
  ghost predicate Proper(schema: Schema, from: seq<Source>, env: Env) {
    forall j, t :: 0 <= j < |from| && t in Refs(from[j].cols) ==> ProperAt(from[j], env, t)
  }

  ghost predicate ProperAt(s: Source, env: Env, t: TabCol) {
    t in env && Stored(s, t, env[t])
  }

  lemma {:induction false} StoredNumber(s: Source, t: TabCol, v: RawValue)
    requires Stored(s, t, v) && AllRowsOk(s.cols, s.recs)
    ensures ColShape(v.ty, |v.raw|) == ShapeOf(s.cols[FindCol(s.cols, t)])
    ensures Canonical(v.ty, v.raw) && (v.ty == FLOAT ==> !IsNaN(v.raw))
  {
    var r :| r in s.recs && v == FieldValue(s.cols, s.recs[r], t);
    RowTyped(s.cols, s.recs[r]);
    TypesHas(s.cols, t);
  }

  /** The sides of a condition that is turned round have values of one type and width, and ordered one way unless the
      operator is = or <>. */
  lemma TurnedSides(schema: Schema, from: seq<Source>, env: Env, i: nat, c: Condition)
    requires FromOk(schema, from) && Proper(schema, from, env) && i < |from|
    requires Comparables(schema, from, c) && Owner(Names(from), c) == i
    requires c.lhs.tab != from[i].name && c.rhs.ColumnOf?
    ensures c.lhs in env && c.rhs.col in env
    ensures var (l, r) := (env[c.lhs], env[c.rhs.col]);
            Comparable(l, r) && |l.raw| == |r.raw| && (c.op in {EQ, NE} || Turns(l, r))
  {
    hide LaidOut, AllRowsOk, SameDate, Timestamp;
    TableOf(schema, from, c.lhs);
    TableOf(schema, from, c.rhs.col);
    var x, y := TabIndex(Names(from), c.lhs.tab), TabIndex(Names(from), c.rhs.col.tab);
    assert SourceOk(schema, from[x]) && SourceOk(schema, from[y]);
    assert ProperAt(from[x], env, c.lhs) && ProperAt(from[y], env, c.rhs.col);
    StoredNumber(from[x], c.lhs, env[c.lhs]);
    StoredNumber(from[y], c.rhs.col, env[c.rhs.col]);
  }

  lemma SwapHolds(schema: Schema, from: seq<Source>, env: Env, i: nat, c: Condition)
    requires FromOk(schema, from) && Proper(schema, from, env) && i < |from|
    requires Comparables(schema, from, c) && Owner(Names(from), c) == i
    ensures Holds(env, SwapOnto(from[i].name, c)) <==> Holds(env, c)
  {
    hide FromOk, Proper, Comparables, Owner, Compare, Turns;
    if c.lhs.tab != from[i].name && c.rhs.ColumnOf? {
      TurnedSides(schema, from, env, i, c);
      SwapExact(c.op, env[c.lhs], env[c.rhs.col]);
    }
  }

  lemma ScanFilter(schema: Schema, from: seq<Source>, conds: seq<Condition>, i: nat, env: Env)
    requires FromOk(schema, from) && CondsOk(schema, from, conds) && Proper(schema, from, env) && i < |from|
    ensures AllHold(env, OwnConds(from, conds, i)) <==>
      forall c :: c in conds && Owner(Names(from), c) == i ==> Holds(env, c)
  {
    hide Holds;
    var own, part := OwnConds(from, conds, i), Keep(conds, OwnedBy(Names(from), i));
    forall k | 0 <= k < |own| ensures Holds(env, own[k]) <==> Holds(env, part[k]) {
      assert part[k] in part;
      SwapHolds(schema, from, env, i, part[k]);
    }
    SameOnAll(own, env, part, env);
  }

  lemma {:induction false} ChainFilter(schema: Schema, from: seq<Source>, conds: seq<Condition>, i: nat, env: Env)
    requires FromOk(schema, from) && CondsOk(schema, from, conds) && Proper(schema, from, env) && i < |from|
    ensures Filtered(Chain(from, conds, i), env) <==>
      forall c :: c in conds && i <= Owner(Names(from), c) ==> Holds(env, c)
    decreases |from| - i
  {
    hide Holds;
    ScanFilter(schema, from, conds, i, env);
    if i < |from| - 1 {
      ChainFilter(schema, from, conds, i + 1, env);
    } else {
      forall c | c in conds && i <= Owner(Names(from), c) ensures Owner(Names(from), c) == i { }
    }
  }

  lemma {:induction false} ChainProper(schema: Schema, from: seq<Source>, conds: seq<Condition>, i: nat, t: Tuple,
                                       j: nat, k: TabCol)
    requires FromOk(schema, from) && i < |from| && LiveTuple(Chain(from, conds, i), t)
    requires i <= j < |from| && k in Refs(from[j].cols)
    ensures ProperAt(from[j], PlanEnv(Chain(from, conds, i), t), k)
    decreases |from| - i
  {
    var p := Chain(from, conds, i);
    ChainOk(schema, from, conds, i);
    assert SourceOk(schema, from[i]);
    if i == |from| - 1 {
      SourceProper(from[i], t[0], k);
    } else {
      JoinEnv(p, t);
      if j == i {
        SourceProper(from[i], t[..1][0], k);
        assert k in Refs(PlanCols(p.left));
      } else {
        ChainProper(schema, from, conds, i + 1, t[1..], j, k);
        ChainRefs(schema, from, conds, i + 1, k);
      }
    }
  }

  lemma SourceProper(s: Source, rid: RecordID, k: TabCol)
    requires AllRowsOk(s.cols, s.recs) && rid in s.recs && k in Refs(s.cols)
    ensures ProperAt(s, Dict(s.cols, s.recs[rid]), k)
  {
  }

  /** The main claim about queries: the chain of joins yields a combination of rows exactly when every component is a
      live record and every condition, evaluated on the combined record, holds. */
  lemma {:induction false} QueryMeaning(schema: Schema, from: seq<Source>, conds: seq<Condition>, t: Tuple)
    requires FromOk(schema, from) && CondsOk(schema, from, conds) && |from| > 0
    ensures var p := Chain(from, conds, 0);
            t in Yield(p, map[]) <==> LiveTuple(p, t) && AllHold(PlanEnv(p, t), conds)
  {
    hide FromOk, CondsOk, Filtered, ProperAt, PlanTyped, PlanOk, Yield, Holds;
    var p := Chain(from, conds, 0);
    ChainOk(schema, from, conds, 0);
    ChainTyped(schema, from, conds, 0);
    if LiveTuple(p, t) {
      YieldMeaning(p, map[], map[], t);
      assert map[] + PlanEnv(p, t) == PlanEnv(p, t);
      forall j, k | 0 <= j < |from| && k in Refs(from[j].cols) ensures ProperAt(from[j], PlanEnv(p, t), k) {
        ChainProper(schema, from, conds, 0, t, j, k);
      }
      ChainFilter(schema, from, conds, 0, PlanEnv(p, t));
    }
  }

  /** On a combined record the conditions can be evaluated directly, and mean the same. */
  lemma {:induction false} CondsEvaluable(schema: Schema, from: seq<Source>, conds: seq<Condition>, c: Condition)
    requires FromOk(schema, from) && CondsOk(schema, from, conds) && |from| > 0 && c in conds
    ensures Evaluable(PlanCols(Chain(from, conds, 0)), c)
  {
    var p := Chain(from, conds, 0);
    TableOf(schema, from, c.lhs);
    ChainColumn(schema, from, conds, 0, TabIndex(Names(from), c.lhs.tab), c.lhs);
    if c.rhs.ColumnOf? {
      TableOf(schema, from, c.rhs.col);
      ChainColumn(schema, from, conds, 0, TabIndex(Names(from), c.rhs.col.tab), c.rhs.col);
    }
  }

  lemma {:induction false} ChainColumn(schema: Schema, from: seq<Source>, conds: seq<Condition>, i: nat, j: nat,
                                       k: TabCol)
    requires FromOk(schema, from) && i <= j < |from| && k in Refs(from[j].cols)
    ensures var cols := PlanCols(Chain(from, conds, i));
            k in Refs(cols) && ShapeOf(cols[FindCol(cols, k)]) == ShapeOf(ColumnIn(schema, k))
    decreases |from| - i
  {
    RefsOfTable(schema, from, j, k);
    assert SourceOk(schema, from[j]);
    if i < |from| - 1 {
      var p := Chain(from, conds, i);
      ChainOk(schema, from, conds, i);
      ChainRefs(schema, from, conds, i, k);
      if j > i {
        ChainColumn(schema, from, conds, i + 1, j, k);
      }
      JoinColumn(p.left, p.right, k);
    }
  }

  lemma {:induction false} JoinColumn(l: Plan, r: Plan, k: TabCol)
    requires Refs(PlanCols(l)) !! Refs(PlanCols(r)) && k in Refs(PlanCols(Join(l, r)))
    ensures var cols := PlanCols(Join(l, r));
            && (k in Refs(PlanCols(l)) ==>
                ShapeOf(cols[FindCol(cols, k)]) == ShapeOf(PlanCols(l)[FindCol(PlanCols(l), k)]))
            && (k in Refs(PlanCols(r)) ==>
                ShapeOf(cols[FindCol(cols, k)]) == ShapeOf(PlanCols(r)[FindCol(PlanCols(r), k)]))
  {
    var right := Shift(PlanCols(r), PlanLen(l));
    RefsShift(PlanCols(r), PlanLen(l));
    JoinLookup(PlanCols(l), right, k);
    ShiftLookup(PlanCols(r), PlanLen(l), k);
  }
}
