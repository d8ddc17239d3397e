/** The meaning of a query plan: which combinations of rows a tree of table scans and nested-loop joins yields. */
module Plans {
  import opened Common
  import opened KeyOrder
  import opened Rows
  import opened Conditions
  import opened TableIndexes
  import opened Tables
  import opened TableScan

  /** One record id per table of the plan, from left to right. */
  type Tuple = seq<RecordID>

  datatype Plan =
    | Scan(tab: string, cols: seq<Column>, recs: Records, conds: seq<Condition>)
    | Join(left: Plan, right: Plan)

  function Width(p: Plan): nat {
    match p
    case Scan(_, _, _, _) => 1
    case Join(l, r) => Width(l) + Width(r)
  }

  function Shift(cols: seq<Column>, delta: nat): (r: seq<Column>)
    ensures |r| == |cols| && forall i :: 0 <= i < |cols| ==> r[i] == cols[i].(offset := cols[i].offset + delta)
  {
    seq(|cols|, i requires 0 <= i < |cols| => cols[i].(offset := cols[i].offset + delta))
  }

  function PlanLen(p: Plan): nat {
    match p
    case Scan(_, cols, _, _) => RecordSize(cols)
    case Join(l, r) => PlanLen(l) + PlanLen(r)
  }

  /** The columns of the combined records: those of the right side are shifted behind those of the left. */
  function PlanCols(p: Plan): seq<Column> {
    match p
    case Scan(_, cols, _, _) => cols
    case Join(l, r) => PlanCols(l) + Shift(PlanCols(r), PlanLen(l))
  }

  /** Every component of the tuple is a live record of its table. */
  ghost predicate LiveTuple(p: Plan, t: Tuple) {
    match p
    case Scan(_, _, recs, _) => |t| == 1 && t[0] in recs
    case Join(l, r) => |t| == Width(p) && LiveTuple(l, t[..Width(l)]) && LiveTuple(r, t[Width(l)..])
  }

  /** The record that stands for a tuple: the records of its components one after the other. */
  ghost function PlanRec(p: Plan, t: Tuple): Bytes
    requires LiveTuple(p, t)
  {
    match p
    case Scan(_, _, recs, _) => recs[t[0]]
    case Join(l, r) => PlanRec(l, t[..Width(l)]) + PlanRec(r, t[Width(l)..])
  }

  ghost function PlanEnv(p: Plan, t: Tuple): Env
    requires LiveTuple(p, t)
  {
    Dict(PlanCols(p), PlanRec(p, t))
  }

  /** Tables are sound, no column occurs on both sides of a join, and none twice on the side whose values are fed. */
  ghost predicate PlanOk(p: Plan) {
    match p
    case Scan(tab, cols, recs, _) =>
      LaidOut(cols) && AllRowsOk(cols, recs) && forall i :: 0 <= i < |cols| ==> cols[i].tab == tab
    case Join(l, r) => PlanOk(l) && PlanOk(r) && Refs(PlanCols(l)) !! Refs(PlanCols(r)) && DistinctNames(PlanCols(l))
  }

  /** The values the right side is fed for a left row: what had been fed before takes precedence. */
  ghost function FedRight(l: Plan, a: Tuple, fed: Env): Env
    requires LiveTuple(l, a)
  {
    PlanEnv(l, a) + fed
  }

  /** The combinations that the plan yields when the values fed are known. */
  ghost function Yield(p: Plan, fed: Env): (rows: set<Tuple>)
    ensures forall t :: t in rows ==> |t| == Width(p) && LiveTuple(p, t)
    decreases p, 0
  {
    match p
    case Scan(tab, cols, recs, conds) => Singles(Qualified(cols, recs, FedConds(tab, conds, fed)))
    case Join(l, r) => JoinRows(l, r, fed, Yield(l, fed))
  }

  lemma FeedNothing(tab: string, conds: seq<Condition>)
    ensures FedConds(tab, conds, map[]) == conds
  {
  }

  ghost function Singles(rids: set<RecordID>): set<Tuple> {
    set r | r in rids :: [r]
  }

  lemma SinglesFacts(rids: set<RecordID>, rid: RecordID)
    ensures Singles(rids) == {} <==> rids == {}
    ensures Singles(rids - {rid}) == Singles(rids) - {[rid]}
    ensures [rid] in Singles(rids) <==> rid in rids
  {
    if rids != {} {
      var r :| r in rids;
      assert [r] in Singles(rids);
    }
  }

  ghost function Cross(a: Tuple, bs: set<Tuple>): set<Tuple> {
    set b | b in bs :: a + b
  }

  /** What a join yields for a set of left rows. */
  ghost function JoinRows(l: Plan, r: Plan, fed: Env, lefts: set<Tuple>): (rows: set<Tuple>)
    requires forall a :: a in lefts ==> |a| == Width(l) && LiveTuple(l, a)
    ensures forall t :: t in rows ==> |t| == Width(l) + Width(r) && LiveTuple(Join(l, r), t)
    decreases r, 1
  {
    var rows := set a, b | a in lefts && b in Yield(r, FedRight(l, a, fed)) :: a + b;
    forall t | t in rows ensures |t| == Width(l) + Width(r) && LiveTuple(Join(l, r), t) {
      var a, b :| a in lefts && b in Yield(r, FedRight(l, a, fed)) && t == a + b;
      assert t[..Width(l)] == a && t[Width(l)..] == b;
    }
    rows
  }

  /** With some right rows left for the current left row: these, and all the rows for the other left rows. */
  ghost function Remaining(l: Plan, r: Plan, fed: Env, lefts: set<Tuple>, current: Tuple,
                           rights: set<Tuple>): set<Tuple>
    requires lefts <= Yield(l, fed)
  {
    Cross(current, rights) + JoinRows(l, r, fed, lefts - {current})
  }

  lemma {:induction false} JoinRowsAt(l: Plan, r: Plan, fed: Env, lefts: set<Tuple>, t: Tuple)
    requires forall a :: a in lefts ==> |a| == Width(l) && LiveTuple(l, a)
    requires |t| == Width(l) + Width(r)
    ensures t in JoinRows(l, r, fed, lefts) <==>
      t[..Width(l)] in lefts && t[Width(l)..] in Yield(r, FedRight(l, t[..Width(l)], fed))
  {
    var a, b := t[..Width(l)], t[Width(l)..];
    assert t == a + b;
    if t in JoinRows(l, r, fed, lefts) {
      var a', b' :| a' in lefts && b' in Yield(r, FedRight(l, a', fed)) && t == a' + b';
      assert a' == a && b' == b;
    }
  }

  lemma CrossAt(a: Tuple, bs: set<Tuple>, t: Tuple)
    requires |a| <= |t|
    ensures t in Cross(a, bs) <==> t[..|a|] == a && t[|a|..] in bs
  {
    if t[..|a|] == a { assert t == a + t[|a|..]; }
    if t in Cross(a, bs) {
      var b :| b in bs && t == a + b;
      assert t[..|a|] == a && t[|a|..] == b;
    }
  }

  /** A join's rows split into those of one left row and those of the others. */
  lemma {:induction false} JoinRowsSplit(l: Plan, r: Plan, fed: Env, lefts: set<Tuple>, a: Tuple)
    requires forall x :: x in lefts ==> |x| == Width(l) && LiveTuple(l, x)
    requires a in lefts
    ensures JoinRows(l, r, fed, lefts) == Cross(a, Yield(r, FedRight(l, a, fed))) + JoinRows(l, r, fed, lefts - {a})
    ensures Cross(a, Yield(r, FedRight(l, a, fed))) !! JoinRows(l, r, fed, lefts - {a})
  {
    var n := Width(l) + Width(r);
    var first, all, others := Cross(a, Yield(r, FedRight(l, a, fed))), JoinRows(l, r, fed, lefts),
      JoinRows(l, r, fed, lefts - {a});
    forall t | |t| == n ensures (t in all <==> t in first || t in others) && !(t in first && t in others) {
      JoinRowsSplitAt(l, r, fed, lefts, a, t);
    }
    CrossWidth(a, Yield(r, FedRight(l, a, fed)), Width(r));
    hide JoinRows, Cross, Yield;
    assert all == first + others;
  }

  lemma CrossWidth(a: Tuple, bs: set<Tuple>, n: nat)
    requires forall b :: b in bs ==> |b| == n
    ensures forall t :: t in Cross(a, bs) ==> |t| == |a| + n
  {
  }

  lemma {:induction false} JoinRowsSplitAt(l: Plan, r: Plan, fed: Env, lefts: set<Tuple>, a: Tuple, t: Tuple)
    requires forall x :: x in lefts ==> |x| == Width(l) && LiveTuple(l, x)
    requires a in lefts && |t| == Width(l) + Width(r)
    ensures t in JoinRows(l, r, fed, lefts) <==>
      t in Cross(a, Yield(r, FedRight(l, a, fed))) || t in JoinRows(l, r, fed, lefts - {a})
    ensures !(t in Cross(a, Yield(r, FedRight(l, a, fed))) && t in JoinRows(l, r, fed, lefts - {a}))
  {
    hide JoinRows, Cross, Yield;
    JoinRowsAt(l, r, fed, lefts, t);
    JoinRowsAt(l, r, fed, lefts - {a}, t);
    CrossAt(a, Yield(r, FedRight(l, a, fed)), t);
  }

  // ----- combined records -----

  lemma ShiftLaidOut(a: seq<Column>, b: seq<Column>)
    requires LaidOut(a) && LaidOut(b)
    ensures LaidOut(a + Shift(b, RecordSize(a)))
    ensures RecordSize(a + Shift(b, RecordSize(a))) == RecordSize(a) + RecordSize(b)
  {
    var all, shifted := a + Shift(b, RecordSize(a)), Shift(b, RecordSize(a));
    forall i: nat | i < |all| ensures FollowsOn(all, i) && WidthOk(all[i].ty, all[i].len) {
      if i < |a| {
        assert FollowsOn(a, i) && all[i] == a[i] && (i > 0 ==> all[i - 1] == a[i - 1]);
      } else {
        ShiftFollows(a, b, i - |a|);
        assert all[i] == shifted[i - |a|];
      }
    }
    if b != [] {
      assert all[|all| - 1] == shifted[|b| - 1];
    } else {
      assert all == a;
    }
  }

  lemma ShiftFollows(a: seq<Column>, b: seq<Column>, k: nat)
    requires LaidOut(b) && k < |b|
    ensures FollowsOn(a + Shift(b, RecordSize(a)), |a| + k)
  {
    var all, shifted := a + Shift(b, RecordSize(a)), Shift(b, RecordSize(a));
    assert FollowsOn(b, k) && all[|a| + k] == shifted[k];
    if k > 0 {
      assert all[|a| + k - 1] == shifted[k - 1];
    } else if a != [] {
      assert all[|a| - 1] == a[|a| - 1];
    }
  }

  /** Columns of a combined record are laid out like those of a table. */
  lemma {:induction false} PlanLaidOut(p: Plan)
    requires PlanOk(p)
    ensures LaidOut(PlanCols(p)) && RecordSize(PlanCols(p)) == PlanLen(p)
  {
    if p.Join? {
      PlanLaidOut(p.left);
      PlanLaidOut(p.right);
      ShiftLaidOut(PlanCols(p.left), PlanCols(p.right));
    }
  }

  lemma FieldOfLeft(a: Bytes, b: Bytes, c: Column)
    requires c.End() <= |a|
    ensures Field(a + b, c) == Field(a, c)
  {
  }

  lemma FieldOfRight(a: Bytes, b: Bytes, c: Column)
    requires c.End() <= |b|
    ensures Field(a + b, c.(offset := c.offset + |a|)) == Field(b, c)
  {
  }

  lemma LeftFields(a: seq<Column>, b: seq<Column>, x: Bytes, y: Bytes)
    requires LaidOut(a) && RowOk(a, x)
    ensures forall i :: 0 <= i < |a| ==>
      Field(x + y, (a + b)[i]) == Field(x, a[i]) && FieldOk((a + b)[i], Field(x + y, (a + b)[i]))
  {
    forall i | 0 <= i < |a|
      ensures Field(x + y, (a + b)[i]) == Field(x, a[i]) && FieldOk((a + b)[i], Field(x + y, (a + b)[i]))
    {
      InsideRecord(a, i);
      FieldOfLeft(x, y, a[i]);
    }
  }

  lemma RightFields(b: seq<Column>, x: Bytes, y: Bytes)
    requires LaidOut(b) && RowOk(b, y)
    ensures forall i :: 0 <= i < |b| ==>
      Field(x + y, Shift(b, |x|)[i]) == Field(y, b[i]) && FieldOk(Shift(b, |x|)[i], Field(x + y, Shift(b, |x|)[i]))
  {
    forall i | 0 <= i < |b|
      ensures Field(x + y, Shift(b, |x|)[i]) == Field(y, b[i])
      ensures FieldOk(Shift(b, |x|)[i], Field(x + y, Shift(b, |x|)[i]))
    {
      InsideRecord(b, i);
      FieldOfRight(x, y, b[i]);
    }
  }

  /** A record followed by another is a sound row of the columns of both. */
  lemma ConcatRow(a: seq<Column>, b: seq<Column>, x: Bytes, y: Bytes)
    requires LaidOut(a) && LaidOut(b) && RowOk(a, x) && RowOk(b, y)
    ensures RowOk(a + Shift(b, |x|), x + y)
  {
    var all := a + Shift(b, |x|);
    ShiftLaidOut(a, b);
    LeftFields(a, Shift(b, |x|), x, y);
    RightFields(b, x, y);
    forall i | 0 <= i < |all| ensures FieldOk(all[i], Field(x + y, all[i])) {
      if i >= |a| { assert all[i] == Shift(b, |x|)[i - |a|]; }
    }
  }

  /** The values of two records side by side are the values of both. */
  lemma ConcatDict(a: seq<Column>, b: seq<Column>, x: Bytes, y: Bytes)
    requires LaidOut(a) && LaidOut(b) && RowOk(a, x) && RowOk(b, y) && Refs(a) !! Refs(b)
    ensures Dict(a + Shift(b, |x|), x + y) == Dict(a, x) + Dict(b, y)
  {
    hide LaidOut, RowOk, Field;
    var shifted := Shift(b, |x|);
    var whole, parts := Dict(a + shifted, x + y), Dict(a, x) + Dict(b, y);
    RefsConcat(a, shifted);
    RefsShift(b, |x|);
    forall k | k in whole ensures whole[k] == parts[k] { ConcatValue(a, b, x, y, k); }
    assert whole.Keys == parts.Keys;
  }

  lemma ConcatValue(a: seq<Column>, b: seq<Column>, x: Bytes, y: Bytes, k: TabCol)
    requires LaidOut(a) && LaidOut(b) && RowOk(a, x) && RowOk(b, y) && Refs(a) !! Refs(b)
    requires k in Refs(a + Shift(b, |x|))
    ensures k in Refs(b) ==> FieldValue(a + Shift(b, |x|), x + y, k) == FieldValue(b, y, k)
    ensures k !in Refs(b) ==> k in Refs(a) && FieldValue(a + Shift(b, |x|), x + y, k) == FieldValue(a, x, k)
  {
    var shifted := Shift(b, |x|);
    RefsConcat(a, shifted);
    RefsShift(b, |x|);
    JoinLookup(a, shifted, k);
    if k in Refs(b) {
      ShiftLookup(b, |x|, k);
      RightFields(b, x, y);
      assert (a + shifted)[|a| + FindCol(b, k)] == shifted[FindCol(b, k)];
    } else {
      LeftFields(a, shifted, x, y);
    }
  }

  /** A combined record is a sound row of the combined columns. */
  lemma {:induction false} PlanRowOk(p: Plan, t: Tuple)
    requires PlanOk(p) && LiveTuple(p, t)
    ensures RowOk(PlanCols(p), PlanRec(p, t)) && |PlanRec(p, t)| == PlanLen(p)
  {
    PlanLaidOut(p);
    if p.Join? {
      var x, y := t[..Width(p.left)], t[Width(p.left)..];
      PlanRowOk(p.left, x);
      PlanRowOk(p.right, y);
      PlanLaidOut(p.left);
      PlanLaidOut(p.right);
      ConcatRow(PlanCols(p.left), PlanCols(p.right), PlanRec(p.left, x), PlanRec(p.right, y));
    }
  }

  /** The values of a combined record are the values of its parts. */
  lemma {:induction false} JoinEnv(p: Plan, t: Tuple)
    requires p.Join? && PlanOk(p) && LiveTuple(p, t)
    ensures PlanEnv(p, t) == PlanEnv(p.left, t[..Width(p.left)]) + PlanEnv(p.right, t[Width(p.left)..])
    ensures Refs(PlanCols(p)) == Refs(PlanCols(p.left)) + Refs(PlanCols(p.right))
  {
    var x, y := t[..Width(p.left)], t[Width(p.left)..];
    PlanRowOk(p.left, x);
    PlanRowOk(p.right, y);
    PlanLaidOut(p.left);
    PlanLaidOut(p.right);
    ConcatDict(PlanCols(p.left), PlanCols(p.right), PlanRec(p.left, x), PlanRec(p.right, y));
    JoinRefs(p.left, p.right);
  }

  lemma RefsConcat(a: seq<Column>, b: seq<Column>)
    ensures Refs(a + b) == Refs(a) + Refs(b)
  {
    forall k | k in Refs(a) + Refs(b) ensures k in Refs(a + b) {
      if k in Refs(a) {
        var i :| 0 <= i < |a| && a[i].Ref() == k;
        assert (a + b)[i].Ref() == k;
      } else {
        var i :| 0 <= i < |b| && b[i].Ref() == k;
        assert (a + b)[|a| + i].Ref() == k;
      }
    }
  }

  lemma RefsShift(b: seq<Column>, delta: nat)
    ensures Refs(Shift(b, delta)) == Refs(b)
  {
    forall k | k in Refs(b) ensures k in Refs(Shift(b, delta)) {
      var i :| 0 <= i < |b| && b[i].Ref() == k;
      assert Shift(b, delta)[i].Ref() == k;
    }
  }

  lemma {:induction false} JoinRefs(l: Plan, r: Plan)
    ensures Refs(PlanCols(Join(l, r))) == Refs(PlanCols(l)) + Refs(PlanCols(r))
  {
    RefsConcat(PlanCols(l), Shift(PlanCols(r), PlanLen(l)));
    RefsShift(PlanCols(r), PlanLen(l));
  }

  /** Looking a column up in a concatenation finds it in the part that has it. */
  lemma {:induction false} JoinLookup(a: seq<Column>, b: seq<Column>, k: TabCol)
    requires k in Refs(a + b) && Refs(a) !! Refs(b)
    ensures k in Refs(a) ==> FindCol(a + b, k) == FindCol(a, k) < |a|
    ensures k in Refs(b) ==> FindCol(a + b, k) == |a| + FindCol(b, k) && FindCol(b, k) < |b|
  {
    if a == [] {
      assert a + b == b;
    } else {
      assert (a + b)[1..] == a[1..] + b;
      assert a[0].Ref() in Refs(a);
      if a[0].Ref() != k {
        RefsConcat(a, b);
        RefsConcat([a[0]], a[1..]);
        assert a == [a[0]] + a[1..];
        RefsConcat(a[1..], b);
        JoinLookup(a[1..], b, k);
      }
    }
  }

  lemma {:induction false} ShiftLookup(b: seq<Column>, delta: nat, k: TabCol)
    ensures FindCol(Shift(b, delta), k) == FindCol(b, k)
  {
    if b != [] {
      assert Shift(b, delta)[1..] == Shift(b[1..], delta);
      ShiftLookup(b[1..], delta, k);
    }
  }

  // ----- typing: which conditions can be evaluated where -----

  /** A column's type and width. */
  datatype ColShape = ColShape(ty: ColumnType, len: nat)

  function ShapeOf(c: Column): ColShape {
    ColShape(c.ty, c.len)
  }

  /** The types and widths of the columns in scope. */
  type Scope = map<TabCol, ColShape>

  ghost function TypesOf(cols: seq<Column>): Scope {
    map t | t in Refs(cols) :: ShapeOf(cols[FindCol(cols, t)])
  }

  /** A column can be compared with what lies on its right: the type is the same, the width no smaller. */
  predicate Matches(left: ColShape, right: ColShape) {
    left.ty == right.ty && left.len <= right.len
  }

  ghost predicate CondTyped(cols: seq<Column>, scope: Scope, tab: string, c: Condition) {
    && c.lhs in Refs(cols) && NumberRhs(c)
    && var left := ShapeOf(cols[FindCol(cols, c.lhs)]);
       match c.rhs
       case ValueOf(v) => Matches(left, ColShape(v.ty, |v.raw|))
       case ColumnOf(t) =>
         if t.tab == tab then t in Refs(cols) && Matches(left, ShapeOf(cols[FindCol(cols, t)]))
         else t in scope && Matches(left, scope[t])
  }

  /** Each condition compares a column of its table with a value, with another column of the table, or with a
      column of the tables to the left. */
  ghost predicate PlanTyped(p: Plan, scope: Scope) {
    match p
    case Scan(tab, cols, _, conds) => forall c :: c in conds ==> CondTyped(cols, scope, tab, c)
    case Join(l, r) => PlanTyped(l, scope) && PlanTyped(r, scope + TypesOf(PlanCols(l)))
  }

  ghost predicate EnvTyped(env: Env, scope: Scope) {
    forall t :: t in scope ==>
      t in env && ColShape(env[t].ty, |env[t].raw|) == scope[t] && (env[t].ty == FLOAT ==> !IsNaN(env[t].raw))
  }

  lemma RowTyped(cols: seq<Column>, rec: Bytes)
    requires RowOk(cols, rec)
    ensures EnvTyped(Dict(cols, rec), TypesOf(cols))
  {
    forall t | t in Refs(cols) ensures Dict(cols, rec)[t].ty == FLOAT ==> !IsNaN(Dict(cols, rec)[t].raw) {
      var i := FindCol(cols, t);
      assert FieldOk(cols[i], Field(rec, cols[i]));
    }
  }

  /** The conditions of every scan can be evaluated, whatever rows the joins above feed it. */
  ghost predicate PlanReady(p: Plan, fed: Env) {
    match p
    case Scan(tab, cols, recs, conds) =>
      Ready(cols, FedConds(tab, conds, fed)) && forall c :: c in conds && NeedsFeed(tab, c) ==> c.rhs.col in fed
    case Join(l, r) => PlanReady(l, fed) && forall a :: a in Yield(l, fed) ==> PlanReady(r, FedRight(l, a, fed))
  }

  /** The values that the leftmost scans of the plan wait for are among those known. */
  ghost predicate PlanFed(p: Plan, known: set<TabCol>) {
    match p
    case Scan(tab, _, _, conds) => forall c :: c in conds && NeedsFeed(tab, c) ==> c.rhs.col in known
    case Join(l, _) => PlanFed(l, known)
  }

  lemma {:induction false} ReadyFed(p: Plan, fed: Env)
    requires PlanReady(p, fed)
    ensures PlanFed(p, fed.Keys)
  {
    if p.Join? { ReadyFed(p.left, fed); }
  }

  lemma FedTyped(cols: seq<Column>, scope: Scope, tab: string, c: Condition, fed: Env)
    requires CondTyped(cols, scope, tab, c) && EnvTyped(fed, scope)
    ensures Evaluable(cols, FedCond(tab, c, fed)) && NumberRhs(FedCond(tab, c, fed))
  {
  }

  lemma {:induction false} FedRightTyped(l: Plan, a: Tuple, fed: Env, scope: Scope)
    requires PlanOk(l) && LiveTuple(l, a) && EnvTyped(fed, scope) && fed.Keys !! Refs(PlanCols(l))
    ensures EnvTyped(FedRight(l, a, fed), scope + TypesOf(PlanCols(l)))
    ensures FedRight(l, a, fed).Keys == Refs(PlanCols(l)) + fed.Keys
  {
    PlanRowOk(l, a);
    RowTyped(PlanCols(l), PlanRec(l, a));
    MergeTyped(PlanEnv(l, a), fed, TypesOf(PlanCols(l)), scope);
  }

  lemma MergeTyped(left: Env, fed: Env, leftScope: Scope, scope: Scope)
    requires EnvTyped(left, leftScope) && EnvTyped(fed, scope) && left.Keys == leftScope.Keys && left.Keys !! fed.Keys
    ensures EnvTyped(left + fed, scope + leftScope)
  {
  }

  /** Well-typed conditions never fail at run time. */
  lemma {:induction false} TypedReady(p: Plan, scope: Scope, fed: Env)
    requires PlanOk(p) && PlanTyped(p, scope) && EnvTyped(fed, scope) && fed.Keys !! Refs(PlanCols(p))
    ensures PlanReady(p, fed)
  {
    match p {
      case Scan(tab, cols, recs, conds) =>
        var feds := FedConds(tab, conds, fed);
        forall c | c in feds ensures Evaluable(cols, c) && NumberRhs(c) {
          var i :| 0 <= i < |feds| && feds[i] == c;
          assert conds[i] in conds;
          FedTyped(cols, scope, tab, conds[i], fed);
        }
      case Join(l, r) =>
        JoinRefs(l, r);
        TypedReady(l, scope, fed);
        forall a | a in Yield(l, fed) ensures PlanReady(r, FedRight(l, a, fed)) {
          FedRightTyped(l, a, fed, scope);
          TypedReady(r, scope + TypesOf(PlanCols(l)), FedRight(l, a, fed));
        }
    }
  }

  // ----- what a plan yields: the filtered product -----

  /** Every condition of the plan's scans holds of the tuple's values together with those fed from outside. */
  ghost predicate Filtered(p: Plan, env: Env) {
    match p
    case Scan(_, _, _, conds) => AllHold(env, conds)
    case Join(l, r) => Filtered(l, env) && Filtered(r, env)
  }

  /** Env and env' agree on the columns that the plan's conditions mention. */
  lemma {:induction false} FilteredExtend(p: Plan, scope: Scope, env: Env, env': Env)
    requires PlanTyped(p, scope) && PlanOk(p)
    requires forall t :: t in scope || t in Refs(PlanCols(p)) ==> t in env && t in env' && env[t] == env'[t]
    ensures Filtered(p, env) <==> Filtered(p, env')
  {
    match p {
      case Scan(tab, cols, _, conds) =>
        forall c | c in conds ensures Holds(env, c) <==> Holds(env', c) { assert CondTyped(cols, scope, tab, c); }
      case Join(l, r) =>
        JoinRefs(l, r);
        FilteredExtend(l, scope, env, env');
        FilteredExtend(r, scope + TypesOf(PlanCols(l)), env, env');
    }
  }

  /** On a row of its own table, the fed conditions say what the original ones say of all the values known. */
  lemma FeedAll(tab: string, cols: seq<Column>, scope: Scope, conds: seq<Condition>, fed: Env, own: Env)
    requires (forall c :: c in conds ==> CondTyped(cols, scope, tab, c)) && EnvTyped(fed, scope)
    requires own.Keys == Refs(cols) && fed.Keys !! Refs(cols)
    ensures AllHold(own, FedConds(tab, conds, fed)) <==> AllHold(fed + own, conds)
  {
    var feds := FedConds(tab, conds, fed);
    forall i | 0 <= i < |conds| ensures Holds(own, feds[i]) <==> Holds(fed + own, conds[i]) {
      assert conds[i] in conds && CondTyped(cols, scope, tab, conds[i]);
      FeedSound(tab, conds[i], fed, own);
    }
    SameOnAll(feds, own, conds, fed + own);
  }

  lemma SameOnAll(a: seq<Condition>, envA: Env, b: seq<Condition>, envB: Env)
    requires |a| == |b| && forall i :: 0 <= i < |a| ==> (Holds(envA, a[i]) <==> Holds(envB, b[i]))
    ensures AllHold(envA, a) <==> AllHold(envB, b)
  {
    hide Holds;
    if AllHold(envA, a) {
      forall c | c in b ensures Holds(envB, c) {
        var i :| 0 <= i < |b| && b[i] == c;
        assert a[i] in a;
      }
    }
    if AllHold(envB, b) {
      forall c | c in a ensures Holds(envA, c) {
        var i :| 0 <= i < |a| && a[i] == c;
        assert b[i] in b;
      }
    }
  }

  lemma {:induction false} ScanMeaning(p: Plan, scope: Scope, fed: Env, t: Tuple)
    requires p.Scan? && PlanOk(p) && PlanTyped(p, scope) && EnvTyped(fed, scope) && fed.Keys !! Refs(p.cols)
    requires LiveTuple(p, t)
    ensures t in Yield(p, fed) <==> Filtered(p, fed + PlanEnv(p, t))
  {
    hide AllHold, CondTyped;
    var own, feds := Dict(p.cols, p.recs[t[0]]), FedConds(p.tab, p.conds, fed);
    FeedAll(p.tab, p.cols, scope, p.conds, fed, own);
    QualifiedAt(p.cols, p.recs, feds, t[0]);
    assert t == [t[0]];
  }

  lemma ExtendRight(left: Env, right: Env, fed: Env)
    requires left.Keys !! fed.Keys && left.Keys !! right.Keys && fed.Keys !! right.Keys
    ensures left + fed + right == fed + (left + right)
    ensures forall t :: t in fed || t in left ==> (fed + left)[t] == (fed + (left + right))[t]
  {
  }

  /** Pushing the conditions down to the scans and feeding the left values to the right loses and adds no rows:
      a plan yields exactly the combinations of live rows on which all its conditions hold together. */
  lemma {:induction false} YieldMeaning(p: Plan, scope: Scope, fed: Env, t: Tuple)
    requires PlanOk(p) && PlanTyped(p, scope) && EnvTyped(fed, scope) && fed.Keys !! Refs(PlanCols(p))
    requires LiveTuple(p, t)
    ensures t in Yield(p, fed) <==> Filtered(p, fed + PlanEnv(p, t))
  {
    match p {
      case Scan(_, _, _, _) => ScanMeaning(p, scope, fed, t);
      case Join(l, r) =>
        var a, b := t[..Width(l)], t[Width(l)..];
        JoinRowsAt(l, r, fed, Yield(l, fed), t);
        JoinEnv(p, t);
        FedRightTyped(l, a, fed, scope);
        YieldMeaning(l, scope, fed, a);
        YieldMeaning(r, scope + TypesOf(PlanCols(l)), FedRight(l, a, fed), b);
        ExtendRight(PlanEnv(l, a), PlanEnv(r, b), fed);
        FilteredExtend(l, scope, fed + PlanEnv(l, a), fed + PlanEnv(p, t));
        assert FedRight(l, a, fed) + PlanEnv(r, b) == fed + PlanEnv(p, t);
    }
  }
}
