/** Where-clause conditions: checking, evaluation, side-swapping, feeding and distribution over the tables. */
module Conditions {
  import opened Common
  import opened KeyOrder
  import opened Rows

  datatype CompOp = EQ | NE | LT | GT | LE | GE

  /** A value in raw form. */
  datatype RawValue = RawValue(ty: ColumnType, raw: Bytes)

  datatype Rhs = ValueOf(val: RawValue) | ColumnOf(col: TabCol)

  datatype Condition = Condition(lhs: TabCol, op: CompOp, rhs: Rhs)

  predicate OpHolds(op: CompOp, cmp: int) {
    match op
    case EQ => cmp == 0
    case NE => cmp != 0
    case LT => cmp < 0
    case GT => cmp > 0
    case LE => cmp <= 0
    case GE => cmp >= 0
  }

  function SwapOp(op: CompOp): CompOp {
    match op
    case EQ => EQ
    case NE => NE
    case LT => GT
    case GT => LT
    case LE => GE
    case GE => LE
  }

  // ----- the reference meaning of a condition -----

  /** The values of the columns in scope. */
  type Env = map<TabCol, RawValue>

  ghost predicate Comparable(l: RawValue, r: RawValue) {
    l.ty == r.ty
  }

  predicate Compare(op: CompOp, l: RawValue, r: RawValue)
    requires Comparable(l, r)
  {
    OpHolds(op, CompareKeys(l.raw, r.raw, r.ty, |l.raw|))
  }

  ghost predicate InScope(env: Env, rhs: Rhs) {
    rhs.ColumnOf? ==> rhs.col in env
  }

  ghost function RhsValue(env: Env, rhs: Rhs): RawValue
    requires InScope(env, rhs)
  {
    match rhs
    case ValueOf(v) => v
    case ColumnOf(c) => env[c]
  }

  /** Both sides of the condition are known and comparable. */
  ghost predicate Meaningful(env: Env, c: Condition) {
    c.lhs in env && InScope(env, c.rhs) && Comparable(env[c.lhs], RhsValue(env, c.rhs))
  }

  ghost predicate Holds(env: Env, c: Condition) {
    Meaningful(env, c) && Compare(c.op, env[c.lhs], RhsValue(env, c.rhs))
  }

  /** Of the two values exactly one is the greater, or they are equal: no NaN, and no two dates with one timestamp. */
  predicate Turns(l: RawValue, r: RawValue) {
    && (l.ty == FLOAT ==> !IsNaN(l.raw) && !IsNaN(r.raw))
    && (l.ty == DATETIME ==> !Clash(l.raw, r.raw))
  }

  /** Swapping the sides and turning the operator round keeps the meaning of a comparison exactly when the operator is
      = or <>, or the two values are ordered one way. */
  lemma SwapExact(op: CompOp, l: RawValue, r: RawValue)
    requires Comparable(l, r) && |l.raw| == |r.raw|
    ensures (Compare(SwapOp(op), r, l) <==> Compare(op, l, r)) <==> op in {EQ, NE} || Turns(l, r)
  {
    hide SameDate, Timestamp;
    MemCmpAntisymmetric(l.raw, r.raw, 0, |l.raw|);
    if l.ty == DATETIME {
      if SameDate(l.raw, r.raw) { SameTimestamp(l.raw, r.raw); }
      if SameDate(r.raw, l.raw) { SameTimestamp(r.raw, l.raw); }
    }
  }

  // ----- records as environments -----

  /** The position of a column; the number of columns when it is not there (ColumnNotFoundError). */
  function FindCol(cols: seq<Column>, target: TabCol): (i: nat)
    ensures i <= |cols| && forall k :: 0 <= k < i ==> cols[k].Ref() != target
    ensures i < |cols| ==> cols[i].Ref() == target
  {
    if cols == [] || cols[0].Ref() == target then 0 else 1 + FindCol(cols[1..], target)
  }

  lemma {:induction false} FindDistinct(cols: seq<Column>, i: nat)
    requires DistinctNames(cols) && i < |cols|
    ensures FindCol(cols, cols[i].Ref()) == i
  {
    assert FindCol(cols, cols[i].Ref()) <= i;
  }

  /** Column i is the first of its name. */
  ghost predicate FirstNamed(cols: seq<Column>, name: string, i: nat) {
    i < |cols| && cols[i].name == name && forall j :: 0 <= j < i ==> cols[j].name != name
  }

  /** In the columns of one table, looking a name up finds the first column of that name. */
  lemma {:induction false} FindFirst(tab: string, cols: seq<Column>, name: string)
    requires forall i :: 0 <= i < |cols| ==> cols[i].tab == tab
    ensures var k := FindCol(cols, TabCol(tab, name));
            if k < |cols| then FirstNamed(cols, name, k) else forall i :: 0 <= i < |cols| ==> cols[i].name != name
    ensures forall i: nat :: FirstNamed(cols, name, i) <==> i == FindCol(cols, TabCol(tab, name)) < |cols|
  {
    var k := FindCol(cols, TabCol(tab, name));
    forall j | 0 <= j < k ensures cols[j].name != name { assert cols[j].Ref() != TabCol(tab, name); }
    if k < |cols| { assert cols[k].Ref() == TabCol(tab, name); }
  }

  ghost function Refs(cols: seq<Column>): set<TabCol> {
    set i | 0 <= i < |cols| :: cols[i].Ref()
  }

  ghost function FieldValue(cols: seq<Column>, rec: Bytes, target: TabCol): RawValue
    requires target in Refs(cols)
  {
    var c := cols[FindCol(cols, target)];
    RawValue(c.ty, Field(rec, c))
  }

  /** The values of a record by column. */
  ghost function Dict(cols: seq<Column>, rec: Bytes): Env {
    map t | t in Refs(cols) :: FieldValue(cols, rec, t)
  }

  /** rec2dict decodes every field and encodes it again; on a sound row that gives the fields themselves. */
  method Rec2Dict(cols: seq<Column>, rec: Bytes) returns (dict: Env)
    requires DistinctNames(cols)
    requires forall i :: 0 <= i < |cols| ==> WidthOk(cols[i].ty, cols[i].len) && FieldOk(cols[i], Field(rec, cols[i]))
    ensures dict == Dict(cols, rec)
  {
    dict := map[];
    for i := 0 to |cols|
      invariant DictUpTo(cols, rec, dict, i)
    {
      var col := cols[i];
      var field := Field(rec, col);
      FieldRoundTrip(col.ty, field);
      DictStep(cols, rec, dict, i);
      var raw := InitRaw(Decode(col.ty, field), col.len);
      assert col.Ref() !in dict;
      dict := dict[col.Ref() := RawValue(col.ty, raw.value)];
    }
    DictDone(cols, rec, dict);
  }

  ghost predicate DictUpTo(cols: seq<Column>, rec: Bytes, dict: Env, n: nat)
    requires n <= |cols|
  {
    && (forall t :: t in dict ==> t in Refs(cols) && FindCol(cols, t) < n && dict[t] == FieldValue(cols, rec, t))
    && (forall k :: 0 <= k < n ==> cols[k].Ref() in dict)
  }

  lemma DictStep(cols: seq<Column>, rec: Bytes, dict: Env, n: nat)
    requires DistinctNames(cols) && n < |cols| && DictUpTo(cols, rec, dict, n)
    ensures cols[n].Ref() !in dict
    ensures DictUpTo(cols, rec, dict[cols[n].Ref() := RawValue(cols[n].ty, Field(rec, cols[n]))], n + 1)
  {
    FindDistinct(cols, n);
  }

  lemma DictDone(cols: seq<Column>, rec: Bytes, dict: Env)
    requires DictUpTo(cols, rec, dict, |cols|)
    ensures dict == Dict(cols, rec)
  {
    assert dict.Keys == Refs(cols);
  }

  /** The sides that eval_cond looks up are there and have one type, and the right one is as wide as what it reads. */
  ghost predicate Evaluable(cols: seq<Column>, c: Condition) {
    && c.lhs in Refs(cols) && (c.rhs.ColumnOf? ==> c.rhs.col in Refs(cols))
    && cols[FindCol(cols, c.lhs)].ty == RhsType(cols, c.rhs)
    && cols[FindCol(cols, c.lhs)].len <= RhsLen(cols, c.rhs)
  }

  ghost function RhsType(cols: seq<Column>, rhs: Rhs): ColumnType
    requires rhs.ColumnOf? ==> rhs.col in Refs(cols)
  {
    match rhs
    case ValueOf(v) => v.ty
    case ColumnOf(c) => cols[FindCol(cols, c)].ty
  }

  ghost function RhsLen(cols: seq<Column>, rhs: Rhs): nat
    requires rhs.ColumnOf? ==> rhs.col in Refs(cols)
  {
    match rhs
    case ValueOf(v) => |v.raw|
    case ColumnOf(c) => cols[FindCol(cols, c)].len
  }

  /** eval_cond. */
  function EvalCond(cols: seq<Column>, c: Condition, rec: Bytes): (r: bool)
    requires Evaluable(cols, c)
    ensures r <==> Holds(Dict(cols, rec), c)
  {
    var lhsCol := cols[FindCol(cols, c.lhs)];
    var lhs := Field(rec, lhsCol);
    var rhs := match c.rhs
      case ValueOf(v) => v
      case ColumnOf(t) => RawValue(cols[FindCol(cols, t)].ty, Field(rec, cols[FindCol(cols, t)]));
    OpHolds(c.op, CompareKeys(lhs, rhs.raw, rhs.ty, lhsCol.len))
  }

  ghost predicate AllEvaluable(cols: seq<Column>, conds: seq<Condition>) {
    forall c :: c in conds ==> Evaluable(cols, c)
  }

  ghost predicate AllHold(env: Env, conds: seq<Condition>) {
    forall c :: c in conds ==> Holds(env, c)
  }

  /** eval_conds. */
  function EvalConds(cols: seq<Column>, conds: seq<Condition>, rec: Bytes): (r: bool)
    requires AllEvaluable(cols, conds)
    ensures r <==> AllHold(Dict(cols, rec), conds)
  {
    forall c :: c in conds ==> EvalCond(cols, c, rec)
  }

  // ----- a table's own conditions -----

  /** The condition with its side on the table on the left. */
  function SwapOnto(tab: string, c: Condition): Condition {
    if c.lhs.tab != tab && c.rhs.ColumnOf? then Condition(c.rhs.col, SwapOp(c.op), ColumnOf(c.lhs)) else c
  }

  /** The side swapping of the QlNodeTable constructor. */
  method SwapAll(tab: string, conds: seq<Condition>) returns (own: seq<Condition>)
    requires forall c :: c in conds ==> c.lhs.tab == tab || (c.rhs.ColumnOf? && c.rhs.col.tab == tab)
    ensures |own| == |conds| && forall i :: 0 <= i < |conds| ==> own[i] == SwapOnto(tab, conds[i])
    ensures forall c :: c in own ==> c.lhs.tab == tab
  {
    own := conds;
    for i := 0 to |conds|
      invariant |own| == |conds|
      invariant forall k :: 0 <= k < i ==> own[k] == SwapOnto(tab, conds[k]) && own[k].lhs.tab == tab
      invariant forall k :: i <= k < |conds| ==> own[k] == conds[k]
    {
      var cond := conds[i];
      assert cond in conds;
      if cond.lhs.tab != tab {
        own := own[i := Condition(cond.rhs.col, SwapOp(cond.op), ColumnOf(cond.lhs))];
      }
    }
  }

  predicate NeedsFeed(tab: string, c: Condition) {
    c.rhs.ColumnOf? && c.rhs.col.tab != tab
  }

  function FedCond(tab: string, c: Condition, fed: Env): Condition {
    if NeedsFeed(tab, c) && c.rhs.col in fed then c.(rhs := ValueOf(fed[c.rhs.col])) else c
  }

  function FedConds(tab: string, conds: seq<Condition>, fed: Env): (r: seq<Condition>)
    ensures |r| == |conds|
    ensures forall i :: 0 <= i < |conds| ==> r[i] == FedCond(tab, conds[i], fed)
  {
    seq(|conds|, i requires 0 <= i < |conds| => FedCond(tab, conds[i], fed))
  }

  /** Replacing the other tables' columns by their fed values keeps the meaning. */
  lemma FeedSound(tab: string, c: Condition, fed: Env, own: Env)
    requires NeedsFeed(tab, c) ==> c.rhs.col in fed && c.rhs.col !in own
    requires c.lhs in own && (c.rhs.ColumnOf? && c.rhs.col.tab == tab ==> c.rhs.col in own)
    ensures Holds(own, FedCond(tab, c, fed)) <==> Holds(fed + own, c)
  {
  }

  // ----- distributing the conditions over the tables of a query -----

  predicate HasTab(tabs: seq<string>, tab: string) {
    tab in tabs
  }

  /** Every table of the condition is among tabs. */
  predicate Solved(tabs: seq<string>, c: Condition) {
    HasTab(tabs, c.lhs.tab) && (c.rhs.ColumnOf? ==> HasTab(tabs, c.rhs.col.tab))
  }

  function Keep(conds: seq<Condition>, p: Condition -> bool): (r: seq<Condition>)
    ensures forall c :: c in r <==> c in conds && p(c)
  {
    if conds == [] then []
    else (if p(conds[0]) then [conds[0]] else []) + Keep(conds[1..], p)
  }

  lemma KeepNone(p: Condition -> bool)
    ensures Keep([], p) == []
  {
  }

  lemma {:induction false} KeepAppend(a: seq<Condition>, b: seq<Condition>, p: Condition -> bool)
    ensures Keep(a + b, p) == Keep(a, p) + Keep(b, p)
  {
    if a == [] {
      assert a + b == b;
    } else {
      assert (a + b)[1..] == a[1..] + b;
      KeepAppend(a[1..], b, p);
    }
  }

  lemma KeepStep(conds: seq<Condition>, done: nat, p: Condition -> bool)
    requires done < |conds|
    ensures Keep(conds[..done + 1], p) == Keep(conds[..done], p) + if p(conds[done]) then [conds[done]] else []
  {
    assert conds[..done + 1] == conds[..done] + [conds[done]];
    KeepAppend(conds[..done], [conds[done]], p);
  }

  lemma SpliceOut(kept: seq<Condition>, tail: seq<Condition>)
    requires |tail| > 0
    ensures (kept + tail)[..|kept|] + (kept + tail)[|kept| + 1..] == kept + tail[1..]
    ensures kept + tail == kept + [tail[0]] + tail[1..]
  {
  }

  /** pop_conds: takes the conditions solved by tabs out of the list, keeping the order on both sides. */
  method PopConds(conds: seq<Condition>, tabs: seq<string>) returns (solved: seq<Condition>, rest: seq<Condition>)
    ensures solved == Keep(conds, c => Solved(tabs, c))
    ensures rest == Keep(conds, c => !Solved(tabs, c))
  {
    hide Keep, Solved;
    solved, rest := [], conds;
    var it := 0;
    ghost var yes, no := (c: Condition) => Solved(tabs, c), (c: Condition) => !Solved(tabs, c);
    ghost var done, kept := 0, [];
    KeepNone(yes);
    KeepNone(no);
    while it < |rest|
      invariant it == |kept| && done <= |conds| && rest == kept + conds[done..]
      invariant solved == Keep(conds[..done], yes) && kept == Keep(conds[..done], no)
      decreases |rest| - it
    {
      var cond := rest[it];
      assert cond == conds[done];
      KeepStep(conds, done, yes);
      KeepStep(conds, done, no);
      SpliceOut(kept, conds[done..]);
      assert conds[done..][1..] == conds[done + 1..];
      if Solved(tabs, cond) {
        solved := solved + [cond];
        rest := rest[..it] + rest[it + 1..];
      } else {
        kept := kept + [cond];
        it := it + 1;
      }
      done := done + 1;
    }
    assert conds[..done] == conds;
  }

  /** The position of a table in the from list; the length of the list when it is not there. */
  function TabIndex(tabs: seq<string>, tab: string): (i: nat)
    ensures i <= |tabs| && forall k :: 0 <= k < i ==> tabs[k] != tab
    ensures i < |tabs| ==> tabs[i] == tab
  {
    if tabs == [] || tabs[0] == tab then 0 else 1 + TabIndex(tabs[1..], tab)
  }

  function Max(a: nat, b: nat): nat {
    if a < b then b else a
  }

  /** The table that a condition has to wait for: the later of those it mentions. */
  function Owner(tabs: seq<string>, c: Condition): nat {
    match c.rhs
    case ValueOf(_) => TabIndex(tabs, c.lhs.tab)
    case ColumnOf(r) => Max(TabIndex(tabs, c.lhs.tab), TabIndex(tabs, r.tab))
  }

  lemma {:induction false} PrefixHas(tabs: seq<string>, n: nat, tab: string)
    requires n <= |tabs|
    ensures HasTab(tabs[..n], tab) <==> TabIndex(tabs, tab) < n
  {
    var i := TabIndex(tabs, tab);
    if i < n { assert tabs[..n][i] == tab; }
    if tab in tabs[..n] {
      var k :| 0 <= k < n && tabs[..n][k] == tab;
      assert tabs[k] == tab;
    }
  }

  lemma SolvedOwner(tabs: seq<string>, n: nat, c: Condition)
    requires n <= |tabs|
    ensures Solved(tabs[..n], c) <==> Owner(tabs, c) < n
  {
    PrefixHas(tabs, n, c.lhs.tab);
    if c.rhs.ColumnOf? { PrefixHas(tabs, n, c.rhs.col.tab); }
  }

  lemma {:induction false} KeepKeep(conds: seq<Condition>, p: Condition -> bool, q: Condition -> bool,
                                    r: Condition -> bool)
    requires forall c :: r(c) <==> p(c) && q(c)
    ensures Keep(Keep(conds, p), q) == Keep(conds, r)
  {
    if conds != [] {
      KeepKeep(conds[1..], p, q, r);
      var head := if p(conds[0]) then [conds[0]] else [];
      KeepAppend(head, Keep(conds[1..], p), q);
    }
  }

  lemma {:induction false} KeepSame(conds: seq<Condition>, p: Condition -> bool, q: Condition -> bool)
    requires forall c :: p(c) <==> q(c)
    ensures Keep(conds, p) == Keep(conds, q)
  {
    if conds != [] { KeepSame(conds[1..], p, q); }
  }

  function OwnedBy(tabs: seq<string>, i: nat): Condition -> bool {
    c => Owner(tabs, c) == i
  }

  function NotOwnedBelow(tabs: seq<string>, i: nat): Condition -> bool {
    c => Owner(tabs, c) >= i
  }

  /** The distribution loop of select_from: every condition goes to exactly the table that owns it, and the
      conditions left over are those that mention a table outside the list. */
  method DistributeConds(tabs: seq<string>, conds: seq<Condition>) returns (parts: seq<seq<Condition>>,
                         rest: seq<Condition>)
    ensures |parts| == |tabs| && forall i :: 0 <= i < |tabs| ==> parts[i] == Keep(conds, OwnedBy(tabs, i))
    ensures rest == [] <==> forall c :: c in conds ==> Solved(tabs, c)
  {
    hide Keep, Solved, Owner;
    parts, rest := [], conds;
    KeepAll(conds, NotOwnedBelow(tabs, 0));
    for i := 0 to |tabs|
      invariant |parts| == i && forall k :: 0 <= k < i ==> parts[k] == Keep(conds, OwnedBy(tabs, k))
      invariant rest == Keep(conds, NotOwnedBelow(tabs, i))
    {
      var part;
      ghost var before := rest;
      part, rest := PopConds(rest, tabs[..i + 1]);
      OnePop(tabs, i, conds, before);
      parts := parts + [part];
    }
    LeftOver(tabs, conds);
  }

  lemma {:induction false} KeepAll(conds: seq<Condition>, p: Condition -> bool)
    requires forall c :: p(c)
    ensures Keep(conds, p) == conds
  {
    if conds != [] { KeepAll(conds[1..], p); }
  }

  lemma {:induction false} OnePop(tabs: seq<string>, i: nat, conds: seq<Condition>, before: seq<Condition>)
    requires i < |tabs| && before == Keep(conds, NotOwnedBelow(tabs, i))
    ensures Keep(before, c => Solved(tabs[..i + 1], c)) == Keep(conds, OwnedBy(tabs, i))
    ensures Keep(before, c => !Solved(tabs[..i + 1], c)) == Keep(conds, NotOwnedBelow(tabs, i + 1))
  {
    var yes, no := (c: Condition) => Solved(tabs[..i + 1], c), (c: Condition) => !Solved(tabs[..i + 1], c);
    forall c ensures yes(c) <==> Owner(tabs, c) < i + 1 { SolvedOwner(tabs, i + 1, c); }
    KeepKeep(conds, NotOwnedBelow(tabs, i), yes, OwnedBy(tabs, i));
    KeepKeep(conds, NotOwnedBelow(tabs, i), no, NotOwnedBelow(tabs, i + 1));
  }

  lemma {:induction false} LeftOver(tabs: seq<string>, conds: seq<Condition>)
    ensures Keep(conds, NotOwnedBelow(tabs, |tabs|)) == [] <==> forall c :: c in conds ==> Solved(tabs, c)
  {
    var left := Keep(conds, NotOwnedBelow(tabs, |tabs|));
    assert tabs[..|tabs|] == tabs;
    forall c ensures Solved(tabs, c) <==> Owner(tabs, c) < |tabs| { SolvedOwner(tabs, |tabs|, c); }
    if left != [] {
      var c := left[0];
      assert c in left;
    } else {
      forall c | c in conds ensures Solved(tabs, c) { assert c !in left; }
    }
  }
}
