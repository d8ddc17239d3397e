/** The scan of one table under its conditions: by record file, or by a range of an index (QlNodeTable). */
module TableScan {
  import opened Common
  import opened KeyOrder
  import opened IndexPages
  import opened IndexDelete
  import opened IndexHandler
  import opened Rows
  import opened Conditions
  import opened TableIndexes
  import opened Tables

  /** The conditions can be evaluated on the table alone, and no value in them is a NaN. */
  ghost predicate Ready(cols: seq<Column>, conds: seq<Condition>) {
    AllEvaluable(cols, conds) && forall c :: c in conds ==> NumberRhs(c)
  }

  ghost predicate NumberRhs(c: Condition) {
    c.rhs.ValueOf? && c.rhs.val.ty == FLOAT ==> !IsNaN(c.rhs.val.raw)
  }

  /** Can an index on its left side serve the condition? */
  predicate Servable(c: Condition) {
    c.rhs.ValueOf? && c.op != NE
  }

  lemma SkipOne(ahead: set<RecordID>, want: set<RecordID>, r: RecordID)
    requires r in ahead && r !in want
    ensures (ahead - {r}) * want == ahead * want && ahead - {r} < ahead
  {
  }

  class TableNode {
    const table: Table
    const cols: seq<Column>
    const conds: seq<Condition>
    var fedConds: seq<Condition>
    var rid: RecordID
    var scan: RecordScan?
    ghost const store: set<object>
    ghost const recs: Records
    ghost var Repr: set<object>
    ghost var todo: set<RecordID>

    /** The table is as it was when the node was made. */
    ghost predicate Linked()
      reads this, store
    {
      var isLinked := this in Repr && Repr !! store && table.Holding(store, cols, recs);
      isLinked
    }

    /** Moreover the conditions in force can be evaluated on the table. */
    ghost predicate Valid()
      reads this, store
    {
      Linked() && Ready(cols, fedConds)
    }

    lemma LinkedApart()
      requires Linked()
      ensures this in Repr && Repr !! store
    {
    }

    ghost predicate ScanOk()
      reads this, Repr, store
    {
      var isScan := scan != null && scan in Repr && scan.objs <= Repr && this !in scan.objs && scan.store == store
        && scan.Valid() && scan.ahead <= recs.Keys && todo == scan.ahead * Qualified(cols, recs, fedConds);
      isScan
    }

    /** A scan is under way: todo is the set of qualifying rows still to be delivered, the current one, where
        the scan stands, included. */
    ghost predicate Open()
      reads this, Repr, store
    {
      Valid() && ScanOk() && (scan.ahead != {} ==> rid == scan.current && rid in todo)
    }

    lemma AtTodo()
      requires Open() && todo != {}
      ensures rid in todo && rid in recs
    {
    }

    predicate IsEnd()
      reads this, Repr, store
      requires Open()
      ensures IsEnd() <==> todo == {}
    {
      scan.IsEnd()
    }

    constructor (table: Table, conds: seq<Condition>, ghost store: set<object>)
      requires table.Holding(store, table.cols, table.Recs())
      requires forall c :: c in conds ==> c.lhs.tab == table.name || (c.rhs.ColumnOf? && c.rhs.col.tab == table.name)
      ensures this.table == table && this.store == store && cols == table.cols && recs == table.Recs()
      ensures |this.conds| == |conds|
      ensures forall i :: 0 <= i < |conds| ==> this.conds[i] == SwapOnto(table.name, conds[i])
      ensures fedConds == this.conds && Repr == {this} && Linked()
    {
      var own := SwapAll(table.name, conds);
      this.table, cols, this.conds, fedConds, scan, rid := table, table.cols, own, own, null, *;
      this.store, recs, Repr, todo := store, table.Recs(), {this}, {};
    }

    /** Puts the values of other tables into the conditions that wait for them. */
    method Feed(dict: Env)
      requires Linked() && forall c :: c in conds && NeedsFeed(table.name, c) ==> c.rhs.col in dict
      modifies this`fedConds
      ensures Linked() && fedConds == FedConds(table.name, conds, dict)
    {
      hide Table.Holding;
      fedConds := conds;
      for i := 0 to |conds|
        invariant |fedConds| == |conds| && Linked()
        invariant forall k :: 0 <= k < i ==> fedConds[k] == FedCond(table.name, conds[k], dict)
        invariant forall k :: i <= k < |conds| ==> fedConds[k] == conds[k]
      {
        var cond := fedConds[i];
        assert conds[i] in conds;
        if NeedsFeed(table.name, cond) {
          fedConds := fedConds[i := cond.(rhs := ValueOf(dict[cond.rhs.col]))];
        }
      }
    }

    /** Condition j compares an indexed column with a value, other than by <>. */
    ghost predicate IndexServes(j: nat)
      reads this`fedConds
    {
      && j < |fedConds| && fedConds[j].rhs.ValueOf? && fedConds[j].op != NE
      && exists k :: 0 <= k < |cols| && k == FindCol(cols, fedConds[j].lhs) && cols[k].index
    }

    lemma CondsFound()
      requires Valid()
      ensures forall c :: c in fedConds ==> FindCol(cols, c.lhs) < |cols|
    {
    }

    lemma HeldFlags()
      requires Valid()
      ensures forall k: nat :: k < |cols| && cols[k].index ==> k in table.indexes
    {
    }

    /** The column whose index serves the scan, or -1; at is the condition that it serves. */
    method ChooseIndex() returns (indexNo: int, ghost at: nat)
      requires Valid()
      ensures indexNo == -1 || (0 <= indexNo < |cols| && indexNo in table.indexes)
      ensures indexNo != -1 ==> at < |fedConds| && Servable(fedConds[at]) && FindCol(cols, fedConds[at].lhs) == indexNo
      ensures indexNo != -1 ==> IndexServes(at) && forall j: nat :: j < at ==> !IndexServes(j)
      ensures indexNo == -1 ==> forall j: nat :: !IndexServes(j)
    {
      hide Table.Holding, Evaluable, NumberRhs;
      CondsFound();
      HeldFlags();
      indexNo := -1;
      at := 0;
      for i := 0 to |fedConds|
        invariant forall j: nat :: j < i ==> !IndexServes(j)
      {
        var cond := fedConds[i];
        assert cond in fedConds;
        if Servable(cond) {
          var k := FindCol(cols, cond.lhs);
          if cols[k].index {
            indexNo, at := k, i;
            return;
          }
        }
      }
    }

    /** The first condition that the index on column k can serve. */
    method ServedCond(k: nat, ghost at: nat) returns (i: nat)
      requires Valid() && k < |cols| && at < |fedConds|
      requires Servable(fedConds[at]) && FindCol(cols, fedConds[at].lhs) == k
      ensures i < |fedConds| && Servable(fedConds[i]) && FindCol(cols, fedConds[i].lhs) == k
      ensures forall j :: 0 <= j < i && Servable(fedConds[j]) ==> FindCol(cols, fedConds[j].lhs) != k
    {
      hide Table.Holding;
      i := 0;
      while !(Servable(fedConds[i]) && fedConds[i].lhs.col == cols[k].name)
        invariant i <= at
        invariant forall j :: 0 <= j < i && Servable(fedConds[j]) ==> FindCol(cols, fedConds[j].lhs) != k
        decreases at - i
      {
        i := i + 1;
      }
      var c := fedConds[i];
      assert c in fedConds;
      table.HoldingTab(store, cols, recs, c.lhs);
      table.HoldingTab(store, cols, recs, cols[k].Ref());
      assert c.lhs == cols[k].Ref();
    }

    /** Opens the index range that serves condition i; its rows include every qualifying row. */
    method OpenIndex(k: nat, i: nat)
      requires Valid() && k in table.indexes && i < |fedConds| && k < |cols|
      requires Servable(fedConds[i]) && FindCol(cols, fedConds[i].lhs) == k
      modifies this`scan, this`Repr, this`todo
      ensures Valid() && ScanOk() && fresh(Repr - {this}) && todo == Qualified(cols, recs, fedConds)
      ensures scan.indexScan != null
    {
      hide Table.Holding, RecordScan.Valid, Qualified, Ready, IndexHandle.Valid, IndexHandle.Contents,
        IndexHandle.IdAt, DistinctRids, RangeRids;
      var ih, lower, upper, lo, hi := IndexRange(table, k, fedConds, i, store, cols, recs);
      scan := new RecordScan.OverIndex(ih, lower, upper, lo, hi, store);
      Repr, todo := {this} + scan.objs, scan.ahead * Qualified(cols, recs, fedConds);
    }

    method OpenFile()
      requires Valid()
      modifies this`scan, this`Repr, this`todo
      ensures Valid() && ScanOk() && fresh(Repr - {this}) && todo == Qualified(cols, recs, fedConds)
      ensures scan.indexScan == null
    {
      hide Table.Holding, RecordScan.Valid, Qualified, Ready;
      table.HoldingFile(store, cols, recs);
      QualifiedExist(cols, recs, fedConds);
      scan := new RecordScan.OverFile(table.file, store);
      Repr, todo := {this} + scan.objs, Qualified(cols, recs, fedConds);
    }

    /** Opens the scan at its first qualifying row. Whichever way it goes, it is about to deliver exactly the
        rows that satisfy all conditions in force. */
    method Begin()
      requires Valid()
      modifies this
      ensures Open() && fedConds == old(fedConds) && fresh(Repr - {this}) && todo == Qualified(cols, recs, fedConds)
      ensures scan.indexScan != null <==> exists j: nat :: IndexServes(j)
    {
      hide Table.Holding, RecordScan.Valid, Qualified, Ready;
      var indexNo, at := ChooseIndex();
      if indexNo == -1 {
        OpenFile();
      } else {
        var i := ServedCond(indexNo, at);
        OpenIndex(indexNo, i);
      }
      Settle();
      assert indexNo != -1 ==> IndexServes(at);
      forall j: nat ensures IndexServes(j) <==> old(IndexServes(j)) { }
    }

    /** Skips the rows that do not satisfy the conditions. */
    method Settle()
      requires Valid() && ScanOk()
      modifies this`rid, scan.objs
      ensures Open() && scan == old(scan)
    {
      hide Table.Holding, RecordScan.Valid, Qualified, NumberRhs, AllHold, Dict, Evaluable, FieldOk, RowOk;
      while !scan.IsEnd()
        invariant Valid() && ScanOk() && scan == old(scan)
        decreases scan.ahead
      {
        rid := scan.GetRecordID();
        QualifiedAt(cols, recs, fedConds, rid);
        var rec := table.GetRow(rid, store, cols, recs);
        if EvalConds(cols, fedConds, rec) {
          return;
        }
        SkipOne(scan.ahead, Qualified(cols, recs, fedConds), rid);
        scan.Next();
      }
    }

    /** Moves to the next qualifying row. */
    method Next()
      requires Open() && !IsEnd()
      modifies Repr
      ensures Open() && todo == old(todo) - {old(rid)} && Repr == old(Repr) && fedConds == old(fedConds)
    {
      hide Table.Holding, RecordScan.Valid, Qualified, Ready;
      todo := todo - {rid};
      scan.Next();
      Settle();
    }

    /** The row the scan stands at. */
    method Rec() returns (rec: Bytes)
      requires Open() && !IsEnd()
      ensures rec == recs[rid]
    {
      rec := table.GetRow(rid, store, cols, recs);
    }
  }

  /** The index positions between which the entries satisfy the condition. */
  method RangeBounds(ih: IndexHandle, op: CompOp, key: Key) returns (lower: IndexID, upper: IndexID, ghost lo: nat,
                     ghost hi: nat)
    requires ih.Valid() && ih.ord.valid(key) && op != NE
    ensures (lo, hi) == RangeOf(ih.ord, ih.Contents(), op, key) && lo <= hi <= |ih.Contents()|
    ensures lower == ih.IdAt(RangeOf(ih.ord, ih.Contents(), op, key).0)
    ensures upper == ih.IdAt(RangeOf(ih.ord, ih.Contents(), op, key).1)
  {
    ContentsKeys(ih.pages, ih.hdr, ih.sh);
    RangeExact(ih.ord, ih.Contents(), op, key);
    lower := ih.LeafBegin();
    upper := ih.LeafEnd();
    lo, hi := RangeOf(ih.ord, ih.Contents(), op, key).0, RangeOf(ih.ord, ih.Contents(), op, key).1;
    match op {
      case EQ =>
        lower := ih.LowerBound(key);
        upper := ih.UpperBound(key);
      case LT => upper := ih.LowerBound(key);
      case GT => lower := ih.UpperBound(key);
      case LE => upper := ih.UpperBound(key);
      case GE => lower := ih.LowerBound(key);
    }
  }

  /** The range of the index on column k that serves cond covers every row that satisfies all the conditions. */
  method IndexRange(table: Table, k: nat, conds: seq<Condition>, i: nat, ghost store: set<object>,
                    ghost cols: seq<Column>,
                    ghost recs: Records)
    returns (ih: IndexHandle, lower: IndexID, upper: IndexID, ghost lo: nat, ghost hi: nat)
    requires table.Holding(store, cols, recs) && k in table.indexes && k < |cols| && Ready(cols, conds)
    requires i < |conds| && Servable(conds[i]) && FindCol(cols, conds[i].lhs) == k
    ensures ih in store && ih.Valid() && lo <= hi <= |ih.Contents()| && lower == ih.IdAt(lo) && upper == ih.IdAt(hi)
    ensures DistinctRids(ih.Contents()) && RangeRids(ih.Contents(), lo, hi) <= recs.Keys
    ensures Qualified(cols, recs, conds) <= RangeRids(ih.Contents(), lo, hi)
  {
    ih := table.indexes[k];
    var cond := conds[i];
    assert cond in conds && NumberRhs(cond);
    assert table.IndexOk(k, recs);
    ContentsKeys(ih.pages, ih.hdr, ih.sh);
    lower, upper, lo, hi := RangeBounds(ih, cond.op, cond.rhs.val.raw);
    RangeScanComplete(ih.ord, ih.Contents(), cols, recs, conds, cond, k);
  }
}
