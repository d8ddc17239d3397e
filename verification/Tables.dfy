/** A table with its record file and indexes, and the scan of one table under conditions (QlNodeTable). */
module Tables {
  import opened Common
  import opened KeyOrder
  import opened IndexPages
  import opened IndexHandler
  import opened RecordFile
  import opened Rows
  import opened Conditions
  import opened TableIndexes
  import opened Layout

  /** RM_Manager::create_file: the layout of a file of records of one size. */
  method NewRecordFile(size: nat) returns (file: RecordFile)
    requires 1 <= size <= MAX_RECORD_SIZE
    ensures fresh(file) && file.Valid() && file.Contents() == map[] && file.hdr.recordSize == size
  {
    RecordPageFits(size);
    file := new RecordFile(size, RecordsPerPage(size), BitmapSize(RecordsPerPage(size)));
  }

  /** The column that a definition asks for, without an index. */
  ghost predicate DefinedAs(c: Column, tab: string, def: ColumnDef) {
    c.tab == tab && c.name == def.name && c.ty == def.ty && c.len == def.len && !c.index
  }

  ghost predicate AllRowsOk(cols: seq<Column>, recs: Records) {
    forall r :: r in recs ==> RowOk(cols, recs[r])
  }

  /** Reads a live record. */
  function ReadRow(file: RecordFile, rid: RecordID): (rec: Bytes)
    reads file
    requires file.Valid() && rid in file.Contents()
    ensures rec == file.Contents()[rid]
  {
    RecordsAt(file.hdr, file.pages, rid);
    file.GetRecord(rid).value
  }

  /** An index orders its keys as the column does, and mirrors the given records. */
  ghost predicate IndexAgrees(ih: IndexHandle, col: Column, recs: Records)
    reads ih
  {
    var isAgreeing := ih.Valid() && col.ty != DATETIME && ih.ord == ColumnOrd(col.ty, col.len)
      && Mirrors(ih.Contents(), recs, col);
    isAgreeing
  }

  /** The indexed columns are those flagged, and no index file serves two of them. */
  ghost predicate Flagged(cols: seq<Column>, indexes: map<nat, IndexHandle>) {
    var isFlagged :=
      && (forall i: nat :: i in indexes <==> i < |cols| && cols[i].index)
      && (forall i: nat, j: nat :: i in indexes && j in indexes && i != j ==> indexes[i] != indexes[j]);
    isFlagged
  }

  class Table {
    const name: string
    var cols: seq<Column>
    const file: RecordFile
    var indexes: map<nat, IndexHandle>

    /** A new table: columns laid out one after the other, an empty record file and no index. */
    constructor (name: string, defs: seq<ColumnDef>)
      requires |defs| > 0 && forall i :: 0 <= i < |defs| ==> DefOk(defs[i])
      requires 1 <= TotalSize(defs) <= MAX_RECORD_SIZE
      ensures Valid() && Recs() == map[] && indexes == map[] && this.name == name && fresh(file)
      ensures |cols| == |defs| && file.hdr.recordSize == TotalSize(defs) == RecordSize(cols)
      ensures forall i :: 0 <= i < |defs| ==> DefinedAs(cols[i], name, defs[i])
    {
      var cs := CreateColumns(name, defs);
      this.name, cols, indexes := name, cs, map[];
      forall i | 0 <= i < |cs| ensures cs[i].End() <= MAX_RECORD_SIZE { InsideRecord(cs, i); }
      var f := NewRecordFile(RecordSize(cs));
      file := f;
    }

    /** The objects that make up the table. */
    ghost function Storage(): set<object>
      reads this
    {
      {this, file} + indexes.Values
    }

    ghost predicate SchemaOk()
      reads this
    {
      var isSchema := LaidOut(cols) && |cols| > 0
        && forall i :: 0 <= i < |cols| ==> cols[i].tab == name && cols[i].End() <= MAX_RECORD_SIZE;
      isSchema
    }

    ghost predicate RowsOk()
      reads this, file
    {
      file.Valid() && AllRowsOk(cols, file.Contents())
    }

    /** The index of column i compares as the column does and mirrors the given records. */
    ghost predicate IndexOk(i: nat, recs: Records)
      reads Storage()
    {
      i in indexes && i < |cols| && IndexAgrees(indexes[i], cols[i], recs)
    }

    ghost predicate Shaped()
      reads this, file
    {
      SchemaOk() && RowsOk() && Flagged(cols, indexes)
    }

    /** Every index agrees with the record file. */
    ghost predicate Valid()
      reads Storage()
    {
      var isTable := Shaped() && forall i :: i in indexes ==> IndexOk(i, file.Contents());
      isTable
    }

    ghost function Recs(): Records
      reads Storage()
    {
      file.Contents()
    }

    /** The table is sound, lies within the given objects and has the given columns and records. */
    ghost predicate Holding(store: set<object>, cols: seq<Column>, recs: Records)
      reads store
    {
      var isHolding := this in store && file in store && indexes.Values <= store
        && (forall i :: i in indexes ==> indexes[i] in store) && Valid() && this.cols == cols && Recs() == recs;
      isHolding
    }

    lemma Parts()
      requires Valid()
      ensures SchemaOk() && file.Valid() && AllRowsOk(cols, Recs()) && Flagged(cols, indexes)
      ensures forall i: nat :: i in indexes ==> i < |cols| && IndexAgrees(indexes[i], cols[i], Recs())
    {
    }

    lemma Whole()
      requires SchemaOk() && file.Valid() && AllRowsOk(cols, Recs()) && Flagged(cols, indexes)
      requires forall i: nat :: i in indexes && i < |cols| ==> IndexAgrees(indexes[i], cols[i], Recs())
      ensures Valid()
    {
    }

    lemma HoldingTab(store: set<object>, cols: seq<Column>, recs: Records, t: TabCol)
      requires Holding(store, cols, recs) && t in Refs(cols)
      ensures t.tab == name
    {
    }

    lemma HoldingFile(store: set<object>, cols: seq<Column>, recs: Records)
      requires Holding(store, cols, recs)
      ensures file in store && file.Valid() && file.Contents() == recs
    {
    }

    /** The row stored under a live record id. */
    function GetRow(rid: RecordID, ghost store: set<object>, ghost cols: seq<Column>, ghost recs: Records): (rec: Bytes)
      reads store
      requires Holding(store, cols, recs) && rid in recs
      ensures rec == recs[rid]
    {
      ReadRow(file, rid)
    }
  }

  /** The scan interface shared by a record file scan and an index range scan. */
  class RecordScan {
    const fileScan: RecordIterator?
    const indexScan: IndexIterator?
    ghost const store: set<object>
    ghost const objs: set<object>
    ghost var ahead: set<RecordID>
    ghost var current: RecordID

    ghost predicate Valid()
      reads this, objs, store
    {
      var isScan := this in objs && objs !! store && (fileScan == null <==> indexScan != null) && OverFileOk()
        && OverIndexOk();
      isScan
    }

    /** The record ids ahead of a file scan are the current one and those that follow it. */
    ghost predicate OverFileOk()
      reads this, objs, store
    {
      fileScan != null ==> (
        && fileScan in objs && fileScan.file in store && fileScan.file.Valid()
        && (if fileScan.IsEnd() then ahead == {}
            else current == fileScan.rid && current in ahead && InRange(fileScan.file.hdr, current)
                 && ahead == set r | r in fileScan.file.Contents() && (r == current || Precedes(current, r))))
    }

    ghost predicate OverIndexOk()
      reads this, objs, store
    {
      indexScan != null ==> (
        && indexScan in objs && indexScan.ih in store && indexScan.Valid() && DistinctRids(indexScan.ih.Contents())
        && ahead == RangeRids(indexScan.ih.Contents(), indexScan.at, indexScan.stop)
        && (indexScan.at < indexScan.stop ==> current == indexScan.ih.Contents()[indexScan.at].rid && current in ahead))
    }

    predicate IsEnd()
      reads this, objs, store
      requires Valid()
      ensures IsEnd() <==> ahead == {}
    {
      if fileScan != null then fileScan.IsEnd() else indexScan.EndIff(); indexScan.IsEnd()
    }

    constructor OverFile(file: RecordFile, ghost store: set<object>)
      requires file in store && file.Valid()
      ensures Valid() && ahead == file.Contents().Keys && this.store == store && fresh(objs)
      ensures indexScan == null
    {
      var scan := new RecordIterator(file);
      fileScan, indexScan, current, this.store := scan, null, scan.rid, store;
      ahead := file.Contents().Keys;
      objs := {this, scan};
    }

    constructor OverIndex(ih: IndexHandle, lower: IndexID, upper: IndexID, ghost lo: nat, ghost hi: nat,
                          ghost store: set<object>)
      requires ih in store && ih.Valid() && lo <= hi <= |ih.Contents()| && lower == ih.IdAt(lo) && upper == ih.IdAt(hi)
      requires DistinctRids(ih.Contents())
      ensures Valid() && ahead == RangeRids(ih.Contents(), lo, hi) && this.store == store && fresh(objs)
      ensures indexScan != null
    {
      var scan := new IndexIterator(ih, lower, upper, lo, hi);
      fileScan, indexScan, this.store := null, scan, store;
      ahead := RangeRids(ih.Contents(), lo, hi);
      objs := {this, scan};
      if lo < hi { current := ih.Contents()[lo].rid; }
    }

    method GetRecordID() returns (rid: RecordID)
      requires Valid() && !IsEnd()
      ensures rid == current && rid in ahead
    {
      if fileScan != null {
        rid := fileScan.rid;
      } else {
        indexScan.EndIff();
        var r := indexScan.GetRecordID();
        rid := r.value;
      }
    }

    method Next()
      requires Valid() && !IsEnd()
      modifies objs
      ensures Valid() && ahead == old(ahead) - {old(current)}
    {
      if fileScan != null {
        NextInFile();
      } else {
        NextInIndex();
      }
    }

    method NextInFile()
      requires Valid() && !IsEnd() && fileScan != null
      modifies objs
      ensures Valid() && ahead == old(ahead) - {old(current)}
    {
      hide FileOk, PageOk, RecordFile.Contents;
      fileScan.Next();
      ahead := ahead - {current};
      if !fileScan.IsEnd() { current := fileScan.rid; }
    }

    method NextInIndex()
      requires Valid() && !IsEnd() && indexScan != null
      modifies objs
      ensures Valid() && ahead == old(ahead) - {old(current)}
    {
      indexScan.EndIff();
      RangeShrinks(indexScan.ih.Contents(), indexScan.at, indexScan.stop);
      indexScan.Next();
      ahead := ahead - {current};
      if indexScan.at < indexScan.stop { current := indexScan.ih.Contents()[indexScan.at].rid; }
    }
  }

  lemma RangeShrinks(es: seq<Entry>, lo: nat, hi: nat)
    requires lo < hi <= |es| && DistinctRids(es)
    ensures RangeRids(es, lo + 1, hi) == RangeRids(es, lo, hi) - {es[lo].rid}
  {
    forall r | r in RangeRids(es, lo, hi) - {es[lo].rid} ensures r in RangeRids(es, lo + 1, hi) {
      var k :| lo <= k < hi && es[k].rid == r;
      assert lo + 1 <= k;
    }
  }
}
