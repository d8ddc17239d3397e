/** Keeping the indexes of a table in step with its records, one row at a time. */
module IndexUpkeep {
  import opened Common
  import opened IndexHandler
  import opened Rows
  import opened TableIndexes
  import opened Tables

  /** A choice of indexes: each belongs to a column and no two are the same. */
  ghost predicate Chosen(cols: seq<Column>, ihs: map<nat, IndexHandle>) {
    && (forall i: nat :: i in ihs ==> i < |cols|)
    && (forall i: nat, j: nat :: i in ihs && j in ihs && i != j ==> ihs[i] != ihs[j])
  }

  /** Every chosen index mirrors the records. */
  ghost predicate AllAgree(cols: seq<Column>, ihs: map<nat, IndexHandle>, recs: Records)
    reads ihs.Values
  {
    forall i: nat :: i in ihs && i < |cols| ==> IndexAgrees(ihs[i], cols[i], recs)
  }

  method InsertIntoIndex(ih: IndexHandle, col: Column, rid: RecordID, rec: Bytes, ghost recs: Records)
    requires IndexAgrees(ih, col, recs) && rid !in recs && FieldOk(col, Field(rec, col))
    modifies ih
    ensures IndexAgrees(ih, col, recs[rid := rec])
  {
    MirrorInsert(ih.ord, ih.Contents(), recs, col, rid, rec);
    ih.InsertEntry(Field(rec, col), rid);
  }

  /** Takes the entry of a live row out; it is always found. */
  method DeleteFromIndex(ih: IndexHandle, col: Column, rid: RecordID, rec: Bytes,
                         ghost recs: Records) returns (found: bool)
    requires IndexAgrees(ih, col, recs) && rid in recs && rec == recs[rid] && FieldOk(col, Field(rec, col))
    modifies ih
    ensures found && IndexAgrees(ih, col, recs - {rid})
  {
    MirrorDelete(ih.ord, ih.Contents(), recs, col, rid);
    found := ih.DeleteEntry(Field(rec, col), rid);
  }

  method InsertIntoIndexes(cols: seq<Column>, ihs: map<nat, IndexHandle>, rid: RecordID, rec: Bytes,
                           ghost recs: Records)
    requires Chosen(cols, ihs) && AllAgree(cols, ihs, recs) && rid !in recs && RowOk(cols, rec)
    modifies ihs.Values
    ensures AllAgree(cols, ihs, recs[rid := rec])
  {
    hide IndexAgrees, FieldOk;
    for i := 0 to |cols|
      invariant forall k: nat :: k in ihs && k < i ==> IndexAgrees(ihs[k], cols[k], recs[rid := rec])
      invariant forall k: nat :: k in ihs && i <= k < |cols| ==> IndexAgrees(ihs[k], cols[k], recs)
    {
      if i in ihs {
        InsertIntoIndex(ihs[i], cols[i], rid, rec, recs);
      }
    }
  }

  method DeleteFromIndexes(cols: seq<Column>, ihs: map<nat, IndexHandle>, rid: RecordID, rec: Bytes,
                           ghost recs: Records)
    requires Chosen(cols, ihs) && AllAgree(cols, ihs, recs) && rid in recs && rec == recs[rid] && RowOk(cols, rec)
    modifies ihs.Values
    ensures AllAgree(cols, ihs, recs - {rid})
  {
    hide IndexAgrees, FieldOk;
    for i := 0 to |cols|
      invariant forall k: nat :: k in ihs && k < i ==> IndexAgrees(ihs[k], cols[k], recs - {rid})
      invariant forall k: nat :: k in ihs && i <= k < |cols| ==> IndexAgrees(ihs[k], cols[k], recs)
    {
      if i in ihs {
        var found := DeleteFromIndex(ihs[i], cols[i], rid, rec, recs);
      }
    }
  }
}
