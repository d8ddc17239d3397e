/** What it means for an index to agree with the records of its table, and which entries a condition selects. */
module TableIndexes {
  import opened Common
  import opened Seqs
  import opened KeyOrder
  import opened IndexPages
  import opened IndexInsert
  import opened IndexDelete
  import opened Rows
  import opened Conditions

  type Records = map<RecordID, Bytes>

  /** No two entries name the same record. */
  ghost predicate DistinctRids(es: seq<Entry>) {
    forall i, j :: 0 <= i < j < |es| ==> es[i].rid != es[j].rid
  }

  /** Every entry is the column value of a live record. */
  ghost predicate Sound(es: seq<Entry>, recs: Records, col: Column) {
    forall k :: 0 <= k < |es| ==> es[k].rid in recs && es[k].key == Field(recs[es[k].rid], col)
  }

  ghost predicate HasRid(es: seq<Entry>, rid: RecordID) {
    exists k :: 0 <= k < |es| && es[k].rid == rid
  }

  /** The index holds exactly one entry for each live record, carrying its column value. */
  ghost predicate Mirrors(es: seq<Entry>, recs: Records, col: Column) {
    DistinctRids(es) && Sound(es, recs, col) && forall r :: r in recs ==> HasRid(es, r)
  }

  /** Read as bags: the index holds exactly the column value and record id of each live record. */
  lemma MirrorsAsBag(es: seq<Entry>, recs: Records, col: Column)
    requires Mirrors(es, recs, col)
    ensures multiset(es) == multiset(set r | r in recs :: Entry(Field(recs[r], col), r))
  {
    var want := set r | r in recs :: Entry(Field(recs[r], col), r);
    forall e ensures e in es <==> e in want {
      if e in want {
        assert HasRid(es, e.rid);
        var k :| 0 <= k < |es| && es[k].rid == e.rid;
        assert es[k] == e;
      }
    }
    NoDupBag(es, want);
  }

  lemma MirrorInsert(o: KeyOrd, es: seq<Entry>, recs: Records, col: Column, rid: RecordID, rec: Bytes)
    requires Mirrors(es, recs, col) && rid !in recs
    ensures Mirrors(Inserted(o, es, Entry(Field(rec, col), rid)), recs[rid := rec], col)
  {
    var e := Entry(Field(rec, col), rid);
    MirrorAdd(es, recs, col, rid, rec, CutIndex(o, true, e.key, EntryKeys(es)), Inserted(o, es, e));
  }

  lemma MirrorAdd(es: seq<Entry>, recs: Records, col: Column, rid: RecordID, rec: Bytes, c: nat, s: seq<Entry>)
    requires Mirrors(es, recs, col) && rid !in recs && c <= |es|
    requires s == es[..c] + [Entry(Field(rec, col), rid)] + es[c..]
    ensures Mirrors(s, recs[rid := rec], col)
  {
    hide Field;
    assert s[c].rid == rid;
    AddedDistinct(es, recs, col, rid, rec, c, s);
    AddedSound(es, recs, col, rid, rec, c, s);
    forall r | r in recs ensures HasRid(s, r) {
      assert HasRid(es, r);
      var k :| 0 <= k < |es| && es[k].rid == r;
      assert s[if k < c then k else k + 1].rid == r;
    }
  }

  lemma AddedDistinct(es: seq<Entry>, recs: Records, col: Column, rid: RecordID, rec: Bytes, c: nat, s: seq<Entry>)
    requires DistinctRids(es) && Sound(es, recs, col) && rid !in recs && c <= |es|
    requires s == es[..c] + [Entry(Field(rec, col), rid)] + es[c..]
    ensures DistinctRids(s)
  {
    hide Field;
    forall k | 0 <= k < |s| && k != c ensures s[k] == es[if k < c then k else k - 1] { }
  }

  lemma AddedSound(es: seq<Entry>, recs: Records, col: Column, rid: RecordID, rec: Bytes, c: nat, s: seq<Entry>)
    requires Sound(es, recs, col) && rid !in recs && c <= |es|
    requires s == es[..c] + [Entry(Field(rec, col), rid)] + es[c..]
    ensures Sound(s, recs[rid := rec], col)
  {
    hide Field;
    forall k | 0 <= k < |s| && k != c ensures s[k] == es[if k < c then k else k - 1] { }
  }

  /** The entry of a live record is the one that a deletion by value and record id finds. */
  lemma MirrorFinds(o: KeyOrd, es: seq<Entry>, recs: Records, col: Column, rid: RecordID) returns (g: nat)
    requires Lawful(o) && Mirrors(es, recs, col) && rid in recs && o.valid(Field(recs[rid], col))
    ensures g == MatchIndex(o, es, Field(recs[rid], col), rid) && g < |es| && es[g].rid == rid
  {
    var key := Field(recs[rid], col);
    g := MatchIndex(o, es, key, rid);
    assert HasRid(es, rid);
    var k :| 0 <= k < |es| && es[k].rid == rid;
    assert o.cmp(key, key) < 0 <==> o.cmp(key, key) > 0;
    assert Matches(o, es[k], key, rid);
  }

  lemma MirrorRemove(es: seq<Entry>, recs: Records, col: Column, g: nat)
    requires Mirrors(es, recs, col) && g < |es|
    ensures Mirrors(RemoveAt(es, g), recs - {es[g].rid}, col)
  {
    hide Field;
    OthersDistinct(es, g);
    OthersSound(es, recs, col, g);
    forall r | r in recs && r != es[g].rid ensures HasRid(RemoveAt(es, g), r) { OtherStays(es, g, r); }
  }

  lemma OtherStays(es: seq<Entry>, g: nat, r: RecordID)
    requires g < |es| && HasRid(es, r) && r != es[g].rid
    ensures HasRid(RemoveAt(es, g), r)
  {
    var k :| 0 <= k < |es| && es[k].rid == r;
    assert RemoveAt(es, g)[if k < g then k else k - 1].rid == r;
  }

  lemma OthersSound(es: seq<Entry>, recs: Records, col: Column, g: nat)
    requires DistinctRids(es) && Sound(es, recs, col) && g < |es|
    ensures Sound(RemoveAt(es, g), recs - {es[g].rid}, col)
  {
    hide Field;
    var s := RemoveAt(es, g);
    forall k | 0 <= k < |s| ensures s[k] == es[if k < g then k else k + 1] { }
  }

  lemma OthersDistinct(es: seq<Entry>, g: nat)
    requires DistinctRids(es) && g < |es|
    ensures DistinctRids(RemoveAt(es, g))
  {
    var s := RemoveAt(es, g);
    forall k | 0 <= k < |s| ensures s[k] == es[if k < g then k else k + 1] { }
  }

  /** Deleting a live record's value and record id takes its entry out. */
  lemma {:induction false} MirrorDelete(o: KeyOrd, es: seq<Entry>, recs: Records, col: Column, rid: RecordID)
    requires Lawful(o) && Mirrors(es, recs, col) && rid in recs && o.valid(Field(recs[rid], col))
    ensures MatchIndex(o, es, Field(recs[rid], col), rid) < |es|
    ensures Mirrors(RemoveAt(es, MatchIndex(o, es, Field(recs[rid], col), rid)), recs - {rid}, col)
  {
    var g := MirrorFinds(o, es, recs, col, rid);
    MirrorRemove(es, recs, col, g);
  }

  /** Changes outside the column do not concern its index. */
  lemma MirrorFrame(es: seq<Entry>, recs: Records, recs': Records, col: Column)
    requires Mirrors(es, recs, col) && recs'.Keys == recs.Keys
    requires forall r :: r in recs ==> Field(recs'[r], col) == Field(recs[r], col)
    ensures Mirrors(es, recs', col)
  {
  }

  // ----- the range of entries that a condition selects -----

  /** The first and one-past-last place of the entries that satisfy "key op target". */
  ghost function RangeOf(o: KeyOrd, es: seq<Entry>, op: CompOp, target: Key): (nat, nat)
    requires op != NE
  {
    var lo, hi := CutIndex(o, false, target, EntryKeys(es)), CutIndex(o, true, target, EntryKeys(es));
    match op
    case EQ => (lo, hi)
    case LT => (0, lo)
    case GT => (hi, |es|)
    case LE => (0, hi)
    case GE => (lo, |es|)
  }

  lemma RangeExact(o: KeyOrd, es: seq<Entry>, op: CompOp, target: Key)
    requires Lawful(o) && o.valid(target) && Sorted(o, EntryKeys(es)) && op != NE
    ensures RangeOf(o, es, op, target).0 <= RangeOf(o, es, op, target).1 <= |es|
    ensures forall k :: 0 <= k < |es| ==>
      (RangeOf(o, es, op, target).0 <= k < RangeOf(o, es, op, target).1 <==> OpHolds(op, o.cmp(es[k].key, target)))
  {
    var ks := EntryKeys(es);
    CutIndexIsCut(o, false, target, ks);
    CutIndexIsCut(o, true, target, ks);
    LowerBeforeUpper(o, target, ks);
    forall k | 0 <= k < |es|
      ensures RangeOf(o, es, op, target).0 <= k < RangeOf(o, es, op, target).1 <==>
        OpHolds(op, o.cmp(es[k].key, target))
    {
      var a := ks[k];
      assert o.valid(a);
      assert Before(o, false, target, a) <==> k < CutIndex(o, false, target, ks);
      assert Before(o, true, target, a) <==> k < CutIndex(o, true, target, ks);
      assert o.cmp(a, target) < 0 <==> o.cmp(target, a) > 0;
      assert o.cmp(target, a) < 0 <==> o.cmp(a, target) > 0;
    }
  }

  /** The record ids of a range of entries. */
  ghost function RangeRids(es: seq<Entry>, lo: nat, hi: nat): set<RecordID>
    requires lo <= hi <= |es|
  {
    set k | lo <= k < hi :: es[k].rid
  }

  /** The rows that satisfy all the conditions. */
  ghost function Qualified(cols: seq<Column>, recs: Records, conds: seq<Condition>): set<RecordID> {
    set r | r in recs && AllHold(Dict(cols, recs[r]), conds)
  }

  lemma QualifiedExist(cols: seq<Column>, recs: Records, conds: seq<Condition>)
    ensures recs.Keys * Qualified(cols, recs, conds) == Qualified(cols, recs, conds)
  {
  }

  lemma QualifiedAt(cols: seq<Column>, recs: Records, conds: seq<Condition>, r: RecordID)
    ensures r in Qualified(cols, recs, conds) <==> r in recs && AllHold(Dict(cols, recs[r]), conds)
  {
  }

  /** An index range scan for one of the conditions, filtered by all of them, selects the same rows as a full scan. */
  lemma {:induction false} RangeScanComplete(o: KeyOrd, es: seq<Entry>, cols: seq<Column>, recs: Records,
                                             conds: seq<Condition>, c: Condition, i: nat)
    requires i < |cols| && cols[i].ty != DATETIME && o == ColumnOrd(cols[i].ty, cols[i].len)
    requires Mirrors(es, recs, cols[i]) && Sorted(o, EntryKeys(es))
    requires c in conds && FindCol(cols, c.lhs) == i && c.rhs.ValueOf? && c.op != NE
    requires c.rhs.val.ty == cols[i].ty && o.valid(c.rhs.val.raw)
    ensures RangeOf(o, es, c.op, c.rhs.val.raw).0 <= RangeOf(o, es, c.op, c.rhs.val.raw).1 <= |es|
    ensures var (lo, hi) := RangeOf(o, es, c.op, c.rhs.val.raw);
            Qualified(cols, recs, conds) == set r | r in RangeRids(es, lo, hi) && r in recs
              && AllHold(Dict(cols, recs[r]), conds)
  {
    hide Lawful, Sorted, AllHold, Dict, Mirrors, RangeOf;
    ColumnOrdLawful(cols[i].ty, cols[i].len);
    RangeExact(o, es, c.op, c.rhs.val.raw);
    var (lo, hi) := RangeOf(o, es, c.op, c.rhs.val.raw);
    forall r | r in Qualified(cols, recs, conds) ensures r in RangeRids(es, lo, hi) {
      QualifiedInRange(o, es, cols, recs, conds, c, i, lo, hi, r);
    }
  }

  lemma {:induction false} QualifiedInRange(o: KeyOrd, es: seq<Entry>, cols: seq<Column>, recs: Records,
                                            conds: seq<Condition>, c: Condition, i: nat,
                         lo: nat, hi: nat, r: RecordID)
    requires i < |cols| && cols[i].ty != DATETIME && o == ColumnOrd(cols[i].ty, cols[i].len)
    requires Mirrors(es, recs, cols[i]) && c in conds && FindCol(cols, c.lhs) == i && c.rhs.ValueOf?
    requires c.rhs.val.ty == cols[i].ty
    requires lo <= hi <= |es| && r in Qualified(cols, recs, conds)
    requires forall k :: 0 <= k < |es| ==> (lo <= k < hi <==> OpHolds(c.op, o.cmp(es[k].key, c.rhs.val.raw)))
    ensures r in RangeRids(es, lo, hi)
  {
    assert HasRid(es, r);
    var k :| 0 <= k < |es| && es[k].rid == r;
    IndexedCond(cols, recs[r], c, i);
    assert Holds(Dict(cols, recs[r]), c);
  }

  lemma {:induction false} IndexedCond(cols: seq<Column>, rec: Bytes, c: Condition, i: nat)
    requires i < |cols| && FindCol(cols, c.lhs) == i
    requires c.rhs.ValueOf? && c.rhs.val.ty == cols[i].ty != DATETIME
    ensures Holds(Dict(cols, rec), c) <==>
      OpHolds(c.op, ColumnOrd(cols[i].ty, cols[i].len).cmp(Field(rec, cols[i]), c.rhs.val.raw))
  {
  }
}
