/** What holds of an index file over whole runs: it is a multimap, a balanced tree, and it leaks no page. */
module IndexTheorems {
  import opened Common
  import opened Seqs
  import opened KeyOrder
  import opened IndexPages
  import opened IndexInsert
  import opened IndexDelete
  import opened IndexLinks
  import opened IndexHandler

  // ----- agreement with a multimap -----

  datatype IndexOp = Insert(key: Key, rid: RecordID) | Delete(key: Key, rid: RecordID)

  function Removed(o: KeyOrd, es: seq<Entry>, key: Key, rid: RecordID): seq<Entry> {
    var g := MatchIndex(o, es, key, rid);
    if g < |es| then RemoveAt(es, g) else es
  }

  function MultimapStep(o: KeyOrd, es: seq<Entry>, op: IndexOp): seq<Entry> {
    match op
    case Insert(key, rid) => Inserted(o, es, Entry(key, rid))
    case Delete(key, rid) => Removed(o, es, key, rid)
  }

  function MultimapRun(o: KeyOrd, ops: seq<IndexOp>): seq<Entry> {
    if ops == [] then []
    else MultimapStep(o, MultimapRun(o, ops[..|ops| - 1]), Last(ops))
  }

  /** Any run of insertions and deletions on a new index leaves it valid and holding what the multimap holds. */
  method RunIndex(ord: KeyOrd, order: int, ops: seq<IndexOp>) returns (ih: IndexHandle)
    requires Lawful(ord) && order > 2 && forall op :: op in ops ==> ord.valid(op.key)
    ensures fresh(ih) && ih.Valid() && ih.ord == ord && ih.Contents() == MultimapRun(ord, ops)
  {
    hide MultimapStep, IndexHandle.Valid, Lawful;
    ih := new IndexHandle(ord, order);
    var i := 0;
    while i < |ops|
      invariant i <= |ops| && fresh(ih) && ih.Valid() && ih.ord == ord
      invariant ih.Contents() == MultimapRun(ord, ops[..i])
    {
      RunStep(ord, ops, i);
      var op := ops[i];
      assert op in ops;
      ApplyOp(ih, op);
      i := i + 1;
    }
    assert ops[..i] == ops;
  }

  lemma {:induction false} RunStep(o: KeyOrd, ops: seq<IndexOp>, i: nat)
    requires i < |ops|
    ensures MultimapRun(o, ops[..i + 1]) == MultimapStep(o, MultimapRun(o, ops[..i]), ops[i])
  {
    assert ops[..i + 1][..i] == ops[..i];
  }

  method ApplyOp(ih: IndexHandle, op: IndexOp)
    requires ih.Valid() && ih.ord.valid(op.key)
    modifies ih
    ensures ih.Valid() && ih.Contents() == MultimapStep(ih.ord, old(ih.Contents()), op)
  {
    match op {
      case Insert(key, rid) => ih.InsertEntry(key, rid);
      case Delete(key, rid) => var found := ih.DeleteEntry(key, rid);
    }
  }

  /** The multimap stays in key order. */
  lemma {:induction false} RunSorted(o: KeyOrd, ops: seq<IndexOp>)
    requires Lawful(o) && forall op :: op in ops ==> o.valid(op.key)
    ensures Sorted(o, EntryKeys(MultimapRun(o, ops)))
  {
    if ops != [] {
      RunSorted(o, ops[..|ops| - 1]);
      assert Last(ops) in ops;
      StepSorted(o, MultimapRun(o, ops[..|ops| - 1]), Last(ops));
    }
  }

  lemma StepSorted(o: KeyOrd, es: seq<Entry>, op: IndexOp)
    requires Lawful(o) && o.valid(op.key) && Sorted(o, EntryKeys(es))
    ensures Sorted(o, EntryKeys(MultimapStep(o, es, op)))
  {
    hide Lawful, Sorted, Before;
    var ks := EntryKeys(es);
    match op {
      case Insert(key, rid) =>
        var c := CutIndex(o, true, key, ks);
        SortedInsert(o, ks, key);
        assert EntryKeys(InsertAt(es, c, [Entry(key, rid)])) == InsertAt(ks, c, [key]);
      case Delete(key, rid) =>
        var g := MatchIndex(o, es, key, rid);
        if g < |es| {
          SortedRemove(o, ks, g);
          assert EntryKeys(RemoveAt(es, g)) == RemoveAt(ks, g);
        }
    }
  }

  /** An insertion puts one new entry behind every entry whose key is not larger and before all the others. */
  lemma InsertedMeaning(o: KeyOrd, es: seq<Entry>, e: Entry) returns (c: nat)
    requires Lawful(o) && o.valid(e.key) && Sorted(o, EntryKeys(es))
    ensures c <= |es| && Inserted(o, es, e) == es[..c] + [e] + es[c..]
    ensures forall k :: 0 <= k < c ==> o.cmp(es[k].key, e.key) <= 0
    ensures forall k :: c <= k < |es| ==> o.cmp(es[k].key, e.key) > 0
    ensures multiset(Inserted(o, es, e)) == multiset(es) + multiset{e}
  {
    var ks := EntryKeys(es);
    c := CutIndex(o, true, e.key, ks);
    CutIndexIsCut(o, true, e.key, ks);
    forall k | 0 <= k < c ensures o.cmp(es[k].key, e.key) <= 0 { assert Before(o, true, e.key, ks[k]); }
    forall k | c <= k < |es| ensures o.cmp(es[k].key, e.key) > 0 { assert !Before(o, true, e.key, ks[k]); }
    SplicedBag(es, c, e);
  }

  lemma SplicedBag(es: seq<Entry>, c: nat, e: Entry)
    requires c <= |es|
    ensures multiset(es[..c] + [e] + es[c..]) == multiset(es) + multiset{e}
  {
    assert es == es[..c] + es[c..];
  }

  /** A deletion takes out exactly the first entry that matches, and changes nothing when none does. */
  lemma RemovedMeaning(o: KeyOrd, es: seq<Entry>, key: Key, rid: RecordID) returns (g: nat)
    ensures g <= |es| && forall k :: 0 <= k < g ==> !(o.cmp(key, es[k].key) == 0 && es[k].rid == rid)
    ensures if g < |es| then o.cmp(key, es[g].key) == 0 && es[g].rid == rid
                             && Removed(o, es, key, rid) == es[..g] + es[g + 1..]
                             && multiset(Removed(o, es, key, rid)) + multiset{es[g]} == multiset(es)
            else Removed(o, es, key, rid) == es
  {
    g := MatchIndex(o, es, key, rid);
    if g < |es| { CutBag(es, g); }
  }

  lemma CutBag(es: seq<Entry>, g: nat)
    requires g < |es|
    ensures multiset(es[..g] + es[g + 1..]) + multiset{es[g]} == multiset(es)
  {
    assert es == es[..g] + [es[g]] + es[g + 1..];
  }

  /** Deleting what was just inserted undoes the insertion, unless the same entry had been there before. */
  lemma DeleteUndoesInsert(o: KeyOrd, es: seq<Entry>, e: Entry)
    requires Lawful(o) && o.valid(e.key) && Sorted(o, EntryKeys(es))
    requires forall x :: x in es ==> !Matches(o, x, e.key, e.rid)
    ensures Removed(o, Inserted(o, es, e), e.key, e.rid) == es
  {
    var c := CutIndex(o, true, e.key, EntryKeys(es));
    var s := Inserted(o, es, e);
    assert s[c] == e && o.cmp(e.key, e.key) == 0;
    var g := MatchIndex(o, s, e.key, e.rid);
    forall k | 0 <= k < |s| && k != c ensures !Matches(o, s[k], e.key, e.rid) {
      var x := s[k];
      assert x == es[if k < c then k else k - 1] && x in es;
    }
    assert g == c;
    assert RemoveAt(s, c) == es;
  }

  // ----- the tree reached from the root -----

  /** The entries found by following child pointers from p down to the leaves, at most h levels deep. */
  function Walk(pages: Pages, p: int, h: nat): seq<Entry>
    decreases h, 0
  {
    if p !in pages || |pages[p].keys| != |pages[p].rids| then []
    else if pages[p].isLeaf then Zip(pages[p].keys, pages[p].rids)
    else if h == 0 then []
    else WalkAll(pages, PagesOf(pages[p].rids), h - 1)
  }

  function WalkAll(pages: Pages, ps: seq<int>, h: nat): seq<Entry>
    decreases h, |ps| + 1
  {
    if ps == [] then [] else Walk(pages, ps[0], h) + WalkAll(pages, ps[1..], h)
  }

  lemma {:induction false} WalkConcat(pages: Pages, a: seq<int>, b: seq<int>, h: nat)
    ensures WalkAll(pages, a + b, h) == WalkAll(pages, a, h) + WalkAll(pages, b, h)
  {
    if a == [] {
      assert a + b == b;
    } else {
      assert (a + b)[0] == a[0] && (a + b)[1..] == a[1..] + b;
      WalkConcat(pages, a[1..], b, h);
    }
  }

  lemma {:induction false} WalkDown(pages: Pages, ht: Heights, ps: seq<int>, h: nat)
    requires forall p :: p in ps ==> NodeOk(pages, ht, p) && ht[p] == h + 1
    ensures WalkAll(pages, ps, h + 1) == WalkAll(pages, PagesOf(Join(RidMap(pages), ps)), h)
  {
    if ps != [] {
      var p := ps[0];
      assert p in ps;
      forall x | x in ps[1..] ensures NodeOk(pages, ht, x) && ht[x] == h + 1 { assert x in ps; }
      WalkDown(pages, ht, ps[1..], h);
      var r, t := pages[p].rids, Join(RidMap(pages), ps[1..]);
      assert Join(RidMap(pages), ps) == r + t;
      PagesOfConcat(r, t);
      WalkConcat(pages, PagesOf(r), PagesOf(t), h);
    }
  }

  lemma {:induction false} WalkLeaves(pages: Pages, ht: Heights, ps: seq<int>)
    requires forall p :: p in ps ==> NodeOk(pages, ht, p) && ht[p] == 0
    ensures |Join(KeyMap(pages), ps)| == |Join(RidMap(pages), ps)|
    ensures WalkAll(pages, ps, 0) == Zip(Join(KeyMap(pages), ps), Join(RidMap(pages), ps))
  {
    if ps != [] {
      var p := ps[0];
      assert p in ps;
      forall x | x in ps[1..] ensures NodeOk(pages, ht, x) && ht[x] == 0 { assert x in ps; }
      WalkLeaves(pages, ht, ps[1..]);
      var (k, r, ks, rs) := (pages[p].keys, pages[p].rids, Join(KeyMap(pages), ps[1..]), Join(RidMap(pages), ps[1..]));
      assert Zip(k + ks, r + rs) == Zip(k, r) + Zip(ks, rs);
    }
  }

  lemma {:induction false} WalkLevel(pages: Pages, hdr: IndexHeader, sh: Shape, l: nat)
    requires WellFormed(pages, hdr, sh, {}) && l < |sh.levels|
    ensures |LeafKeys(pages, sh)| == |LeafRids(pages, sh)|
    ensures WalkAll(pages, sh.levels[l], l) == Zip(LeafKeys(pages, sh), LeafRids(pages, sh))
  {
    hide WalkAll, Walk, Zip, Join;
    LevelNodes(pages, hdr, sh, l);
    if l == 0 {
      WalkLeaves(pages, sh.ht, sh.levels[0]);
    } else {
      WalkLevel(pages, hdr, sh, l - 1);
      WalkDown(pages, sh.ht, sh.levels[l], l - 1);
      assert Stack(RidMap(pages), sh.levels, l);
    }
  }

  lemma LevelNodes(pages: Pages, hdr: IndexHeader, sh: Shape, l: nat)
    requires WellFormed(pages, hdr, sh, {}) && l < |sh.levels|
    ensures forall p :: p in sh.levels[l] ==> NodeOk(pages, sh.ht, p) && sh.ht[p] == l
  {
    forall p | p in sh.levels[l] ensures NodeOk(pages, sh.ht, p) && sh.ht[p] == l { assert p in sh.ht; }
  }

  /** The in-order traversal from the root yields the contents; all leaves lie at the same depth |levels| - 1. */
  lemma TreeHoldsContents(ih: IndexHandle)
    requires ih.Valid()
    ensures Walk(ih.pages, ih.hdr.rootPage, |ih.sh.levels| - 1) == ih.Contents()
  {
    var top := |ih.sh.levels| - 1;
    WalkLevel(ih.pages, ih.hdr, ih.sh, top);
    assert ih.sh.levels[top] == [ih.hdr.rootPage];
    assert WalkAll(ih.pages, [ih.hdr.rootPage][1..], top) == [];
  }

  // ----- the tree invariant, read off the pages -----

  /** Every path from p down to a leaf has length h. */
  ghost predicate EvenDepth(pages: Pages, p: int, h: nat)
    decreases h
  {
    && p in pages && (pages[p].isLeaf <==> h == 0)
    && (h > 0 ==> forall i :: 0 <= i < |pages[p].rids| ==> EvenDepth(pages, pages[p].rids[i].page, h - 1))
  }

  /** The i-th child points back, and its largest key is the i-th key. */
  ghost predicate ChildSound(pages: Pages, p: int, i: nat)
    requires p in pages && i < |pages[p].rids|
  {
    var c := pages[p].rids[i].page;
    c in pages && pages[c].parent == p && pages[c].keys != [] && i < |pages[p].keys|
      && pages[p].keys[i] == Last(pages[c].keys)
  }

  /** As many keys as children, within the bounds of the order, and sound children. */
  ghost predicate PageSound(pages: Pages, hdr: IndexHeader, p: int) {
    && SizeOk(pages, hdr, p) && |pages[p].keys| == |pages[p].rids|
    && (!pages[p].isLeaf ==> forall i :: 0 <= i < |pages[p].rids| ==> ChildSound(pages, p, i))
  }

  lemma {:induction false} DepthAt(pages: Pages, hdr: IndexHeader, sh: Shape, p: int, h: nat)
    requires WellFormed(pages, hdr, sh, {}) && p in sh.ht && sh.ht[p] == h
    ensures EvenDepth(pages, p, h)
    decreases h
  {
    assert NodeOk(pages, sh.ht, p);
    if h > 0 {
      forall i | 0 <= i < |pages[p].rids| ensures EvenDepth(pages, pages[p].rids[i].page, h - 1) {
        assert ChildOk(pages, sh.ht, p, i);
        DepthAt(pages, hdr, sh, pages[p].rids[i].page, h - 1);
      }
    }
  }

  lemma PageSoundAt(pages: Pages, hdr: IndexHeader, sh: Shape, p: int)
    requires WellFormed(pages, hdr, sh, {}) && p in sh.ht
    ensures PageSound(pages, hdr, p)
  {
    assert NodeOk(pages, sh.ht, p) && SizeOk(pages, hdr, p);
    if !pages[p].isLeaf {
      forall i | 0 <= i < |pages[p].rids| ensures ChildSound(pages, p, i) {
        assert ChildOk(pages, sh.ht, p, i) && KeyOk(pages, sh.ht, p, i, {});
        var c := pages[p].rids[i].page;
        RootHasNoParent(pages, hdr, sh, p, i);
        assert NodeOk(pages, sh.ht, c) && SizeOk(pages, hdr, c);
      }
    }
  }

  lemma RootHasNoParent(pages: Pages, hdr: IndexHeader, sh: Shape, p: int, i: nat)
    requires WellFormed(pages, hdr, sh, {}) && p in sh.ht && p in pages && !pages[p].isLeaf && i < |pages[p].rids|
    ensures pages[p].rids[i].page != hdr.rootPage
  {
    RootHeight(pages, hdr, sh.levels, sh.ht);
    assert NodeOk(pages, sh.ht, p) && ChildOk(pages, sh.ht, p, i);
  }

  /** All leaves lie equally deep below the root; every page is sound; the leaves form one ring through page 1, from the
      initial page 2, which is never freed, to the last leaf. */
  lemma TreeInvariant(ih: IndexHandle)
    requires ih.Valid()
    ensures EvenDepth(ih.pages, ih.hdr.rootPage, |ih.sh.levels| - 1) && ih.pages[ih.hdr.rootPage].parent == NO_PAGE
    ensures forall p :: p in ih.sh.ht ==> PageSound(ih.pages, ih.hdr, p)
    ensures ih.hdr.firstLeaf == INIT_ROOT_PAGE && INIT_ROOT_PAGE in ih.sh.ht && INIT_ROOT_PAGE !in ih.sh.free
    ensures var leaves := ih.sh.levels[0];
            && |leaves| > 0 && leaves[0] == INIT_ROOT_PAGE && Last(leaves) == ih.hdr.lastLeaf
            && (forall k :: 0 <= k < |leaves| - 1 ==> Adjacent(ih.pages, leaves[k], leaves[k + 1]))
            && Adjacent(ih.pages, LEAF_HEADER_PAGE, leaves[0]) && Adjacent(ih.pages, Last(leaves), LEAF_HEADER_PAGE)
  {
    var pages, hdr, sh := ih.pages, ih.hdr, ih.sh;
    RootHeight(pages, hdr, sh.levels, sh.ht);
    DepthAt(pages, hdr, sh, hdr.rootPage, |sh.levels| - 1);
    forall p | p in sh.ht ensures PageSound(pages, hdr, p) { PageSoundAt(pages, hdr, sh, p); }
    var leaves := sh.levels[0];
    assert leaves[0] in leaves;
    RingAdjacent(pages, leaves);
  }

  lemma {:induction false} RingAdjacent(pages: Pages, leaves: seq<int>)
    requires leaves != [] && Chain(pages, [LEAF_HEADER_PAGE] + leaves + [LEAF_HEADER_PAGE])
    ensures forall k :: 0 <= k < |leaves| - 1 ==> Adjacent(pages, leaves[k], leaves[k + 1])
    ensures Adjacent(pages, LEAF_HEADER_PAGE, leaves[0]) && Adjacent(pages, Last(leaves), LEAF_HEADER_PAGE)
  {
    var ring := [LEAF_HEADER_PAGE] + leaves + [LEAF_HEADER_PAGE];
    forall k | 0 <= k < |leaves| + 1 ensures Adjacent(pages, ring[k], ring[k + 1]) { ChainNext(pages, ring, k); }
    forall k | 0 <= k < |leaves| - 1 ensures Adjacent(pages, leaves[k], leaves[k + 1]) {
      assert ring[k + 1] == leaves[k] && ring[k + 2] == leaves[k + 1];
      assert Adjacent(pages, ring[k + 1], ring[k + 1 + 1]);
    }
    assert ring[0] == LEAF_HEADER_PAGE && ring[0 + 1] == leaves[0];
    assert ring[|leaves|] == Last(leaves) && ring[|leaves| + 1] == LEAF_HEADER_PAGE;
  }

  // ----- size -----

  function Power(m: nat, e: nat): nat {
    if e == 0 then 1 else m * Power(m, e - 1)
  }

  lemma Scaled(m: nat, a: nat, w: nat)
    requires a >= 2 * w
    ensures m * a >= 2 * (m * w)
  {
    assert m * a >= m * (2 * w);
  }

  lemma {:induction false} JoinLowerBound(m: map<int, seq<RecordID>>, ps: seq<int>, n: nat)
    requires forall p :: p in ps ==> p in m && |m[p]| >= n
    ensures |Join(m, ps)| >= n * |ps|
  {
    if ps != [] {
      var p := ps[0];
      assert p in ps;
      forall x | x in ps[1..] ensures x in m && |m[x]| >= n { assert x in ps; }
      JoinLowerBound(m, ps[1..], n);
      assert n * |ps| == n + n * |ps[1..]|;
    }
  }

  /** A tree with h >= 1 levels of inner pages has at least 2 * m^(h - 1 - l) pages at height l below the root. */
  lemma {:induction false} LevelWidth(pages: Pages, hdr: IndexHeader, sh: Shape, l: nat)
    requires WellFormed(pages, hdr, sh, {}) && l + 1 < |sh.levels|
    ensures |sh.levels[l]| >= 2 * Power(MinChildren(hdr.order), |sh.levels| - 2 - l)
    decreases |sh.levels| - l
  {
    var m, up, rm := MinChildren(hdr.order), sh.levels[l + 1], RidMap(pages);
    RootHeight(pages, hdr, sh.levels, sh.ht);
    assert Stack(rm, sh.levels, l + 1);
    if l + 2 == |sh.levels| {
      assert SizeOk(pages, hdr, hdr.rootPage) && NodeOk(pages, sh.ht, hdr.rootPage);
      JoinOne(rm, hdr.rootPage);
    } else {
      LevelWidth(pages, hdr, sh, l + 1);
      forall p | p in up
        ensures p in rm && |rm[p]| >= m
      {
        assert p in sh.ht && NodeOk(pages, sh.ht, p) && SizeOk(pages, hdr, p);
      }
      JoinLowerBound(rm, up, m);
      Scaled(m, |up|, Power(m, |sh.levels| - 3 - l));
    }
  }

  /** A tree with h >= 1 levels of inner pages holds at least 2 * m^h entries, m being half the order rounded up. */
  lemma HeightBound(ih: IndexHandle)
    requires ih.Valid() && |ih.sh.levels| > 1
    ensures |ih.Contents()| >= 2 * Power(MinChildren(ih.hdr.order), |ih.sh.levels| - 1)
  {
    var pages, hdr, sh := ih.pages, ih.hdr, ih.sh;
    var m, w := MinChildren(hdr.order), Power(MinChildren(hdr.order), |sh.levels| - 2);
    LevelWidth(pages, hdr, sh, 0);
    LeafCount(pages, hdr, sh);
    ContentsAgree(pages, hdr, sh);
    Scaled(m, |sh.levels[0]|, w);
  }

  lemma LeafCount(pages: Pages, hdr: IndexHeader, sh: Shape)
    requires WellFormed(pages, hdr, sh, {}) && |sh.levels| > 1
    ensures MinChildren(hdr.order) >= 0 && |LeafRids(pages, sh)| >= MinChildren(hdr.order) * |sh.levels[0]|
  {
    var m := MinChildren(hdr.order);
    RootHeight(pages, hdr, sh.levels, sh.ht);
    forall p | p in sh.levels[0] ensures p in RidMap(pages) && |RidMap(pages)[p]| >= m {
      assert p in sh.ht && NodeOk(pages, sh.ht, p) && SizeOk(pages, hdr, p);
    }
    JoinLowerBound(RidMap(pages), sh.levels[0], m);
  }

  // ----- pages -----

  lemma {:induction false} RangeCount(n: nat) returns (s: set<int>)
    ensures forall x :: x in s <==> 2 <= x < n + 2
    ensures |s| == n
  {
    if n == 0 {
      s := {};
    } else {
      var t := RangeCount(n - 1);
      s := t + {n + 1};
    }
  }

  lemma {:induction false} SeqCount(q: seq<int>) returns (s: set<int>)
    requires NoDup(q)
    ensures forall x :: x in s <==> x in q
    ensures |s| == |q|
  {
    if q == [] {
      s := {};
    } else {
      NoDupHead(q);
      var t := SeqCount(q[1..]);
      s := t + {q[0]};
      assert q == [q[0]] + q[1..];
    }
  }

  lemma PagesCounted(pages: Pages, hdr: IndexHeader, live: set<int>, free: seq<int>)
    requires Partition(pages, hdr, live, free)
    ensures |live| + |free| == hdr.numPages - INIT_ROOT_PAGE
    ensures forall p :: p in live ==> p !in free && INIT_ROOT_PAGE <= p < hdr.numPages
  {
    var all := RangeCount(hdr.numPages - 2);
    var f := SeqCount(free);
    forall x ensures x in all <==> x in live + f {
      assert INIT_ROOT_PAGE <= x < hdr.numPages <==> x in live || x in free;
    }
    assert all == live + f;
    forall x | x in live ensures x !in f { assert x !in free; }
    assert live !! f;
  }

  /** No page is leaked or used twice: the file's pages from 2 on are the tree pages and the free pages. */
  lemma PagesConserved(ih: IndexHandle)
    requires ih.Valid()
    ensures |ih.sh.ht.Keys| + |ih.sh.free| == ih.hdr.numPages - INIT_ROOT_PAGE
    ensures forall p :: p in ih.sh.ht ==> p !in ih.sh.free && INIT_ROOT_PAGE <= p < ih.hdr.numPages
  {
    PagesCounted(ih.pages, ih.hdr, ih.sh.ht.Keys, ih.sh.free);
  }

  // ----- range scans -----

  /** Reads the record ids from one position up to another. */
  method ScanRange(ih: IndexHandle, lower: IndexID, upper: IndexID, ghost lo: nat,
                   ghost hi: nat) returns (rids: seq<RecordID>)
    requires ih.Valid() && lo <= hi <= |ih.Contents()| && lower == ih.IdAt(lo) && upper == ih.IdAt(hi)
    ensures |rids| == hi - lo && forall k :: 0 <= k < |rids| ==> rids[k] == ih.Contents()[lo + k].rid
  {
    hide IndexHandle.Valid, IndexHandle.Contents, IndexHandle.IdAt;
    rids := [];
    var scan := new IndexIterator(ih, lower, upper, lo, hi);
    scan.EndIff();
    while !scan.IsEnd()
      invariant scan.Valid() && scan.ih == ih && scan.stop == hi && fresh(scan) && lo <= scan.at
      invariant scan.IsEnd() <==> scan.at == hi
      invariant |rids| == scan.at - lo && forall k :: 0 <= k < |rids| ==> rids[k] == ih.Contents()[lo + k].rid
      decreases hi - scan.at
    {
      var r := scan.GetRecordID();
      rids := rids + [r.value];
      scan.Next();
      scan.EndIff();
    }
  }
}
