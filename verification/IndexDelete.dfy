/** What the steps of delete_entry keep. */
module IndexDelete {
  import opened Common
  import opened Seqs
  import opened KeyOrder
  import opened IndexPages
  import opened IndexRegroup
  import opened IndexLinks
  import opened IndexSearch
  import opened IndexSteps
  import opened IndexInsert

  /** The page the underflow loop stands at: it may have one child too few. */
  ghost predicate Underfull(pages: Pages, hdr: IndexHeader, sh: Shape, p: int) {
    && p in sh.ht && p in pages && |pages[p].rids| <= hdr.order
    && (p != hdr.rootPage ==> |pages[p].rids| >= MinChildren(hdr.order) - 1)
    && (p == hdr.rootPage && !pages[p].isLeaf ==> |pages[p].rids| >= 1)
  }

  lemma LeafShrunk(was: Pages, pages: Pages, hdr: IndexHeader, sh: Shape, p: int)
    requires p in sh.ht && p in was && p in pages && |pages[p].rids| == |was[p].rids| - 1
    requires Sized(was, sh.ht, hdr, {}) && Typed(pages, sh.ht) && sh.ht[p] == 0
    ensures Underfull(pages, hdr, sh, p)
  {
    assert SizeOk(was, hdr, p) && NodeOk(pages, sh.ht, p);
  }

  lemma UnderfullSettled(pages: Pages, hdr: IndexHeader, sh: Shape, p: int)
    requires Sized(pages, sh.ht, hdr, {p}) && Underfull(pages, hdr, sh, p)
    requires |pages[p].rids| >= MinChildren(hdr.order) || p == hdr.rootPage
    requires p == hdr.rootPage && !pages[p].isLeaf ==> |pages[p].rids| >= 2
    ensures Sized(pages, sh.ht, hdr, {})
  {
    forall x | x in sh.ht ensures SizeOk(pages, hdr, x) { }
  }

  // ----- neighbours -----

  /** A neighbour of the page among the children of q has more children than it needs. */
  ghost predicate RichBrother(pages: Pages, hdr: IndexHeader, q: int, p: int) {
    q in pages && exists i: nat ::
      RankOf(pages, q, p, i) && (RichAt(pages, hdr, q, i - 1) || RichAt(pages, hdr, q, i + 1))
  }

  ghost predicate RankOf(pages: Pages, q: int, p: int, i: nat)
    requires q in pages
  {
    i < |pages[q].rids| && pages[q].rids[i].page == p
  }

  ghost predicate RichAt(pages: Pages, hdr: IndexHeader, q: int, i: int)
    requires q in pages
  {
    0 <= i < |pages[q].rids| && pages[q].rids[i].page in pages
      && |pages[pages[q].rids[i].page].rids| > MinChildren(hdr.order)
  }

  /** x and y are children i and i + 1 of q. */
  ghost predicate Neighbours(pages: Pages, ht: Heights, x: int, y: int, q: int, i: nat) {
    && NodeOk(pages, ht, x) && NodeOk(pages, ht, y) && NodeOk(pages, ht, q) && x != y
    && ht[x] == ht[y] && ht[q] == ht[x] + 1 && pages[x].parent == q && pages[y].parent == q
    && i + 1 < |pages[q].rids| && pages[q].rids[i] == RecordID(x, -1) && pages[q].rids[i + 1] == RecordID(y, -1)
  }

  lemma NeighbourPages(pages: Pages, hdr: IndexHeader, sh: Shape, q: int, i: nat)
    requires Tree(pages, hdr, sh) && NodeOk(pages, sh.ht, q) && sh.ht[q] > 0 && i + 1 < |pages[q].rids|
    ensures Neighbours(pages, sh.ht, pages[q].rids[i].page, pages[q].rids[i + 1].page, q, i)
  {
    assert ChildOk(pages, sh.ht, q, i) && ChildOk(pages, sh.ht, q, i + 1);
    ChildRankUnique(pages, hdr, sh.levels, sh.ht, q, i, i + 1);
  }

  // ----- borrowing -----

  lemma BorrowLeftStep(was: Pages, pages: Pages, ht: Heights, x: int, y: int, q: int, i: nat)
    requires Neighbours(was, ht, x, y, q, i) && |was[x].rids| > 0
    requires pages == was[y := was[y].(keys := InsertAt(was[y].keys, 0, [Last(was[x].keys)]),
      rids := InsertAt(was[y].rids, 0, [Last(was[x].rids)]))]
                         [x := was[x].(keys := RemoveAt(was[x].keys, |was[x].keys| - 1),
                           rids := RemoveAt(was[x].rids, |was[x].rids| - 1))]
    ensures BorrowStep(was, pages, ht, x, y, q, i, true)
  {
    var (kx, rx, ky, ry) := (was[x].keys, was[x].rids, was[y].keys, was[y].rids);
    assert InsertAt(ky, 0, [Last(kx)]) == [Last(kx)] + ky && InsertAt(ry, 0, [Last(rx)]) == [Last(rx)] + ry;
    assert RemoveAt(kx, |kx| - 1) == kx[..|kx| - 1] && RemoveAt(rx, |rx| - 1) == rx[..|rx| - 1];
  }

  lemma BorrowRightStep(was: Pages, pages: Pages, ht: Heights, x: int, y: int, q: int, i: nat)
    requires Neighbours(was, ht, x, y, q, i) && |was[y].rids| > 0
    requires pages == was[x := was[x].(keys := InsertAt(was[x].keys, |was[x].keys|, [was[y].keys[0]]),
                                       rids := InsertAt(was[x].rids, |was[x].rids|, [was[y].rids[0]]))]
                         [y := was[y].(keys := RemoveAt(was[y].keys, 0), rids := RemoveAt(was[y].rids, 0))]
    ensures BorrowStep(was, pages, ht, x, y, q, i, false)
  {
    var (kx, rx, ky, ry) := (was[x].keys, was[x].rids, was[y].keys, was[y].rids);
    assert InsertAt(kx, |kx|, [ky[0]]) == kx + [ky[0]] && InsertAt(rx, |rx|, [ry[0]]) == rx + [ry[0]];
    assert RemoveAt(ky, 0) == ky[1..] && RemoveAt(ry, 0) == ry[1..];
  }

  /** The state of a borrow just before maintain_parent runs. */
  lemma BorrowShape(was: Pages, pages: Pages, hdr: IndexHeader, sh: Shape, x: int, y: int, q: int, i: nat, left: bool)
    requires Tree(was, hdr, sh) && BorrowStep(was, pages, sh.ht, x, y, q, i, left)
    requires |was[x].keys| > 0 && |was[y].keys| > if left then 0 else 1
    ensures Shaped(pages, hdr, sh.levels, sh.ht, BorrowOrphans(was, sh.ht, x, y, left))
    ensures Keyed(pages, sh.ht, {x, q})
    ensures LeafKeys(pages, sh) == LeafKeys(was, sh) && LeafRids(pages, sh) == LeafRids(was, sh)
  {
    hide Regroup, Reparented, Rekeyed, MaxKept, Keyed, Partition, Ringed;
    BorrowReady(was, pages, hdr, sh, x, y, q, i, left);
    var levels', a, b := RegroupTree(was, pages, hdr, hdr, sh.levels, sh.ht, sh.ht, q, i, [x, y], [x, y],
                                     {x, q}, BorrowOrphans(was, sh.ht, x, y, left));
    assert levels' == sh.levels;
  }

  lemma BorrowReady(was: Pages, pages: Pages, hdr: IndexHeader, sh: Shape, x: int, y: int, q: int, i: nat, left: bool)
    requires Tree(was, hdr, sh) && BorrowStep(was, pages, sh.ht, x, y, q, i, left)
    requires |was[x].keys| > 0 && |was[y].keys| > if left then 0 else 1
    ensures Regroup(was, pages, sh.ht, sh.ht, q, i, [x, y], [x, y])
    ensures Reparented(was, pages, sh.ht, [x, y], [x, y], BorrowOrphans(was, sh.ht, x, y, left))
    ensures Keyed(was, sh.ht, {x, q}) && Rekeyed(was, pages, q, i, [x, y], [x, y], {x, q})
    ensures MaxKept(was, pages, q, {x, q})
  {
    BorrowRegroups(was, pages, sh.ht, x, y, q, i, left);
    BorrowReparents(was, pages, sh.ht, x, y, q, i, left);
    KeyedWeaken(was, sh.ht, {}, {x, q});
    BorrowRekeys(was, pages, sh.ht, x, y, q, i, left);
  }

  lemma BorrowRekeys(was: Pages, pages: Pages, ht: Heights, x: int, y: int, q: int, i: nat, left: bool)
    requires Typed(was, ht) && Keyed(was, ht, {}) && BorrowStep(was, pages, ht, x, y, q, i, left)
    requires |was[x].keys| > 0 && |was[y].keys| > if left then 0 else 1
    ensures q in pages && Rekeyed(was, pages, q, i, [x, y], [x, y], {x, q}) && MaxKept(was, pages, q, {x, q})
  {
    assert KeyOk(was, ht, q, i + 1, {});
    assert Last(pages[y].keys) == Last(was[y].keys);
  }

  lemma BorrowHeights(pages: Pages, ht: Heights, x: int, y: int, left: bool)
    requires Linked(pages, ht) && NodeOk(pages, ht, x) && NodeOk(pages, ht, y) && ht[x] == ht[y]
    requires if left then |pages[x].rids| > 0 else |pages[y].rids| > 0
    ensures forall c :: c in BorrowOrphans(pages, ht, x, y, left) ==> c in ht && c in pages && ht[c] + 1 == ht[x]
  {
    if ht[x] > 0 {
      if left { assert ChildOk(pages, ht, x, |pages[x].rids| - 1); } else { assert ChildOk(pages, ht, y, 0); }
    }
  }

  lemma ParentOnlyTree(pages: Pages, pages': Pages, hdr: IndexHeader, sh: Shape, c: int, y: int, except: set<int>)
    requires c in pages && pages' == pages[c := pages[c].(parent := y)]
    requires hdr.order > 2 && Shaped(pages', hdr, sh.levels, sh.ht) && Keyed(pages, sh.ht, {}) && Typed(pages, sh.ht)
    requires Ringed(pages, sh.levels[0], hdr) && Partition(pages, hdr, sh.ht.Keys, sh.free)
    requires Sized(pages, sh.ht, hdr, except)
    ensures Tree(pages', hdr, sh) && Sized(pages', sh.ht, hdr, except)
    ensures LeafKeys(pages', sh) == LeafKeys(pages, sh) && LeafRids(pages', sh) == LeafRids(pages, sh)
  {
    forall p, i | p in sh.ht && NodeOk(pages', sh.ht, p) && sh.ht[p] > 0 && 0 <= i < |pages'[p].rids|
      ensures KeyOk(pages', sh.ht, p, i, {})
    {
      assert NodeOk(pages, sh.ht, p) && KeyOk(pages, sh.ht, p, i, {});
    }
    RingFrame(pages, pages', sh.levels[0], hdr, hdr);
    PartitionFrame(pages, pages', hdr, hdr, sh.ht.Keys, sh.free);
    assert KeyMap(pages') == KeyMap(pages) && RidMap(pages') == RidMap(pages);
    forall p | p in sh.ht && p !in except ensures SizeOk(pages', hdr, p) { assert SizeOk(pages, hdr, p); }
  }

  /** A borrow leaves ring, free list and sizes in order. */
  lemma BorrowFrame(was: Pages, pages: Pages, hdr: IndexHeader, sh: Shape, x: int, y: int, q: int, i: nat, left: bool)
    requires Tree(was, hdr, sh) && BorrowStep(was, pages, sh.ht, x, y, q, i, left)
    requires Sized(was, sh.ht, hdr, {if left then y else x}) && x != hdr.rootPage && y != hdr.rootPage
    requires |was[if left then y else x].rids| == MinChildren(hdr.order) - 1
    requires |was[if left then x else y].rids| > MinChildren(hdr.order)
    ensures Ringed(pages, sh.levels[0], hdr) && Partition(pages, hdr, sh.ht.Keys, sh.free)
    ensures Sized(pages, sh.ht, hdr, {})
  {
    RingFrame(was, pages, sh.levels[0], hdr, hdr);
    PartitionFrame(was, pages, hdr, hdr, sh.ht.Keys, sh.free);
    assert SizeOk(was, hdr, if left then x else y);
    forall p | p in sh.ht ensures SizeOk(pages, hdr, p) {
      if p != x && p != y { assert SizeOk(was, hdr, p); }
    }
  }

  /** The state after the borrow, maintain_parent and maintain_child. */
  lemma BorrowFinish(was: Pages, p1: Pages, p2: Pages, p3: Pages, hdr: IndexHeader, sh: Shape,
                     x: int, y: int, q: int, i: nat, left: bool)
    requires Tree(was, hdr, sh) && BorrowStep(was, p1, sh.ht, x, y, q, i, left)
    requires Sized(was, sh.ht, hdr, {if left then y else x}) && x != hdr.rootPage && y != hdr.rootPage
    requires |was[if left then y else x].rids| == MinChildren(hdr.order) - 1
    requires |was[if left then x else y].rids| > MinChildren(hdr.order)
    requires |was[x].keys| > 0 && |was[y].keys| > if left then 0 else 1
    requires sh.ht[x] > 0 ==> MovedPage(was, x, y, left) in p2
    requires KeysOnly(p1, p2, sh.ht) && Keyed(p2, sh.ht, {})
    requires Shaped(p2, hdr, sh.levels, sh.ht, BorrowOrphans(was, sh.ht, x, y, left))
    requires p3 == if sh.ht[x] == 0 then p2
                   else var c := MovedPage(was, x, y, left); p2[c := p2[c].(parent := if left then y else x)]
    ensures WellFormed(p3, hdr, sh, {})
    ensures LeafKeys(p3, sh) == LeafKeys(was, sh) && LeafRids(p3, sh) == LeafRids(was, sh)
  {
    BorrowShape(was, p1, hdr, sh, x, y, q, i, left);
    BorrowFrame(was, p1, hdr, sh, x, y, q, i, left);
    KeysOnlySized(p1, p2, hdr, sh.ht, {});
    KeysOnlyContents(p1, p2, sh);
    RingFrame(p1, p2, sh.levels[0], hdr, hdr);
    PartitionFrame(p1, p2, hdr, hdr, sh.ht.Keys, sh.free);
    if sh.ht[x] > 0 {
      var c, n := MovedPage(was, x, y, left), if left then y else x;
      var k := if left then 0 else |p2[n].rids| - 1;
      AdoptShaped(p2, p3, hdr, sh.levels, sh.ht, n, k, c);
      ParentOnlyTree(p2, p3, hdr, sh, c, n, {});
    }
  }

  // ----- merging -----

  /** The state of a merge just before maintain_parent runs. */
  lemma MergeShape(was: Pages, pages: Pages, hdr: IndexHeader, sh: Shape, x: int, y: int, q: int, i: nat, keyAt: nat)
    returns (sh': Shape, a: seq<int>, b: seq<int>)
    requires Tree(was, hdr, sh) && MergeStep(was, pages, sh.ht, x, y, q, i, keyAt)
    ensures Shaped(pages, hdr, sh'.levels, sh'.ht) && Keyed(pages, sh'.ht, {x, q})
    ensures sh'.ht == sh.ht - {y} && sh'.free == sh.free
    ensures sh.ht[x] < |sh.levels| - 1 && sh.levels[sh.ht[x]] == a + [x, y] + b
    ensures sh'.levels == sh.levels[sh.ht[x] := a + [x] + b]
    ensures LeafKeys(pages, sh') == LeafKeys(was, sh) && LeafRids(pages, sh') == LeafRids(was, sh)
  {
    var ht' := sh.ht - {y};
    MergeRegroups(was, pages, sh.ht, x, y, q, i, keyAt);
    MergeReparents(was, pages, sh.ht, x, y, q, i, keyAt);
    KeyedWeaken(was, sh.ht, {}, {x, q});
    var levels', a', b' := RegroupTree(was, pages, hdr, hdr, sh.levels, sh.ht, ht', q, i, [x, y], [x], {x, q}, {});
    sh', a, b := Shape(levels', ht', sh.free), a', b';
  }

  /** The page map after the slots of y were appended to x and their children adopted. */
  ghost predicate Appended(was: Pages, mid: Pages, x: int, y: int) {
    && x in was && y in was && x != y && mid.Keys == was.Keys
    && mid[x] == was[x].(keys := was[x].keys + was[y].keys, rids := was[x].rids + was[y].rids)
    && (forall z :: z in mid && z != x ==>
          mid[z] == was[z].(parent := if !was[y].isLeaf && z in PagesOf(was[y].rids) then x else was[z].parent))
  }

  lemma MergeAssembled(was: Pages, mid: Pages, pages: Pages, hdr: IndexHeader, sh: Shape, x: int, y: int, q: int,
                       i: nat, keyAt: nat)
    requires Tree(was, hdr, sh) && Neighbours(was, sh.ht, x, y, q, i) && Appended(was, mid, x, y)
    requires (keyAt == i || keyAt == i + 1) && q in mid && keyAt < |mid[q].keys| && i + 1 < |mid[q].rids|
    requires pages == mid[q := mid[q].(keys := RemoveAt(mid[q].keys, keyAt), rids := RemoveAt(mid[q].rids, i + 1))]
    ensures MergeStep(was, pages, sh.ht, x, y, q, i, keyAt) && SameLinksAll(was, pages)
    ensures forall z :: z in was ==> z in pages && pages[z].nextFree == was[z].nextFree
    ensures y in pages && pages[y].isLeaf == was[y].isLeaf
  {
    if sh.ht[y] > 0 {
      KidsHeight(was, sh.ht, y, 0);
      assert was[y].rids[0..] == was[y].rids;
    }
    assert sh.ht[y] > 0 ==> q !in PagesOf(was[y].rids);
  }

  lemma AppendKids(was: Pages, hdr: IndexHeader, sh: Shape, x: int, y: int, q: int, i: nat)
    requires Tree(was, hdr, sh) && Neighbours(was, sh.ht, x, y, q, i)
    ensures !was[y].isLeaf ==> forall c :: c in PagesOf(was[y].rids) ==> c in was && c != x && c != y
  {
    if sh.ht[y] > 0 {
      KidsHeight(was, sh.ht, y, 0);
      assert was[y].rids[0..] == was[y].rids;
      forall c | c in PagesOf(was[y].rids) ensures c in was { assert NodeOk(was, sh.ht, c); }
    }
  }

  lemma MergeSized(was: Pages, pages: Pages, hdr: IndexHeader, sh: Shape, x: int, y: int, q: int, i: nat, keyAt: nat,
                   short: int)
    requires Tree(was, hdr, sh) && MergeStep(was, pages, sh.ht, x, y, q, i, keyAt)
    requires Sized(was, sh.ht, hdr, {short}) && (short == x || short == y) && x != hdr.rootPage && y != hdr.rootPage
    requires |was[short].rids| == MinChildren(hdr.order) - 1
    requires |was[if short == x then y else x].rids| <= MinChildren(hdr.order)
    ensures Sized(pages, sh.ht - {y}, hdr, {q})
    ensures q in was && SizeOk(was, hdr, q) && |pages[q].rids| == |was[q].rids| - 1
  {
    MergeRegroups(was, pages, sh.ht, x, y, q, i, keyAt);
    assert SizeOk(was, hdr, if short == x then y else x) && SizeOk(was, hdr, q);
    assert SizeOk(pages, hdr, x);
    RegroupSized(was, pages, hdr, hdr, sh.ht, sh.ht - {y}, q, i, [x, y], [x], {short}, {q});
  }

  ghost predicate LinksOnly(pages: Pages, pages': Pages) {
    && pages'.Keys == pages.Keys
    && (forall z :: z in pages ==>
        pages'[z] == pages[z].(nextLeaf := pages'[z].nextLeaf, prevLeaf := pages'[z].prevLeaf))
  }

  lemma LinksOnlyTree(pages: Pages, pages': Pages, hdr: IndexHeader, hdr': IndexHeader, sh: Shape, except: set<int>)
    requires Shaped(pages, hdr, sh.levels, sh.ht) && Keyed(pages, sh.ht, {}) && Sized(pages, sh.ht, hdr, except)
    requires LinksOnly(pages, pages') && hdr'.rootPage == hdr.rootPage && hdr'.order == hdr.order
    ensures Shaped(pages', hdr', sh.levels, sh.ht) && Keyed(pages', sh.ht, {}) && Sized(pages', sh.ht, hdr', except)
    ensures LeafKeys(pages', sh) == LeafKeys(pages, sh) && LeafRids(pages', sh) == LeafRids(pages, sh)
  {
    SameMaps(pages, pages');
    forall p | p in sh.ht ensures NodeOk(pages', sh.ht, p) { assert NodeOk(pages, sh.ht, p); }
    forall p, i | p in sh.ht && NodeOk(pages', sh.ht, p) && sh.ht[p] > 0 && 0 <= i < |pages'[p].rids|
      ensures ChildOk(pages', sh.ht, p, i) && KeyOk(pages', sh.ht, p, i, {})
    {
      assert NodeOk(pages, sh.ht, p) && ChildOk(pages, sh.ht, p, i) && KeyOk(pages, sh.ht, p, i, {});
    }
    forall p | p in sh.ht && p !in except ensures SizeOk(pages', hdr', p) { assert SizeOk(pages, hdr, p); }
  }

  lemma SameMaps(pages: Pages, pages': Pages)
    requires LinksOnly(pages, pages')
    ensures KeyMap(pages') == KeyMap(pages) && RidMap(pages') == RidMap(pages)
  {
    forall p | p in pages ensures p in pages' && pages'[p].rids == pages[p].rids && pages'[p].keys == pages[p].keys { }
    assert KeyMap(pages').Keys == KeyMap(pages).Keys && RidMap(pages').Keys == RidMap(pages).Keys;
  }

  /** The ring of the leaves once y is gone. */
  lemma MergeRing(was: Pages, p1: Pages, p2: Pages, p3: Pages, hdr: IndexHeader, hdr': IndexHeader, sh: Shape,
                  sh': Shape,
                  a: seq<int>, b: seq<int>, x: int, y: int)
    requires Tree(was, hdr, sh) && NodeOk(was, sh.ht, x) && sh.ht[x] < |sh.levels| && y in sh.ht && sh.ht[y] == sh.ht[x]
    requires sh.levels[sh.ht[x]] == a + [x, y] + b && sh'.levels == sh.levels[sh.ht[x] := a + [x] + b]
    requires SameLinksAll(was, p1) && SameLinksAll(p1, p2)
    requires if sh.ht[x] == 0 then Unlinked(p2, p3, x, y) else p3 == p2
    requires hdr'.firstLeaf == hdr.firstLeaf && hdr'.lastLeaf == if hdr.lastLeaf == y then x else hdr.lastLeaf
    ensures Ringed(p3, sh'.levels[0], hdr')
  {
    LiveAboveHeader(was, sh);
    RingFrame(was, p1, sh.levels[0], hdr, hdr);
    RingFrame(p1, p2, sh.levels[0], hdr, hdr);
    if sh.ht[x] == 0 {
      RingUnlink(p2, p3, a, x, y, b, hdr, hdr');
    } else {
      assert hdr.lastLeaf in sh.levels[0];
      RingFrame(p2, p3, sh.levels[0], hdr, hdr');
    }
  }

  ghost predicate SameLinksAll(pages: Pages, pages': Pages) {
    forall p :: p in pages ==>
      p in pages' && pages'[p].nextLeaf == pages[p].nextLeaf && pages'[p].prevLeaf == pages[p].prevLeaf
  }

  /** In the ring, neighbours x and y among the leaves point at each other. */
  lemma MergeLinks(was: Pages, hdr: IndexHeader, sh: Shape, a: seq<int>, b: seq<int>, x: int, y: int)
    requires Tree(was, hdr, sh) && sh.levels[0] == a + [x, y] + b
    ensures x in was && y in was && was[y].prevLeaf == x && was[y].nextLeaf in was && was[y].nextLeaf != y
    ensures was[y].nextLeaf != x
  {
    var leaves := sh.levels[0];
    assert leaves[|a|] == x && leaves[|a| + 1] == y;
    RingNext(was, leaves, hdr, |a|);
    RingNext(was, leaves, hdr, |a| + 1);
    LiveAboveHeader(was, sh);
    assert x in leaves && y in leaves;
    if |a| + 2 < |leaves| {
      var n := leaves[|a| + 2];
      assert n in leaves && n in sh.ht && NodeOk(was, sh.ht, n);
      NoDupAt(leaves, |a|, |a| + 2);
      NoDupAt(leaves, |a| + 1, |a| + 2);
    }
  }

  /** Overwriting a page that is no longer live changes nothing. */
  lemma DeadPageTree(pages: Pages, pages': Pages, hdr: IndexHeader, hdr': IndexHeader, sh: Shape, sh': Shape, y: int,
                     except: set<int>)
    requires Shaped(pages, hdr, sh.levels, sh.ht) && Keyed(pages, sh.ht, {}) && Sized(pages, sh.ht, hdr, except)
    requires Ringed(pages, sh.levels[0], hdr) && y !in sh.ht && y != LEAF_HEADER_PAGE && y in pages'
    requires pages' == pages[y := pages'[y]]
    requires hdr' == hdr.(firstFree := hdr'.firstFree) && sh' == sh.(free := sh'.free)
    ensures Shaped(pages', hdr', sh'.levels, sh'.ht) && Keyed(pages', sh'.ht, {}) && Sized(pages', sh'.ht, hdr', except)
    ensures Ringed(pages', sh'.levels[0], hdr')
    ensures LeafKeys(pages', sh') == LeafKeys(pages, sh) && LeafRids(pages', sh') == LeafRids(pages, sh)
  {
    forall p | p in sh.ht ensures NodeOk(pages', sh.ht, p) { assert NodeOk(pages, sh.ht, p); }
    forall p, i | p in sh.ht && NodeOk(pages', sh.ht, p) && sh.ht[p] > 0 && 0 <= i < |pages'[p].rids|
      ensures ChildOk(pages', sh.ht, p, i) && KeyOk(pages', sh.ht, p, i, {})
    {
      assert NodeOk(pages, sh.ht, p) && ChildOk(pages, sh.ht, p, i) && KeyOk(pages, sh.ht, p, i, {});
    }
    forall p | p in sh.ht && p !in except ensures SizeOk(pages', hdr', p) { assert SizeOk(pages, hdr, p); }
    DeadPageJoins(pages, pages', sh, y);
    RootHeight(pages, hdr, sh.levels, sh.ht);
    assert y !in sh.levels[0];
    RingFrame(pages, pages', sh.levels[0], hdr, hdr');
  }

  lemma DeadPageJoins(pages: Pages, pages': Pages, sh: Shape, y: int)
    requires Typed(pages, sh.ht) && Levelled(sh.levels, sh.ht) && Stacked(RidMap(pages), sh.levels)
    requires y !in sh.ht && y in pages' && pages' == pages[y := pages'[y]]
    ensures Stacked(RidMap(pages'), sh.levels)
    ensures LeafKeys(pages', sh) == LeafKeys(pages, sh) && LeafRids(pages', sh) == LeafRids(pages, sh)
  {
    forall l | 0 <= l < |sh.levels|
      ensures Join(RidMap(pages'), sh.levels[l]) == Join(RidMap(pages), sh.levels[l])
      ensures Join(KeyMap(pages'), sh.levels[l]) == Join(KeyMap(pages), sh.levels[l])
    {
      forall p | p in sh.levels[l] ensures p in pages && p in pages' && pages'[p] == pages[p] {
        assert p in sh.ht && NodeOk(pages, sh.ht, p);
      }
      JoinFrame(RidMap(pages), RidMap(pages'), sh.levels[l]);
      JoinFrame(KeyMap(pages), KeyMap(pages'), sh.levels[l]);
    }
    forall l | 1 <= l < |sh.levels|
      ensures Stack(RidMap(pages'), sh.levels, l)
    {
      assert Stack(RidMap(pages), sh.levels, l);
    }
  }

  /** What the end of a merge relies on. */
  lemma MergeReady(was: Pages, p1: Pages, p2: Pages, hdr: IndexHeader, sh: Shape, sh1: Shape, a: seq<int>,
                   b: seq<int>, x: int, y: int)
    requires Tree(was, hdr, sh) && NodeOk(was, sh.ht, x) && NodeOk(was, sh.ht, y) && sh.ht[y] == sh.ht[x] < |sh.levels|
    requires sh.levels[sh.ht[x]] == a + [x, y] + b && SameLinksAll(was, p1) && sh1.free == sh.free
    requires forall z :: z in was ==> z in p1 && p1[z].nextFree == was[z].nextFree
    requires KeysOnly(p1, p2, sh1.ht) && y in p1 && p1[y].isLeaf == was[y].isLeaf
    ensures y in p2 && p2[y].isLeaf == (sh.ht[x] == 0) && y in sh.ht.Keys && Partition(p2, hdr, sh.ht.Keys, sh.free)
    ensures p2[y].isLeaf ==> p2[y].prevLeaf == x && x in p2 && x != y && p2[y].nextLeaf in p2 && p2[y].nextLeaf != y
  {
    PartitionFrame(was, p2, hdr, hdr, sh.ht.Keys, sh.free);
    if was[y].isLeaf {
      MergeLinks(was, hdr, sh, a, b, x, y);
      assert (a + [x, y] + b)[|a|] == x && (a + [x, y] + b)[|a| + 1] == y;
      NoDupAt(sh.levels[0], |a|, |a| + 1);
    }
  }

  /** The states of a merge after maintain_parent (p2), erase_leaf (p3) and release_node (p4). */
  lemma MergeFinish(was: Pages, p1: Pages, p2: Pages, p3: Pages, p4: Pages,
                    hdr: IndexHeader, hdr3: IndexHeader, hdr4: IndexHeader, sh: Shape, sh1: Shape, sh4: Shape,
                    a: seq<int>, b: seq<int>, x: int, y: int, q: int)
    requires Tree(was, hdr, sh) && NodeOk(was, sh.ht, x) && NodeOk(was, sh.ht, y) && sh.ht[y] == sh.ht[x] < |sh.levels|
    requires sh.levels[sh.ht[x]] == a + [x, y] + b && sh1.levels == sh.levels[sh.ht[x] := a + [x] + b]
    requires sh1.ht == sh.ht - {y}
    requires SameLinksAll(was, p1) && Sized(p1, sh1.ht, hdr, {q})
    requires LeafKeys(p1, sh1) == LeafKeys(was, sh) && LeafRids(p1, sh1) == LeafRids(was, sh)
    requires Typed(p1, sh1.ht) && Levelled(sh1.levels, sh1.ht)
    requires KeysOnly(p1, p2, sh1.ht) && Keyed(p2, sh1.ht, {}) && Shaped(p2, hdr, sh1.levels, sh1.ht)
    requires LinksOnly(p2, p3) && if sh.ht[x] == 0 then Unlinked(p2, p3, x, y) else p3 == p2
    requires hdr3 == hdr.(lastLeaf := if hdr.lastLeaf == y then x else hdr.lastLeaf)
    requires y in p4 && p4 == p3[y := p4[y]] && hdr4 == hdr3.(firstFree := hdr4.firstFree)
    requires sh4 == sh1.(free := sh4.free)
    requires Partition(p4, hdr4, sh.ht.Keys - {y}, sh4.free)
    ensures Tree(p4, hdr4, sh4) && Sized(p4, sh4.ht, hdr4, {q})
    ensures LeafKeys(p4, sh4) == LeafKeys(was, sh) && LeafRids(p4, sh4) == LeafRids(was, sh)
  {
    KeysOnlySized(p1, p2, hdr, sh1.ht, {q});
    KeysOnlyContents(p1, p2, sh1);
    LinksOnlyTree(p2, p3, hdr, hdr3, sh1, {q});
    MergeRing(was, p1, p2, p3, hdr, hdr3, sh, sh1, a, b, x, y);
    DeadPageTree(p3, p4, hdr3, hdr4, sh1, sh4, y, {q});
    assert sh4.ht.Keys == sh.ht.Keys - {y};
  }

  /** Dropping a root that has one child left. */
  lemma ShrinkTree(was: Pages, pages: Pages, hdr: IndexHeader, hdr': IndexHeader, sh: Shape, free: seq<int>, r: int,
                   c: int)
    returns (sh': Shape)
    requires Tree(was, hdr, sh) && r == hdr.rootPage && ShrinkStep(was, pages, sh.ht, r, c)
    requires Sized(was, sh.ht, hdr, {r})
    requires hdr' == hdr.(rootPage := c, firstFree := hdr'.firstFree)
    requires Partition(pages, hdr', sh.ht.Keys - {r}, free)
    ensures WellFormed(pages, hdr', sh', {}) && sh'.free == free && sh'.ht == sh.ht - {r}
    ensures LeafKeys(pages, sh') == LeafKeys(was, sh) && LeafRids(pages, sh') == LeafRids(was, sh)
  {
    ShrinkShaped(was, pages, hdr, hdr', sh.levels, sh.ht, r, c);
    ShrinkKeyed(was, pages, sh.ht, r, c);
    ShrinkFrame(was, pages, hdr, hdr', sh, r, c);
    sh' := Shape(sh.levels[..|sh.levels| - 1], sh.ht - {r}, free);
    assert sh'.ht.Keys == sh.ht.Keys - {r};
  }

  lemma RootChild(pages: Pages, hdr: IndexHeader, sh: Shape, r: int)
    requires Tree(pages, hdr, sh) && r in sh.ht && r in pages && !pages[r].isLeaf && |pages[r].rids| == 1
    ensures NodeOk(pages, sh.ht, r) && sh.ht[r] > 0
    ensures pages[r].rids[0].page in pages && pages[r].rids[0].page != r
  {
    assert NodeOk(pages, sh.ht, r);
    assert ChildOk(pages, sh.ht, r, 0);
  }

  /** What the underflow loop knows about the neighbours of the short page. */
  lemma UnderflowFacts(pages: Pages, hdr: IndexHeader, sh: Shape, node: int, q: int, i: nat)
    requires Tree(pages, hdr, sh) && Sized(pages, sh.ht, hdr, {node}) && Underfull(pages, hdr, sh, node)
    requires node != hdr.rootPage && NodeOk(pages, sh.ht, q) && sh.ht[q] == sh.ht[node] + 1
    requires i < |pages[q].rids| && pages[q].rids[i].page == node
    ensures |pages[q].rids| >= 2 && sh.ht[q] < |sh.levels|
    ensures i > 0 ==> var b := pages[q].rids[i - 1].page;
                      Neighbours(pages, sh.ht, b, node, q, i - 1) && b != hdr.rootPage
                        && |pages[b].rids| >= MinChildren(hdr.order)
    ensures i + 1 < |pages[q].rids| ==> var b := pages[q].rids[i + 1].page;
                      Neighbours(pages, sh.ht, node, b, q, i) && b != hdr.rootPage
                        && |pages[b].rids| >= MinChildren(hdr.order)
  {
    RootHeight(pages, hdr, sh.levels, sh.ht);
    assert SizeOk(pages, hdr, q);
    if i > 0 {
      NeighbourPages(pages, hdr, sh, q, i - 1);
      assert SizeOk(pages, hdr, pages[q].rids[i - 1].page);
    }
    if i + 1 < |pages[q].rids| {
      NeighbourPages(pages, hdr, sh, q, i);
      assert SizeOk(pages, hdr, pages[q].rids[i + 1].page);
    }
  }

  // ----- scanning -----

  /** Is e an entry that delete_entry may take: equal key, same record id. */
  predicate Matches(o: KeyOrd, e: Entry, key: Key, rid: RecordID) {
    o.cmp(key, e.key) == 0 && e.rid == rid
  }

  /** The index of the first matching entry; the length when there is none. */
  function MatchIndex(o: KeyOrd, es: seq<Entry>, key: Key, rid: RecordID): (r: nat)
    ensures r <= |es|
    ensures r < |es| ==> Matches(o, es[r], key, rid)
    ensures forall k :: 0 <= k < r ==> !Matches(o, es[k], key, rid)
  {
    if es == [] || Matches(o, es[0], key, rid) then 0 else 1 + MatchIndex(o, es[1..], key, rid)
  }

  /** Entries outside the range between lower and upper bound do not compare equal, those inside do. */
  lemma {:induction false} EqualRange(o: KeyOrd, es: seq<Entry>, key: Key)
    requires Lawful(o) && o.valid(key) && Sorted(o, EntryKeys(es))
    ensures forall k :: 0 <= k < |es| ==>
      (o.cmp(key, es[k].key) == 0 <==> CutIndex(o, false, key, EntryKeys(es)) <= k < CutIndex(o, true, key,
        EntryKeys(es)))
  {
    var ks := EntryKeys(es);
    CutIndexIsCut(o, false, key, ks);
    CutIndexIsCut(o, true, key, ks);
    forall k | 0 <= k < |es|
      ensures o.cmp(key, es[k].key) == 0 <==> CutIndex(o, false, key, ks) <= k < CutIndex(o, true, key, ks)
    {
      assert ks[k] == es[k].key;
    }
  }

  /** A scan of the equal range that stops at the first matching record id stops at the first match of all. */
  lemma {:induction false} ScanResult(o: KeyOrd, es: seq<Entry>, key: Key, rid: RecordID, lo: nat, hi: nat, g: nat)
    requires Lawful(o) && o.valid(key) && Sorted(o, EntryKeys(es)) && lo <= g <= hi <= |es|
    requires lo == CutIndex(o, false, key, EntryKeys(es)) && hi == CutIndex(o, true, key, EntryKeys(es))
    requires forall k :: lo <= k < g ==> es[k].rid != rid
    requires g < hi ==> es[g].rid == rid
    ensures MatchIndex(o, es, key, rid) == if g < hi then g else |es|
  {
    EqualRange(o, es, key);
    if g < hi { assert Matches(o, es[g], key, rid); }
    forall k | 0 <= k < g ensures !Matches(o, es[k], key, rid) { }
  }

  lemma ContentsKeys(pages: Pages, hdr: IndexHeader, sh: Shape)
    requires WellFormed(pages, hdr, sh, {})
    ensures |LeafKeys(pages, sh)| == |LeafRids(pages, sh)|
    ensures EntryKeys(Zip(LeafKeys(pages, sh), LeafRids(pages, sh))) == LeafKeys(pages, sh)
  {
    ContentsAgree(pages, hdr, sh);
  }

  lemma {:induction false} LocatedRid(pages: Pages, hdr: IndexHeader, sh: Shape, g: nat)
    requires WellFormed(pages, hdr, sh, {}) && g <= |LeafKeys(pages, sh)|
    ensures var (p, s) := Locate(KeyMap(pages), sh.levels[0], g);
            p in pages && |pages[p].keys| == |pages[p].rids| && (s < |pages[p].keys| <==> g < |LeafKeys(pages, sh)|)
            && (g < |LeafKeys(pages, sh)| ==> g < |LeafRids(pages, sh)| && pages[p].rids[s] == LeafRids(pages, sh)[g])
  {
    var leaves := sh.levels[0];
    LocatedLeaf(pages, hdr, sh, g);
    forall x | x in leaves ensures x in sh.ht { }
    LevelAgree(pages, sh.ht, leaves, g);
    if g < |LeafKeys(pages, sh)| {
      LocateLookup(RidMap(pages), leaves, g);
    } else {
      LocateEnd(KeyMap(pages), leaves);
    }
  }

  lemma {:induction false} LocateInjective<T>(m: map<int, seq<T>>, ps: seq<int>, g: nat, h: nat)
    requires ps != [] && AllIn(m, ps) && NoDup(ps) && g <= |Join(m, ps)| && h <= |Join(m, ps)|
    requires Locate(m, ps, g) == Locate(m, ps, h)
    ensures g == h
  {
    AllInTail(m, ps);
    NoDupHead(ps);
    if |ps| > 1 {
      var n := |m[ps[0]]|;
      if g >= n { EndSlot(m, ps[1..], g - n); }
      if h >= n { EndSlot(m, ps[1..], h - n); }
      if g >= n && h >= n { LocateInjective(m, ps[1..], g - n, h - n); }
    }
  }

  /** Where the element after a located one is: in the next slot, or first in the next page. */
  lemma {:induction false} LocateNext<T>(m: map<int, seq<T>>, ps: seq<int>, g: nat) returns (j: nat)
    requires ps != [] && AllIn(m, ps) && g < |Join(m, ps)|
    requires forall k :: 1 <= k < |ps| && ps[k] in m ==> m[ps[k]] != []
    ensures j < |ps| && ps[j] == Locate(m, ps, g).0 && ps[j] in m
    ensures var s := Locate(m, ps, g).1;
            Locate(m, ps, g + 1) == if s + 1 < |m[ps[j]]| || j + 1 == |ps| then (ps[j], s + 1) else (ps[j + 1], 0)
  {
    AllInTail(m, ps);
    if |ps| == 1 || g < |m[ps[0]]| {
      j := 0;
      if |ps| > 1 && g + 1 == |m[ps[0]]| { AllInTail(m, ps[1..]); assert ps[1] in m; }
    } else {
      forall k | 1 <= k < |ps[1..]| && ps[1..][k] in m ensures m[ps[1..][k]] != [] { assert ps[1..][k] == ps[k + 1]; }
      var j' := LocateNext(m, ps[1..], g - |m[ps[0]]|);
      j := j' + 1;
    }
  }

  lemma NextLocated(pages: Pages, hdr: IndexHeader, sh: Shape, g: nat) returns (j: nat)
    requires WellFormed(pages, hdr, sh, {}) && g < |LeafKeys(pages, sh)|
    ensures j < |sh.levels[0]| && sh.levels[0][j] in pages
    ensures sh.levels[0][j] == Locate(KeyMap(pages), sh.levels[0], g).0
    ensures var (p, s) := Locate(KeyMap(pages), sh.levels[0], g);
            Locate(KeyMap(pages), sh.levels[0], g + 1) ==
              if s + 1 < |pages[p].keys| then (p, s + 1)
              else if pages[p].nextLeaf == LEAF_HEADER_PAGE || pages[p].nextLeaf == NO_PAGE
                   then Locate(KeyMap(pages), sh.levels[0], |LeafKeys(pages, sh)|)
              else (pages[p].nextLeaf, 0)
  {
    var leaves, km := sh.levels[0], KeyMap(pages);
    forall x | x in leaves ensures x in km { assert x in sh.ht && NodeOk(pages, sh.ht, x); }
    forall k | 1 <= k < |leaves| && leaves[k] in km
      ensures km[leaves[k]] != []
    {
      LaterLeafNonEmpty(pages, hdr, sh, k);
    }
    j := LocateNext(km, leaves, g);
    RingNext(pages, leaves, hdr, j);
    LiveAboveHeader(pages, sh);
    LocateEnd(km, leaves);
    LocatedLeaf(pages, hdr, sh, g);
    if j + 1 < |leaves| {
      var n := leaves[j + 1];
      assert n in leaves && n in sh.ht;
    } else {
      var s := Locate(km, leaves, g).1;
      if s + 1 >= |km[leaves[j]]| { EndSlot(km, leaves, g + 1); }
    }
  }

  lemma LaterLeafNonEmpty(pages: Pages, hdr: IndexHeader, sh: Shape, k: nat)
    requires WellFormed(pages, hdr, sh, {}) && 1 <= k < |sh.levels[0]|
    ensures sh.levels[0][k] in pages && pages[sh.levels[0][k]].keys != []
  {
    assert |sh.levels[|sh.levels| - 1]| == 1;
    LevelNonEmpty(pages, hdr, sh, 0);
    var x := sh.levels[0][k];
    assert x in sh.levels[0];
  }
}
