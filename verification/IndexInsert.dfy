/** What a search needs of the node pages, and what the steps of insert_entry keep. */
module IndexInsert {
  import opened Common
  import opened Seqs
  import opened KeyOrder
  import opened IndexPages
  import opened IndexRegroup
  import opened IndexLinks
  import opened IndexSearch
  import opened IndexSteps

  /** The keys of every node of a sorted tree are sorted. */
  lemma NodeSorted(o: KeyOrd, pages: Pages, hdr: IndexHeader, sh: Shape, p: int)
    requires WellFormed(pages, hdr, sh, {}) && Sorted(o, LeafKeys(pages, sh)) && p in sh.ht
    ensures p in pages && Sorted(o, pages[p].keys)
  {
    var l := sh.ht[p];
    var km := KeyMap(pages);
    assert NodeOk(pages, sh.ht, p) && p in sh.levels[l];
    LevelSorted(o, pages, hdr, sh, l);
    var u, v := SplitAround(sh.levels[l], p);
    JoinAround(km, u, p, v);
    var a, s := Join(km, u), Join(km, sh.levels[l]);
    SortedTail(o, s, |a|);
    SortedTail(o, s[|a|..], |pages[p].keys|);
    assert s[|a|..][..|pages[p].keys|] == pages[p].keys;
  }

  lemma ContentsAgree(pages: Pages, hdr: IndexHeader, sh: Shape)
    requires WellFormed(pages, hdr, sh, {})
    ensures |LeafKeys(pages, sh)| == |LeafRids(pages, sh)|
  {
    forall p | p in sh.levels[0] ensures p in sh.ht { }
    LevelAgree(pages, sh.ht, sh.levels[0], 0);
  }

  lemma RootOnPath(o: KeyOrd, upper: bool, t: Key, pages: Pages, hdr: IndexHeader, sh: Shape)
    requires Shaped(pages, hdr, sh.levels, sh.ht)
    ensures hdr.rootPage in sh.ht && sh.ht[hdr.rootPage] == |sh.levels| - 1
    ensures hdr.rootPage in sh.levels[|sh.levels| - 1]
    ensures OnPath(o, upper, t, pages, sh, |sh.levels| - 1, hdr.rootPage)
  {
    RootHeight(pages, hdr, sh.levels, sh.ht);
    JoinOne(KeyMap(pages), hdr.rootPage);
  }

  /** On the path, a cut past the last key of the node is a cut past the whole leaf sequence. */
  lemma {:induction false} PathEnd(o: KeyOrd, upper: bool, t: Key, pages: Pages, hdr: IndexHeader, sh: Shape, l: nat,
                                   p: int)
    requires Lawful(o) && o.valid(t)
    requires WellFormed(pages, hdr, sh, {}) && Sorted(o, LeafKeys(pages, sh)) && l < |sh.levels|
    requires OnPath(o, upper, t, pages, sh, l, p) && CutIndex(o, upper, t, pages[p].keys) >= |pages[p].keys|
    ensures CutIndex(o, upper, t, LeafKeys(pages, sh)) == |LeafKeys(pages, sh)|
    ensures p == Last(sh.levels[l])
  {
    var km := KeyMap(pages);
    forall x | x in sh.levels[l] ensures x in km { assert x in sh.ht && NodeOk(pages, sh.ht, x); }
    EndSlot(km, sh.levels[l], CutIndex(o, upper, t, Join(km, sh.levels[l])));
    EndOfLevels(o, upper, t, pages, hdr, sh, l);
  }

  /** One iteration of maintain_parent. */
  lemma KeySetStep(before: Pages, after: Pages, start: Pages, hdr: IndexHeader, sh: Shape, q: int, rank: nat,
                   curr: int, orphans: set<int>)
    requires Shaped(before, hdr, sh.levels, sh.ht, orphans) && KeysOnly(start, before, sh.ht)
    requires curr in sh.ht && curr in before && curr != hdr.rootPage && curr !in orphans && before[curr].keys != []
    requires q == before[curr].parent && Keyed(before, sh.ht, {curr, q})
    requires q in before && rank < |before[q].rids| && rank < |before[q].keys| && before[q].rids[rank].page == curr
    requires after == before[q := before[q].(keys := before[q].keys[rank := Last(before[curr].keys)])]
    ensures Shaped(after, hdr, sh.levels, sh.ht, orphans) && KeysOnly(start, after, sh.ht)
    ensures Keyed(after, sh.ht, {q, after[q].parent})
  {
    var i := ParentOf(before, hdr, sh.levels, sh.ht, curr, orphans);
    forall k | 0 <= k < |before[q].rids| && k != rank ensures before[q].rids[k].page != curr {
      if k < rank { ChildRankUnique(before, hdr, sh.levels, sh.ht, q, k, rank, orphans); }
      else { ChildRankUnique(before, hdr, sh.levels, sh.ht, q, rank, k, orphans); }
    }
    KeySetKeyed(before, after, sh.ht, q, rank, curr, orphans);
    KeysOnlyShaped(before, after, hdr, sh.levels, sh.ht, orphans);
    KeyedWeaken(after, sh.ht, {q}, {q, after[q].parent});
  }

  /** Putting an entry at a located slot of a leaf puts it at the located index of the leaf sequence. */
  lemma {:induction false} LeafInsertContents(pages: Pages, pages': Pages, sh: Shape, g: nat, p: int, slot: nat,
                                              key: Key, rid: RecordID)
    requires Typed(pages, sh.ht) && Levelled(sh.levels, sh.ht) && sh.levels[0] != []
    requires g <= |LeafKeys(pages, sh)| && (p, slot) == Locate(KeyMap(pages), sh.levels[0], g)
    requires p in pages && slot <= |pages[p].keys| && slot <= |pages[p].rids|
    requires pages' == pages[p := pages[p].(keys := InsertAt(pages[p].keys, slot, [key]),
      rids := InsertAt(pages[p].rids, slot, [rid]))]
    ensures LeafKeys(pages', sh) == InsertAt(LeafKeys(pages, sh), g, [key])
    ensures g <= |LeafRids(pages, sh)| && LeafRids(pages', sh) == InsertAt(LeafRids(pages, sh), g, [rid])
  {
    var km, rm, leaves := KeyMap(pages), RidMap(pages), sh.levels[0];
    forall x | x in leaves ensures x in sh.ht { }
    LevelAgree(pages, sh.ht, leaves, g);
    JoinInsert(km, leaves, g, key);
    JoinInsert(rm, leaves, g, rid);
    assert KeyMap(pages') == km[p := InsertAt(km[p], slot, [key])];
    assert RidMap(pages') == rm[p := InsertAt(rm[p], slot, [rid])];
  }

  lemma {:induction false} LeafRemoveContents(pages: Pages, pages': Pages, sh: Shape, g: nat, p: int, slot: nat)
    requires Typed(pages, sh.ht) && Levelled(sh.levels, sh.ht) && sh.levels[0] != []
    requires g < |LeafKeys(pages, sh)| && (p, slot) == Locate(KeyMap(pages), sh.levels[0], g)
    requires p in pages && slot < |pages[p].keys| && slot < |pages[p].rids|
    requires pages' == pages[p := pages[p].(keys := RemoveAt(pages[p].keys, slot),
      rids := RemoveAt(pages[p].rids, slot))]
    ensures LeafKeys(pages', sh) == RemoveAt(LeafKeys(pages, sh), g)
    ensures g < |LeafRids(pages, sh)| && LeafRids(pages', sh) == RemoveAt(LeafRids(pages, sh), g)
  {
    var km, rm, leaves := KeyMap(pages), RidMap(pages), sh.levels[0];
    forall x | x in leaves ensures x in sh.ht { }
    LevelAgree(pages, sh.ht, leaves, g);
    JoinRemove(km, leaves, g);
    JoinRemove(rm, leaves, g);
    assert KeyMap(pages') == km[p := RemoveAt(km[p], slot)];
    assert RidMap(pages') == rm[p := RemoveAt(rm[p], slot)];
  }

  /** A located slot names a leaf; a slot past its last key only occurs at the very end, in the last leaf. */
  lemma {:induction false} LocatedLeaf(pages: Pages, hdr: IndexHeader, sh: Shape, g: nat)
    requires Tree(pages, hdr, sh) && g <= |LeafKeys(pages, sh)|
    ensures var (p, s) := Locate(KeyMap(pages), sh.levels[0], g);
            NodeOk(pages, sh.ht, p) && sh.ht[p] == 0 && s <= |pages[p].keys| == |pages[p].rids|
            && (s == |pages[p].keys| ==> g == |LeafKeys(pages, sh)| && p == hdr.lastLeaf)
  {
    forall x | x in sh.levels[0] ensures x in KeyMap(pages) { assert x in sh.ht && NodeOk(pages, sh.ht, x); }
    EndSlot(KeyMap(pages), sh.levels[0], g);
    var (p, s) := Locate(KeyMap(pages), sh.levels[0], g);
    assert p in sh.ht && NodeOk(pages, sh.ht, p);
  }

  /** Restores Tree after keys of inner pages were corrected. */
  lemma KeysOnlyTree(pages: Pages, pages': Pages, hdr: IndexHeader, sh: Shape)
    requires hdr.order > 2 && Shaped(pages, hdr, sh.levels, sh.ht)
    requires Ringed(pages, sh.levels[0], hdr) && Partition(pages, hdr, sh.ht.Keys, sh.free)
    requires KeysOnly(pages, pages', sh.ht) && Keyed(pages', sh.ht, {})
    ensures Tree(pages', hdr, sh)
  {
    KeysOnlyShaped(pages, pages', hdr, sh.levels, sh.ht, {});
    RingFrame(pages, pages', sh.levels[0], hdr, hdr);
    PartitionFrame(pages, pages', hdr, hdr, sh.ht.Keys, sh.free);
  }

  /** Everything a new root keeps; "mid" is the state after its page was allocated. */
  lemma GrowTree(was: Pages, wasHdr: IndexHeader, sh: Shape, mid: Pages, midHdr: IndexHeader, free: seq<int>,
                 pages: Pages, hdr: IndexHeader, sh': Shape, p: int, r: int)
    requires Tree(was, wasHdr, sh) && Sized(was, sh.ht, wasHdr, {p}) && p == wasHdr.rootPage
    requires r !in sh.ht && r >= INIT_ROOT_PAGE && GrowStep(was, pages, sh.ht, p, r)
    requires Partition(mid, midHdr, sh.ht.Keys + {r}, free) && (forall x :: x in mid ==> x in pages)
    requires forall x :: x in mid && x != r ==> pages[x].nextFree == mid[x].nextFree
    requires hdr == wasHdr.(rootPage := r, firstFree := midHdr.firstFree, numPages := midHdr.numPages)
    requires sh' == Shape(sh.levels + [[r]], sh.ht[r := |sh.levels|], free)
    ensures Tree(pages, hdr, sh') && Sized(pages, sh'.ht, hdr, {p, r})
    ensures LeafKeys(pages, sh') == LeafKeys(was, sh) && LeafRids(pages, sh') == LeafRids(was, sh)
  {
    RootHeight(was, wasHdr, sh.levels, sh.ht);
    GrowShaped(was, pages, wasHdr, hdr, sh.levels, sh.ht, p, r);
    GrowKeyed(was, pages, wasHdr, sh.levels, sh.ht, p, r);
    GrowFrame(was, pages, wasHdr, hdr, sh, p, r);
    assert r in sh.ht.Keys + {r};
    PartitionFrame(mid, pages, midHdr, hdr, sh.ht.Keys + {r}, free);
    assert sh'.ht.Keys == sh.ht.Keys + {r};
  }

  /** Everything a split keeps; "mid" is the state after the new page was allocated. */
  lemma SplitTree(was: Pages, wasHdr: IndexHeader, sh: Shape, mid: Pages, midHdr: IndexHeader, free: seq<int>,
                  pages: Pages, hdr: IndexHeader, p: int, b: int, q: int, i: nat, m: nat)
    returns (sh': Shape)
    requires Tree(was, wasHdr, sh) && Sized(was, sh.ht, wasHdr, {p, q}) && p != wasHdr.rootPage
    requires SplitStep(was, pages, sh.ht, p, b, q, i, m)
    requires |was[p].rids| == wasHdr.order + 1 && m == |was[p].rids| / 2
    requires if sh.ht[p] == 0 then LinkedIn(was, pages, p, b)
      else SameLinks(was, pages, [LEAF_HEADER_PAGE] + sh.levels[0])
    requires Partition(mid, midHdr, sh.ht.Keys + {b}, free) && (forall x :: x in mid ==> x in pages)
    requires forall x :: x in mid && x != b ==> pages[x].nextFree == mid[x].nextFree
    requires hdr == wasHdr.(firstFree := midHdr.firstFree, numPages := midHdr.numPages,
                            lastLeaf := if wasHdr.lastLeaf == p then b else wasHdr.lastLeaf)
    ensures Tree(pages, hdr, sh') && Sized(pages, sh'.ht, hdr, {q})
    ensures LeafKeys(pages, sh') == LeafKeys(was, sh) && LeafRids(pages, sh') == LeafRids(was, sh)
    ensures sh'.ht == sh.ht[b := sh.ht[p]] && sh'.free == free && |sh'.levels| == |sh.levels|
  {
    var ht' := sh.ht[b := sh.ht[p]];
    var levels', a, c := SplitShape(was, wasHdr, sh, pages, hdr, p, b, q, i, m);
    sh' := Shape(levels', ht', free);
    RootHeight(was, wasHdr, sh.levels, sh.ht);
    assert KeyOk(was, sh.ht, q, i, {});
    SplitSized(was, wasHdr, sh, pages, hdr, p, b, q, i, m);
    SplitRing(was, wasHdr, sh, pages, hdr, levels', a, c, p, b, q);
    assert b in sh.ht.Keys + {b};
    PartitionFrame(mid, pages, midHdr, hdr, sh.ht.Keys + {b}, free);
    assert ht'.Keys == sh.ht.Keys + {b};
  }

  lemma SplitShape(was: Pages, wasHdr: IndexHeader, sh: Shape, pages: Pages, hdr: IndexHeader,
                   p: int, b: int, q: int, i: nat, m: nat)
    returns (levels': seq<seq<int>>, a: seq<int>, c: seq<int>)
    requires Tree(was, wasHdr, sh) && hdr.rootPage == wasHdr.rootPage && SplitStep(was, pages, sh.ht, p, b, q, i, m)
    ensures Shaped(pages, hdr, levels', sh.ht[b := sh.ht[p]]) && Keyed(pages, sh.ht[b := sh.ht[p]], {})
    ensures sh.ht[p] < |sh.levels| - 1 && sh.levels[sh.ht[p]] == a + [p] + c
    ensures levels' == sh.levels[sh.ht[p] := a + [p, b] + c]
    ensures Join(KeyMap(pages), levels'[0]) == Join(KeyMap(was), sh.levels[0])
    ensures Join(RidMap(pages), levels'[0]) == Join(RidMap(was), sh.levels[0])
  {
    assert KeyOk(was, sh.ht, q, i, {});
    SplitRegroups(was, pages, sh.ht, p, b, q, i, m);
    SplitRekeys(was, pages, sh.ht, p, b, q, i, m);
    SplitDistinct(was, wasHdr, sh, p);
    SplitReparents(was, pages, sh.ht, p, b, q, i, m);
    levels', a, c := RegroupTree(was, pages, wasHdr, hdr, sh.levels, sh.ht, sh.ht[b := sh.ht[p]], q, i, [p], [p, b],
      {}, {});
  }

  lemma SplitDistinct(was: Pages, wasHdr: IndexHeader, sh: Shape, p: int)
    requires Tree(was, wasHdr, sh) && p in sh.ht && NodeOk(was, sh.ht, p)
    ensures forall j, k :: 0 <= j < k < |was[p].rids| && sh.ht[p] > 0 ==> was[p].rids[j].page != was[p].rids[k].page
  {
    if sh.ht[p] > 0 {
      forall j, k | 0 <= j < k < |was[p].rids| ensures was[p].rids[j].page != was[p].rids[k].page {
        ChildRankUnique(was, wasHdr, sh.levels, sh.ht, p, j, k);
      }
    }
  }

  lemma SplitSized(was: Pages, wasHdr: IndexHeader, sh: Shape, pages: Pages, hdr: IndexHeader, p: int, b: int, q: int,
                   i: nat, m: nat)
    requires Sized(was, sh.ht, wasHdr, {p, q}) && p != wasHdr.rootPage && wasHdr.order > 2
    requires wasHdr.rootPage in sh.ht && SplitStep(was, pages, sh.ht, p, b, q, i, m)
    requires Typed(was, sh.ht) && was[q].keys[i] == Last(was[p].keys)
    requires |was[p].rids| == wasHdr.order + 1 && m == |was[p].rids| / 2
    requires hdr.rootPage == wasHdr.rootPage && hdr.order == wasHdr.order
    ensures Sized(pages, sh.ht[b := sh.ht[p]], hdr, {q})
  {
    SplitRegroups(was, pages, sh.ht, p, b, q, i, m);
    assert SizeOk(pages, hdr, p) && SizeOk(pages, hdr, b);
    RegroupSized(was, pages, wasHdr, hdr, sh.ht, sh.ht[b := sh.ht[p]], q, i, [p], [p, b], {p, q}, {q});
  }

  lemma SplitRing(was: Pages, wasHdr: IndexHeader, sh: Shape, pages: Pages, hdr: IndexHeader,
                  levels': seq<seq<int>>, a: seq<int>, c: seq<int>, p: int, b: int, q: int)
    requires Tree(was, wasHdr, sh) && NodeOk(was, sh.ht, p) && b !in sh.ht && b >= INIT_ROOT_PAGE
    requires if sh.ht[p] == 0 then LinkedIn(was, pages, p, b)
      else SameLinks(was, pages, [LEAF_HEADER_PAGE] + sh.levels[0])
    requires hdr.firstLeaf == wasHdr.firstLeaf && hdr.lastLeaf == if wasHdr.lastLeaf == p then b else wasHdr.lastLeaf
    requires sh.ht[p] < |sh.levels| && sh.levels[sh.ht[p]] == a + [p] + c
    requires levels' == sh.levels[sh.ht[p] := a + [p, b] + c]
    ensures Ringed(pages, levels'[0], hdr)
  {
    LiveAboveHeader(was, sh);
    if sh.ht[p] == 0 {
      assert b !in sh.levels[0];
      RingLinkIn(was, pages, a, p, c, b, wasHdr, hdr);
    } else {
      assert wasHdr.lastLeaf in sh.levels[0];
      RingFrame(was, pages, sh.levels[0], wasHdr, hdr);
    }
  }

  ghost predicate LeafNextOk(pages: Pages, sh: Shape, p: int)
    requires p in pages
  {
    pages[p].isLeaf ==> (var n := pages[p].nextLeaf; n in pages && n != p && (n in sh.ht || n == LEAF_HEADER_PAGE))
  }

  /** What the page updates of a split rely on. */
  ghost predicate SplittablePage(pages: Pages, hdr: IndexHeader, sh: Shape, p: int)
    requires p in pages
  {
    && p >= INIT_ROOT_PAGE && LeafNextOk(pages, sh, p)
    && |pages[p].keys| == |pages[p].rids| == hdr.order + 1 && hdr.order > 2
    && (!pages[p].isLeaf ==> forall c :: c in PagesOf(pages[p].rids[|pages[p].rids| / 2..]) ==>
        c in pages && c in sh.ht && c != p)
    && var q := pages[p].parent;
       q in pages && q in sh.ht && q != p && |pages[q].keys| == |pages[q].rids|
       && exists k :: 0 <= k < |pages[q].rids| && pages[q].rids[k].page == p
  }

  lemma ParentRank(pages: Pages, p: int) returns (k: nat)
    requires p in pages && pages[p].parent in pages
    requires exists k :: 0 <= k < |pages[pages[p].parent].rids| && pages[pages[p].parent].rids[k].page == p
    ensures k < |pages[pages[p].parent].rids| && pages[pages[p].parent].rids[k].page == p
  {
    k :| 0 <= k < |pages[pages[p].parent].rids| && pages[pages[p].parent].rids[k].page == p;
  }

  lemma SplitReady(pages: Pages, hdr: IndexHeader, sh: Shape, p: int, k: nat)
    requires Tree(pages, hdr, sh) && p in sh.ht && p in pages && |pages[p].rids| == hdr.order + 1
    requires var q := pages[p].parent;
             NodeOk(pages, sh.ht, q) && sh.ht[q] == sh.ht[p] + 1 && k < |pages[q].rids| && pages[q].rids[k].page == p
    ensures SplittablePage(pages, hdr, sh, p)
  {
    SplitLeafNext(pages, hdr, sh, p);
    assert NodeOk(pages, sh.ht, p);
    if !pages[p].isLeaf {
      KidsHeight(pages, sh.ht, p, |pages[p].rids| / 2);
      forall c | c in PagesOf(pages[p].rids[|pages[p].rids| / 2..])
        ensures c in pages
      {
        assert NodeOk(pages, sh.ht, c);
      }
    }
  }

  lemma SplitLeafNext(pages: Pages, hdr: IndexHeader, sh: Shape, p: int)
    requires Tree(pages, hdr, sh) && p in sh.ht && p in pages
    ensures p >= INIT_ROOT_PAGE
    ensures LeafNextOk(pages, sh, p)
  {
    assert NodeOk(pages, sh.ht, p);
    if pages[p].isLeaf {
      var leaves := sh.levels[0];
      assert p in leaves;
      var j :| 0 <= j < |leaves| && leaves[j] == p;
      RingNext(pages, leaves, hdr, j);
      if j + 1 < |leaves| {
        var n := leaves[j + 1];
        assert n in leaves && n in sh.ht && NodeOk(pages, sh.ht, n);
        NoDupAt(leaves, j, j + 1);
      }
    }
  }

  /** The children that move are other pages than the two brothers. */
  lemma SplitKids(was: Pages, hdr: IndexHeader, sh: Shape, mid: Pages, p: int, b: int, m: nat)
    requires Tree(was, hdr, sh) && NodeOk(was, sh.ht, p) && b !in sh.ht && p in mid && m <= |was[p].rids|
    requires SameBody(mid[p], was[p]) && (forall x :: x in was ==> x in mid)
    ensures !mid[p].isLeaf ==> forall c :: c in PagesOf(mid[p].rids[m..]) ==> c in mid && c != p && c != b
  {
    if !was[p].isLeaf {
      var kids := PagesOf(was[p].rids[m..]);
      forall c | c in kids ensures c in mid && c != p && c != b {
        var k :| 0 <= k < |kids| && kids[k] == c;
        assert ChildOk(was, sh.ht, p, m + k);
      }
    }
  }

  /** The page map after the brother b of p has been allocated and, for leaves, linked in. */
  ghost predicate BrotherMade(was: Pages, mid: Pages, p: int, b: int) {
    && p in was && b in mid && p in mid
    && mid[b].parent == was[p].parent && mid[b].isLeaf == was[p].isLeaf && mid[b].keys == [] && mid[b].rids == []
    && (forall x :: x in was && x != b ==> x in mid && SameBody(mid[x], was[x]) && mid[x].parent == was[x].parent
                                           && mid[x].nextFree == was[x].nextFree)
    && (if mid[b].isLeaf then LinkedIn(was, mid, p, b)
        else forall x :: x in was && x != b ==>
          mid[x].nextLeaf == was[x].nextLeaf && mid[x].prevLeaf == was[x].prevLeaf)
  }

  /** The page updates of creating a brother make one. */
  lemma BrotherUpdates(was: Pages, mid: Pages, pages: Pages, p: int, b: int)
    requires p in was && p != b && b in mid && mid == was[b := mid[b]]
    requires was[p].isLeaf ==> was[p].nextLeaf in was && was[p].nextLeaf != p && was[p].nextLeaf != b
    requires var made := Node(NO_PAGE, was[p].parent, was[p].isLeaf, NO_PAGE, NO_PAGE, [], []);
             pages == if !was[p].isLeaf then mid[b := made]
                      else var next := was[p].nextLeaf;
                           mid[b := made.(nextLeaf := next, prevLeaf := p)][next := was[next].(prevLeaf := b)]
                              [p := was[p].(nextLeaf := b)]
    ensures BrotherMade(was, pages, p, b) && pages.Keys == was.Keys + {b}
    ensures forall x :: x in mid ==> x in pages && (x != b ==> pages[x].nextFree == mid[x].nextFree)
  {
  }

  /** The page map after the slots of p from m on have moved to b. */
  ghost predicate UpperMoved(mid: Pages, moved: Pages, p: int, b: int, m: nat) {
    && moved.Keys == mid.Keys && p in mid && b in mid && m <= |mid[p].keys| && m <= |mid[p].rids|
    && moved[p] == mid[p].(keys := mid[p].keys[..m], rids := mid[p].rids[..m])
    && moved[b] == mid[b].(keys := mid[p].keys[m..], rids := mid[p].rids[m..])
    && (forall x :: x in moved && x != p && x != b ==>
          moved[x] == mid[x].(parent := if !mid[p].isLeaf && x in PagesOf(mid[p].rids[m..]) then b else mid[x].parent))
  }

  /** The parent q of a split page takes up the popup key and the brother. */
  ghost predicate BrotherEntered(moved: Pages, pages: Pages, q: int, i: nat, key: Key, b: int) {
    && q in moved && i < |moved[q].keys| && i < |moved[q].rids|
    && pages == moved[q := moved[q].(keys := InsertAt(moved[q].keys, i, [key]),
                                     rids := InsertAt(moved[q].rids, i + 1, [RecordID(b, -1)]))]
  }

  /** The page updates of one split of p into p and b below q. */
  ghost predicate SplitUpdates(was: Pages, hdr: IndexHeader, sh: Shape, mid: Pages, moved: Pages, pages: Pages,
                               p: int, b: int, q: int, i: nat, m: nat)
  {
    var isSplit :=
      && Tree(was, hdr, sh) && NodeOk(was, sh.ht, p) && NodeOk(was, sh.ht, q) && sh.ht[q] == sh.ht[p] + 1
      && was[p].parent == q && b !in sh.ht && b >= INIT_ROOT_PAGE
      && i < |was[q].rids| && was[q].rids[i] == RecordID(p, -1) && 0 < m < |was[p].rids|
      && BrotherMade(was, mid, p, b) && UpperMoved(mid, moved, p, b, m)
      && BrotherEntered(moved, pages, q, i, was[p].keys[m - 1], b);
    isSplit
  }

  /** The parent is not among the children that moved. */
  lemma SplitParentStays(was: Pages, hdr: IndexHeader, sh: Shape, mid: Pages, moved: Pages, pages: Pages,
                         p: int, b: int, q: int, i: nat, m: nat)
    requires SplitUpdates(was, hdr, sh, mid, moved, pages, p, b, q, i, m)
    ensures sh.ht[p] > 0 ==> q !in PagesOf(was[p].rids[m..])
  {
    if sh.ht[p] > 0 { KidsHeight(was, sh.ht, p, m); }
  }

  lemma SplitIsStep(was: Pages, hdr: IndexHeader, sh: Shape, mid: Pages, moved: Pages, pages: Pages,
                    p: int, b: int, q: int, i: nat, m: nat)
    requires SplitUpdates(was, hdr, sh, mid, moved, pages, p, b, q, i, m)
    ensures SplitStep(was, pages, sh.ht, p, b, q, i, m)
  {
    hide Tree, LinkedIn;
    SplitKids(was, hdr, sh, mid, p, b, m);
    SplitParentStays(was, hdr, sh, mid, moved, pages, p, b, q, i, m);
  }

  lemma SplitLinks(was: Pages, hdr: IndexHeader, sh: Shape, mid: Pages, moved: Pages, pages: Pages,
                   p: int, b: int, q: int, i: nat, m: nat)
    requires SplitUpdates(was, hdr, sh, mid, moved, pages, p, b, q, i, m)
    ensures if sh.ht[p] == 0 then LinkedIn(was, pages, p, b)
      else SameLinks(was, pages, [LEAF_HEADER_PAGE] + sh.levels[0])
  {
    SplitKids(was, hdr, sh, mid, p, b, m);
    SplitParentStays(was, hdr, sh, mid, moved, pages, p, b, q, i, m);
    if sh.ht[p] > 0 { LiveAboveHeader(was, sh); }
  }

  lemma SplitFrees(was: Pages, hdr: IndexHeader, sh: Shape, mid: Pages, moved: Pages, pages: Pages,
                   p: int, b: int, q: int, i: nat, m: nat)
    requires SplitUpdates(was, hdr, sh, mid, moved, pages, p, b, q, i, m)
    ensures (forall x :: x in mid ==> x in pages)
    ensures forall x :: x in mid && x != b ==> pages[x].nextFree == mid[x].nextFree
  {
    hide Tree, BrotherMade;
  }

  lemma SplitFinish(was: Pages, wasHdr: IndexHeader, sh: Shape, mid: Pages, midHdr: IndexHeader, free: seq<int>,
                    moved: Pages, pages: Pages, hdr: IndexHeader, p: int, b: int, q: int, i: nat, k: nat, m: nat)
    returns (sh': Shape)
    requires Tree(was, wasHdr, sh) && Sized(was, sh.ht, wasHdr, {p, q}) && p != wasHdr.rootPage
    requires NodeOk(was, sh.ht, p) && NodeOk(was, sh.ht, q) && sh.ht[q] == sh.ht[p] + 1
    requires was[p].parent == q && b !in sh.ht && b >= INIT_ROOT_PAGE
    requires i < |was[q].rids| && k < |was[q].rids| && was[q].rids[k] == RecordID(p, -1) && was[q].rids[i].page == p
    requires |was[p].rids| == wasHdr.order + 1 && m == |was[p].rids| / 2
    requires BrotherMade(was, mid, p, b) && UpperMoved(mid, moved, p, b, m)
    requires Partition(mid, midHdr, sh.ht.Keys + {b}, free)
    requires q in moved && i < |moved[q].keys| && i < |moved[q].rids|
    requires pages == moved[q := moved[q].(keys := InsertAt(moved[q].keys, i, [was[p].keys[m - 1]]),
                                           rids := InsertAt(moved[q].rids, i + 1, [RecordID(b, -1)]))]
    requires hdr == wasHdr.(firstFree := midHdr.firstFree, numPages := midHdr.numPages,
                            lastLeaf := if wasHdr.lastLeaf == p then b else wasHdr.lastLeaf)
    ensures Tree(pages, hdr, sh') && Sized(pages, sh'.ht, hdr, {q})
    ensures LeafKeys(pages, sh') == LeafKeys(was, sh) && LeafRids(pages, sh') == LeafRids(was, sh)
    ensures sh'.ht == sh.ht[b := sh.ht[p]] && |sh'.levels| == |sh.levels|
    ensures |pages[q].rids| == |was[q].rids| + 1 && pages[q].isLeaf == was[q].isLeaf
  {
    SplitRank(was, wasHdr, sh, q, i, k);
    SplitIsStep(was, wasHdr, sh, mid, moved, pages, p, b, q, i, m);
    SplitLinks(was, wasHdr, sh, mid, moved, pages, p, b, q, i, m);
    SplitFrees(was, wasHdr, sh, mid, moved, pages, p, b, q, i, m);
    sh' := SplitTree(was, wasHdr, sh, mid, midHdr, free, pages, hdr, p, b, q, i, m);
  }

  lemma KidsHeight(pages: Pages, ht: Heights, p: int, m: nat)
    requires Linked(pages, ht) && NodeOk(pages, ht, p) && ht[p] > 0 && m <= |pages[p].rids|
    ensures forall x :: x in PagesOf(pages[p].rids[m..]) ==> x in ht && ht[x] + 1 == ht[p]
  {
    var kids := PagesOf(pages[p].rids[m..]);
    forall x | x in kids ensures x in ht && ht[x] + 1 == ht[p] {
      var k :| 0 <= k < |kids| && kids[k] == x;
      assert ChildOk(pages, ht, p, m + k);
    }
  }

  lemma SplitRank(was: Pages, hdr: IndexHeader, sh: Shape, q: int, i: nat, k: nat)
    requires Tree(was, hdr, sh) && NodeOk(was, sh.ht, q) && sh.ht[q] > 0
    requires i < |was[q].rids| && k < |was[q].rids| && was[q].rids[i].page == was[q].rids[k].page
    ensures i == k
  {
    if i < k { ChildRankUnique(was, hdr, sh.levels, sh.ht, q, i, k); }
    if k < i { ChildRankUnique(was, hdr, sh.levels, sh.ht, q, k, i); }
  }

  // ----- insert_entry -----

  function EntryKeys(es: seq<Entry>): seq<Key> {
    seq(|es|, i requires 0 <= i < |es| => es[i].key)
  }

  /** What inserting an entry does to a multimap kept in key order. */
  function Inserted(o: KeyOrd, es: seq<Entry>, e: Entry): seq<Entry> {
    InsertAt(es, CutIndex(o, true, e.key, EntryKeys(es)), [e])
  }

  lemma {:induction false} InsertedZip(o: KeyOrd, ks: seq<Key>, rs: seq<RecordID>, key: Key, rid: RecordID, g: nat)
    requires |ks| == |rs| && g == CutIndex(o, true, key, ks)
    ensures Zip(InsertAt(ks, g, [key]), InsertAt(rs, g, [rid])) == Inserted(o, Zip(ks, rs), Entry(key, rid))
  {
    assert EntryKeys(Zip(ks, rs)) == ks;
  }

  /** The page the overflow loop stands at: it may have one child too many, but not too few. */
  ghost predicate Overfull(pages: Pages, hdr: IndexHeader, sh: Shape, p: int) {
    && p in sh.ht && p in pages && |pages[p].rids| <= hdr.order + 1
    && (p != hdr.rootPage ==> |pages[p].rids| >= MinChildren(hdr.order))
    && (p == hdr.rootPage && !pages[p].isLeaf ==> |pages[p].rids| >= 2)
  }

  lemma LeafSizeBound(was: Pages, pages: Pages, hdr: IndexHeader, sh: Shape, p: int)
    requires p in sh.ht && p in was && p in pages && |pages[p].rids| == |was[p].rids| + 1
    requires Sized(was, sh.ht, hdr, {}) && Typed(pages, sh.ht) && sh.ht[p] == 0
    ensures Overfull(pages, hdr, sh, p)
  {
    assert SizeOk(was, hdr, p) && NodeOk(pages, sh.ht, p);
  }

  lemma OverfullSettled(pages: Pages, hdr: IndexHeader, sh: Shape, p: int)
    requires Sized(pages, sh.ht, hdr, {p}) && Overfull(pages, hdr, sh, p) && |pages[p].rids| <= hdr.order
    ensures Sized(pages, sh.ht, hdr, {})
  {
    forall x | x in sh.ht ensures SizeOk(pages, hdr, x) { }
  }

  lemma RootIff(pages: Pages, hdr: IndexHeader, sh: Shape, p: int)
    requires Tree(pages, hdr, sh) && p in sh.ht
    ensures p in pages && sh.ht[p] < |sh.levels| && |pages[p].keys| == |pages[p].rids|
    ensures pages[p].parent == NO_PAGE <==> p == hdr.rootPage
    ensures p != hdr.rootPage ==>
      pages[p].parent in sh.ht && pages[p].parent in pages && sh.ht[pages[p].parent] == sh.ht[p] + 1 < |sh.levels|
  {
    RootHeight(pages, hdr, sh.levels, sh.ht);
    assert NodeOk(pages, sh.ht, p);
    if p != hdr.rootPage { var i := ParentOf(pages, hdr, sh.levels, sh.ht, p); }
  }

  lemma ParentSized(pages: Pages, hdr: IndexHeader, sh: Shape, p: int)
    requires Tree(pages, hdr, sh) && Sized(pages, sh.ht, hdr, {p}) && p in sh.ht && p != hdr.rootPage
    ensures p in pages && Sized(pages, sh.ht, hdr, {p, pages[p].parent}) && SizeOk(pages, hdr, pages[p].parent)
    ensures pages[p].parent in pages && !pages[pages[p].parent].isLeaf
  {
    var i := ParentOf(pages, hdr, sh.levels, sh.ht, p);
    forall x | x in sh.ht && x !in {p, pages[p].parent} ensures SizeOk(pages, hdr, x) { }
  }

  // ----- the file written by create_index -----

  function NewHeader(order: int): IndexHeader {
    IndexHeader(NO_PAGE, INIT_NUM_PAGES, INIT_ROOT_PAGE, order, INIT_ROOT_PAGE, INIT_ROOT_PAGE)
  }

  function NewPages(): Pages {
    map[LEAF_HEADER_PAGE := Node(NO_PAGE, NO_PAGE, true, INIT_ROOT_PAGE, INIT_ROOT_PAGE, [], []),
        INIT_ROOT_PAGE := Node(NO_PAGE, NO_PAGE, true, LEAF_HEADER_PAGE, LEAF_HEADER_PAGE, [], [])]
  }

  ghost function NewShape(): Shape {
    Shape([[INIT_ROOT_PAGE]], map[INIT_ROOT_PAGE := 0], [])
  }

  lemma NewRing(order: int)
    ensures Ringed(NewPages(), NewShape().levels[0], NewHeader(order))
  {
    var s := [LEAF_HEADER_PAGE] + [INIT_ROOT_PAGE] + [LEAF_HEADER_PAGE];
    assert s[1..] == [INIT_ROOT_PAGE, LEAF_HEADER_PAGE] && s[1..][1..] == [LEAF_HEADER_PAGE];
    assert Chain(NewPages(), s[1..][1..]);
    assert Chain(NewPages(), s[1..]);
    assert Chain(NewPages(), s);
  }

  lemma NewLevels()
    ensures Levelled(NewShape().levels, NewShape().ht)
    ensures Typed(NewPages(), NewShape().ht)
  {
  }

  /** The initial file is a tree with one empty leaf. */
  lemma NewIndexFile(order: int)
    requires order > 2
    ensures WellFormed(NewPages(), NewHeader(order), NewShape(), {})
  {
    NewRing(order);
    NewLevels();
  }
}
