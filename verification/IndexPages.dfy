/** The pages of an index file and what it means for them to hold a B+ tree with maximum keys. */
module IndexPages {
  import opened Common
  import opened Seqs
  import opened KeyOrder

  const LEAF_HEADER_PAGE := 1
  const INIT_ROOT_PAGE := 2
  const INIT_NUM_PAGES := 3

  /** A node page: header fields, then the used parts of the key array and of the record id array. */
  datatype Node = Node(nextFree: int, parent: int, isLeaf: bool, prevLeaf: int, nextLeaf: int,
                       keys: seq<Key>, rids: seq<RecordID>)

  datatype IndexHeader = IndexHeader(firstFree: int, numPages: int, rootPage: int, order: int,
                                     firstLeaf: int, lastLeaf: int)

  datatype IndexID = IndexID(page: int, slot: int)

  datatype Entry = Entry(key: Key, rid: RecordID)

  type Pages = map<int, Node>
  type Heights = map<int, nat>

  /** The tree a file holds: its pages level by level with the leaves first, the height of every live
      page above the leaves, and the list of free pages. */
  datatype Shape = Shape(levels: seq<seq<int>>, ht: Heights, free: seq<int>)

  function KeyMap(pages: Pages): map<int, seq<Key>> {
    map p | p in pages :: pages[p].keys
  }

  function RidMap(pages: Pages): map<int, seq<RecordID>> {
    map p | p in pages :: pages[p].rids
  }

  function PagesOf(rs: seq<RecordID>): seq<int> {
    seq(|rs|, i requires 0 <= i < |rs| => rs[i].page)
  }

  function ChildRids(ps: seq<int>): seq<RecordID> {
    seq(|ps|, i requires 0 <= i < |ps| => RecordID(ps[i], -1))
  }

  function Last<T>(s: seq<T>): T
    requires |s| > 0
  {
    s[|s| - 1]
  }

  /** Half of the order, rounded up. */
  function MinChildren(order: int): (n: int)
    ensures 2 * n - 2 < order <= 2 * n
  {
    (order + 1) / 2
  }

  // ----- the tree conditions -----

  ghost predicate NodeOk(pages: Pages, ht: Heights, p: int) {
    p in ht && p in pages && p >= INIT_ROOT_PAGE && pages[p].isLeaf == (ht[p] == 0)
      && |pages[p].keys| == |pages[p].rids|
  }

  /** Every live page exists, is a leaf exactly at height 0, and has as many keys as children. */
  ghost predicate Typed(pages: Pages, ht: Heights) {
    forall p :: p in ht ==> NodeOk(pages, ht, p)
  }

  ghost predicate ChildOk(pages: Pages, ht: Heights, p: int, i: int, orphans: set<int> := {})
    requires NodeOk(pages, ht, p) && 0 <= i < |pages[p].rids|
  {
    var c := pages[p].rids[i];
    c.slot == -1 && NodeOk(pages, ht, c.page) && ht[c.page] + 1 == ht[p]
    && (c.page in orphans || pages[c.page].parent == p)
  }

  /** Every child of an inner page is live, one level down, and, orphans aside, points back at its parent. */
  ghost predicate Linked(pages: Pages, ht: Heights, orphans: set<int> := {}) {
    forall p, i :: p in ht && NodeOk(pages, ht, p) && ht[p] > 0 && 0 <= i < |pages[p].rids|
      ==> ChildOk(pages, ht, p, i, orphans)
  }

  ghost predicate KeyOk(pages: Pages, ht: Heights, p: int, i: int, except: set<int>)
    requires NodeOk(pages, ht, p) && 0 <= i < |pages[p].rids|
  {
    var c := pages[p].rids[i].page;
    c in pages && (c in except || pages[c].keys == [] || pages[p].keys[i] == Last(pages[c].keys))
  }

  /** Every inner key is the largest key of its child; the keys of the "except" children may be out of date. */
  ghost predicate Keyed(pages: Pages, ht: Heights, except: set<int>) {
    forall p, i :: p in ht && NodeOk(pages, ht, p) && ht[p] > 0 && 0 <= i < |pages[p].rids| ==>
      KeyOk(pages, ht, p, i, except)
  }

  ghost predicate SizeOk(pages: Pages, hdr: IndexHeader, p: int) {
    && p in pages
    && |pages[p].rids| <= hdr.order
    && (p != hdr.rootPage ==> |pages[p].rids| >= MinChildren(hdr.order))
    && (p == hdr.rootPage && !pages[p].isLeaf ==> |pages[p].rids| >= 2)
  }

  /** Occupancy bounds hold at every live page outside "except". */
  ghost predicate Sized(pages: Pages, ht: Heights, hdr: IndexHeader, except: set<int>) {
    forall p :: p in ht && p !in except ==> SizeOk(pages, hdr, p)
  }

  /** The levels list the live pages by height, each once. */
  ghost predicate Levelled(levels: seq<seq<int>>, ht: Heights) {
    && |levels| >= 1
    && (forall l, p :: 0 <= l < |levels| && p in levels[l] ==> p in ht && ht[p] == l)
    && (forall p :: p in ht ==> ht[p] < |levels| && p in levels[ht[p]])
    && (forall l :: 0 <= l < |levels| ==> NoDup(levels[l]))
  }

  ghost predicate Stack(rm: map<int, seq<RecordID>>, levels: seq<seq<int>>, l: int)
    requires 1 <= l < |levels|
  {
    PagesOf(Join(rm, levels[l])) == levels[l - 1]
  }

  /** The children of a level, read in order, are the level below. */
  ghost predicate Stacked(rm: map<int, seq<RecordID>>, levels: seq<seq<int>>) {
    forall l :: 1 <= l < |levels| ==> Stack(rm, levels, l)
  }

  ghost predicate Rooted(pages: Pages, levels: seq<seq<int>>, root: int) {
    |levels| >= 1 && levels[|levels| - 1] == [root] && root in pages && pages[root].parent == NO_PAGE
  }

  ghost predicate Shaped(pages: Pages, hdr: IndexHeader, levels: seq<seq<int>>, ht: Heights, orphans: set<int> := {}) {
    var isShaped :=
      && Typed(pages, ht) && Linked(pages, ht, orphans) && Levelled(levels, ht)
      && Stacked(RidMap(pages), levels) && Rooted(pages, levels, hdr.rootPage);
    isShaped
  }

  ghost predicate Adjacent(pages: Pages, p: int, q: int) {
    p in pages && q in pages && pages[p].nextLeaf == q && pages[q].prevLeaf == p
  }

  ghost predicate Chain(pages: Pages, s: seq<int>) {
    |s| <= 1 || (Adjacent(pages, s[0], s[1]) && Chain(pages, s[1..]))
  }

  /** The leaves are linked both ways in one ring through the leaf header page; the initial root page
      is always the first of them. */
  ghost predicate Ringed(pages: Pages, leaves: seq<int>, hdr: IndexHeader) {
    && Chain(pages, [LEAF_HEADER_PAGE] + leaves + [LEAF_HEADER_PAGE])
    && |leaves| > 0 && leaves[0] == hdr.firstLeaf == INIT_ROOT_PAGE && Last(leaves) == hdr.lastLeaf
  }

  function FreeLink(n: Node): int {
    n.nextFree
  }

  /** The pages from 2 on are exactly the live pages and the pages of the free chain. */
  ghost predicate Partition(pages: Pages, hdr: IndexHeader, live: set<int>, free: seq<int>) {
    var isPartition :=
      && hdr.numPages >= INIT_NUM_PAGES
      && FreeChain(pages, FreeLink, hdr.firstFree, free) && NoDup(free)
      && (forall x :: x in live ==> x !in free)
      && (forall x :: INIT_ROOT_PAGE <= x < hdr.numPages <==> x in live || x in free)
      && (forall x :: LEAF_HEADER_PAGE <= x < hdr.numPages ==> x in pages);
    isPartition
  }

  /** A tree file, leaving aside the order of the keys and the occupancy of the pages. */
  ghost predicate Tree(pages: Pages, hdr: IndexHeader, sh: Shape) {
    var isTree :=
      && hdr.order > 2
      && Shaped(pages, hdr, sh.levels, sh.ht) && Keyed(pages, sh.ht, {})
      && Ringed(pages, sh.levels[0], hdr) && Partition(pages, hdr, sh.ht.Keys, sh.free);
    isTree
  }

  ghost predicate WellFormed(pages: Pages, hdr: IndexHeader, sh: Shape, except: set<int>) {
    var isWellFormed := Tree(pages, hdr, sh) && Sized(pages, sh.ht, hdr, except);
    isWellFormed
  }

  function LeafKeys(pages: Pages, sh: Shape): seq<Key>
    requires |sh.levels| >= 1
  {
    Join(KeyMap(pages), sh.levels[0])
  }

  function LeafRids(pages: Pages, sh: Shape): seq<RecordID>
    requires |sh.levels| >= 1
  {
    Join(RidMap(pages), sh.levels[0])
  }

  function Zip(ks: seq<Key>, rs: seq<RecordID>): seq<Entry>
    requires |ks| == |rs|
  {
    seq(|ks|, i requires 0 <= i < |ks| => Entry(ks[i], rs[i]))
  }

  // ----- elementary consequences -----

  lemma PagesOfConcat(a: seq<RecordID>, b: seq<RecordID>)
    ensures PagesOf(a + b) == PagesOf(a) + PagesOf(b)
  {
  }

  lemma PagesOfChildRids(ps: seq<int>)
    ensures PagesOf(ChildRids(ps)) == ps
  {
  }

  /** The pages at one height have keys and rids of equal lengths, so both joins have the same layout. */
  lemma {:induction false} LevelAgree(pages: Pages, ht: Heights, ps: seq<int>, g: nat)
    requires Typed(pages, ht) && |ps| > 0 && forall p :: p in ps ==> p in ht
    ensures AllIn(KeyMap(pages), ps) && AllIn(RidMap(pages), ps)
    ensures Locate(KeyMap(pages), ps, g) == Locate(RidMap(pages), ps, g)
    ensures |Join(KeyMap(pages), ps)| == |Join(RidMap(pages), ps)|
  {
    forall p | p in ps ensures p in KeyMap(pages) && p in RidMap(pages) && |KeyMap(pages)[p]| == |RidMap(pages)[p]| {
      assert NodeOk(pages, ht, p);
    }
    LocateAgree(KeyMap(pages), RidMap(pages), ps, g);
  }

  lemma RootHeight(pages: Pages, hdr: IndexHeader, levels: seq<seq<int>>, ht: Heights)
    requires Levelled(levels, ht) && Rooted(pages, levels, hdr.rootPage)
    ensures hdr.rootPage in ht && ht[hdr.rootPage] == |levels| - 1
    ensures forall p :: p in ht && ht[p] == |levels| - 1 ==> p == hdr.rootPage
  {
    var r := hdr.rootPage;
    assert r in levels[|levels| - 1];
    forall p | p in ht && ht[p] == |levels| - 1 ensures p == r {
      assert p in levels[ht[p]];
    }
  }

  /** Every live page but the root is a child of the page its header names as parent. */
  lemma ParentOf(pages: Pages, hdr: IndexHeader, levels: seq<seq<int>>, ht: Heights, p: int, orphans: set<int> := {})
    returns (i: nat)
    requires Shaped(pages, hdr, levels, ht, orphans) && p in ht && p != hdr.rootPage && p !in orphans
    ensures NodeOk(pages, ht, p)
    ensures var q := pages[p].parent;
            NodeOk(pages, ht, q) && ht[q] == ht[p] + 1 && i < |pages[q].rids| && pages[q].rids[i] == RecordID(p, -1)
  {
    RootHeight(pages, hdr, levels, ht);
    assert NodeOk(pages, ht, p);
    var l := ht[p];
    assert p in levels[l] && l < |levels| - 1;
    var j :| 0 <= j < |levels[l]| && levels[l][j] == p;
    assert Stack(RidMap(pages), levels, l + 1);
    var up := levels[l + 1];
    assert |Join(RidMap(pages), up)| == |levels[l]|;
    assert up != [];
    forall x | x in up ensures x in RidMap(pages) { assert x in ht; assert NodeOk(pages, ht, x); }
    LocateLookup(RidMap(pages), up, j);
    var (q, s) := Locate(RidMap(pages), up, j);
    assert q in ht;
    assert NodeOk(pages, ht, q);
    assert pages[q].rids[s].page == p;
    assert ChildOk(pages, ht, q, s, orphans);
    i := s;
  }

  /** A page has one rank among its parent's children. */
  lemma ChildRankUnique(pages: Pages, hdr: IndexHeader, levels: seq<seq<int>>, ht: Heights, q: int, i: nat, k: nat,
                        orphans: set<int> := {})
    requires Shaped(pages, hdr, levels, ht, orphans) && NodeOk(pages, ht, q) && ht[q] > 0
    requires i < k < |pages[q].rids|
    ensures pages[q].rids[i].page != pages[q].rids[k].page
  {
    var l := ht[q];
    assert q in levels[l];
    assert Stack(RidMap(pages), levels, l);
    var u, v := SplitAround(levels[l], q);
    forall x | x in levels[l] ensures x in RidMap(pages) { assert x in ht; assert NodeOk(pages, ht, x); }
    JoinConcat(RidMap(pages), u, [q] + v);
    JoinConcat(RidMap(pages), [q], v);
    JoinOne(RidMap(pages), q);
    assert u + ([q] + v) == levels[l];
    var a := |Join(RidMap(pages), u)|;
    assert levels[l - 1][a + i] == pages[q].rids[i].page;
    assert levels[l - 1][a + k] == pages[q].rids[k].page;
  }

  lemma SplitAround(ps: seq<int>, q: int) returns (u: seq<int>, v: seq<int>)
    requires q in ps && NoDup(ps)
    ensures ps == u + [q] + v && q !in u && q !in v
  {
    var j :| 0 <= j < |ps| && ps[j] == q;
    u, v := ps[..j], ps[j + 1..];
  }
}
