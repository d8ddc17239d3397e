/** The B+ tree operations on an index file. */
module IndexHandler {
  import opened Common
  import opened Seqs
  import opened KeyOrder
  import opened IndexPages
  import opened IndexNodes
  import opened IndexRegroup
  import opened IndexLinks
  import opened IndexSearch
  import opened IndexSteps
  import opened IndexInsert
  import opened IndexDelete

  class IndexHandle {
    const ord: KeyOrd
    var hdr: IndexHeader
    var pages: Pages
    ghost var sh: Shape

    ghost predicate Valid()
      reads this
    {
      var isValid := Lawful(ord) && WellFormed(pages, hdr, sh, {}) && Sorted(ord, LeafKeys(pages, sh));
      isValid
    }

    /** The entries of the index in leaf order. */
    ghost function Contents(): seq<Entry>
      reads this
      requires Valid()
    {
      ContentsAgree(pages, hdr, sh);
      Zip(LeafKeys(pages, sh), LeafRids(pages, sh))
    }

    /** Where the g-th entry is stored; the end position when g is the number of entries. */
    ghost function IdAt(g: nat): IndexID
      reads this
      requires |sh.levels| >= 1 && sh.levels[0] != []
    {
      var (p, s) := Locate(KeyMap(pages), sh.levels[0], g);
      IndexID(p, s)
    }

    /** A new index: the leaf header page and one empty root leaf. */
    constructor (ord: KeyOrd, order: int)
      requires Lawful(ord) && order > 2
      ensures Valid() && Contents() == [] && this.ord == ord && hdr == IndexHeader(-1, 3, 2, order, 2, 2)
      ensures pages == map[1 := Node(-1, -1, true, 2, 2, [], []), 2 := Node(-1, -1, true, 1, 1, [], [])]
    {
      this.ord := ord;
      hdr := NewHeader(order);
      pages := NewPages();
      sh := NewShape();
      new;
      NewIndexFile(order);
      JoinOne(KeyMap(pages), INIT_ROOT_PAGE);
      assert LeafKeys(pages, sh) == [];
    }

    /** The handle that open_index makes of the header and the pages of a file that holds a tree. */
    constructor Open(ord: KeyOrd, hdr: IndexHeader, pages: Pages, ghost sh: Shape)
      requires Lawful(ord) && WellFormed(pages, hdr, sh, {}) && Sorted(ord, LeafKeys(pages, sh))
      ensures Valid() && this.ord == ord && this.hdr == hdr && this.pages == pages && this.sh == sh
    {
      this.ord, this.hdr, this.pages, this.sh := ord, hdr, pages, sh;
    }

    // ----- search -----

    method LeafBegin() returns (iid: IndexID)
      requires Valid()
      ensures iid == IdAt(0)
    {
      iid := IndexID(hdr.firstLeaf, 0);
      if |sh.levels| > 1 {
        LevelNonEmpty(pages, hdr, sh, 0);
        var p := sh.levels[0][0];
        assert p in sh.levels[0];
      }
    }

    method LeafEnd() returns (iid: IndexID)
      requires Valid()
      ensures iid == IdAt(|LeafKeys(pages, sh)|)
    {
      var node := hdr.lastLeaf;
      forall p | p in sh.levels[0] ensures p in KeyMap(pages) { assert p in sh.ht && NodeOk(pages, sh.ht, p); }
      LocateEnd(KeyMap(pages), sh.levels[0]);
      iid := IndexID(node, |pages[node].keys|);
    }

    method SearchNode(node: int, target: Key, upper: bool) returns (slot: nat)
      requires Valid() && ord.valid(target) && node in sh.ht
      ensures node in pages && slot == CutIndex(ord, upper, target, pages[node].keys) && slot <= |pages[node].keys|
    {
      NodeSorted(ord, pages, hdr, sh, node);
      slot := NodeBound(ord, pages[node].keys, target, upper, true);
    }

    /** Follows the maximum keys down to the leaf where the bound of the target falls; found is false when some
        node on the way has no key past it, which means that no entry is. */
    method Descend(target: Key, upper: bool) returns (node: int, found: bool)
      requires Valid() && ord.valid(target)
      ensures !found ==> CutIndex(ord, upper, target, LeafKeys(pages, sh)) == |LeafKeys(pages, sh)|
      ensures found ==> node in sh.ht && sh.ht[node] == 0 && OnPath(ord, upper, target, pages, sh, 0, node)
    {
      hide WellFormed, Sorted, Lawful, OnPath, CutIndex;
      node := hdr.rootPage;
      RootReached(target, upper);
      while !pages[node].isLeaf
        invariant Reached(ord, upper, target, pages, sh, node)
        decreases sh.ht[node]
      {
        var keyIdx := SearchNode(node, target, upper);
        if keyIdx >= |pages[node].keys| {
          PathEnd(ord, upper, target, pages, hdr, sh, sh.ht[node], node);
          return node, false;
        }
        ReachChild(ord, upper, target, pages, hdr, sh, node);
        node := pages[node].rids[keyIdx].page;
      }
      found := true;
    }

    lemma RootReached(target: Key, upper: bool)
      requires Valid() && ord.valid(target)
      ensures Reached(ord, upper, target, pages, sh, hdr.rootPage)
    {
      RootHeight(pages, hdr, sh.levels, sh.ht);
      RootOnPath(ord, upper, target, pages, hdr, sh);
    }

    /** The common body of lower_bound and upper_bound. */
    method Bound(target: Key, upper: bool) returns (iid: IndexID)
      requires Valid() && ord.valid(target)
      ensures iid == IdAt(CutIndex(ord, upper, target, LeafKeys(pages, sh)))
    {
      var node, found := Descend(target, upper);
      if !found {
        iid := LeafEnd();
        return;
      }
      var slot := SearchNode(node, target, upper);
      if slot >= |pages[node].keys| {
        PathEnd(ord, upper, target, pages, hdr, sh, 0, node);
        RingNext(pages, sh.levels[0], hdr, |sh.levels[0]| - 1);
        var next := pages[node].nextLeaf;
        if next == LEAF_HEADER_PAGE || next == NO_PAGE {
          iid := LeafEnd();
        } else {
          assert false;
        }
      } else {
        iid := IndexID(node, slot);
      }
    }

    method LowerBound(target: Key) returns (iid: IndexID)
      requires Valid() && ord.valid(target)
      ensures iid == IdAt(CutIndex(ord, false, target, LeafKeys(pages, sh)))
    {
      iid := Bound(target, false);
    }

    method UpperBound(target: Key) returns (iid: IndexID)
      requires Valid() && ord.valid(target)
      ensures iid == IdAt(CutIndex(ord, true, target, LeafKeys(pages, sh)))
    {
      iid := Bound(target, true);
    }

    // ----- page allocation -----

    method CreateNode(ghost live: set<int>) returns (b: int)
      requires Partition(pages, hdr, live, sh.free)
      modifies this
      ensures b in pages && pages == old(pages)[b := pages[b]]
      ensures sh == old(sh).(free := sh.free)
      ensures hdr == old(hdr).(firstFree := hdr.firstFree, numPages := hdr.numPages)
      ensures Partition(pages, hdr, live + {b}, sh.free) && b !in live && b >= INIT_ROOT_PAGE
    {
      if hdr.firstFree == NO_PAGE {
        b := hdr.numPages;
        var raw: Node := *;
        pages := pages[b := raw];
        hdr := hdr.(numPages := hdr.numPages + 1);
      } else {
        FreeHead(pages, hdr, live, sh.free);
        b := hdr.firstFree;
        hdr := hdr.(firstFree := pages[b].nextFree);
      }
      ghost var free' := PartitionCreate(old(pages), pages, old(hdr), hdr, live, sh.free, b);
      sh := sh.(free := free');
    }

    method ReleaseNode(b: int, ghost live: set<int>)
      requires Partition(pages, hdr, live, sh.free) && b in live && b in pages
      modifies this
      ensures pages == old(pages)[b := old(pages)[b].(nextFree := old(hdr).firstFree)]
      ensures sh == old(sh).(free := [b] + old(sh).free)
      ensures hdr == old(hdr).(firstFree := b)
      ensures Partition(pages, hdr, live - {b}, sh.free)
    {
      pages := pages[b := pages[b].(nextFree := hdr.firstFree)];
      hdr := hdr.(firstFree := b);
      PartitionRelease(old(pages), pages, old(hdr), hdr, live, sh.free, b);
      sh := sh.(free := [b] + sh.free);
    }

    /** The rank of page c among the children of q. */
    method FindChild(q: int, c: int) returns (rank: nat)
      requires q in pages && exists k :: 0 <= k < |pages[q].rids| && pages[q].rids[k].page == c
      ensures rank < |pages[q].rids| && pages[q].rids[rank].page == c
      ensures forall k :: 0 <= k < rank ==> pages[q].rids[k].page != c
    {
      rank := 0;
      while rank < |pages[q].rids|
        invariant rank <= |pages[q].rids|
        invariant forall k :: 0 <= k < rank ==> pages[q].rids[k].page != c
      {
        if pages[q].rids[rank].page == c {
          return;
        }
        rank := rank + 1;
      }
    }

    // ----- maintain_parent and maintain_child -----

    /** Carries the largest key of page start up to the root. Only keys of inner pages change, and afterwards
        every inner key is the largest key of its child. */
    method MaintainParent(start: int, ghost orphans: set<int>)
      requires Shaped(pages, hdr, sh.levels, sh.ht, orphans) && start in sh.ht && start in pages
      requires Keyed(pages, sh.ht, {start, pages[start].parent})
      requires forall c :: c in orphans && c in sh.ht ==> sh.ht[c] < sh.ht[start]
      modifies this`pages
      ensures KeysOnly(old(pages), pages, sh.ht) && Keyed(pages, sh.ht, {})
      ensures Shaped(pages, hdr, sh.levels, sh.ht, orphans)
    {
      var curr := start;
      while pages[curr].parent != NO_PAGE
        invariant curr in sh.ht && curr in pages && sh.ht[start] <= sh.ht[curr] < |sh.levels|
        invariant Shaped(pages, hdr, sh.levels, sh.ht, orphans) && Keyed(pages, sh.ht, {curr, pages[curr].parent})
        invariant KeysOnly(old(pages), pages, sh.ht)
        decreases |sh.levels| - sh.ht[curr]
      {
        ghost var i := ParentOf(pages, hdr, sh.levels, sh.ht, curr, orphans);
        var parent := pages[curr].parent;
        RootHeight(pages, hdr, sh.levels, sh.ht);
        if |pages[curr].keys| == 0 {
          EmptyChildKeyed(pages, sh.ht, curr, parent);
          KeyedWeaken(pages, sh.ht, {parent}, {parent, pages[parent].parent});
          curr := parent;
          continue;
        }
        var rank := FindChild(parent, curr);
        var childMaxKey := Last(pages[curr].keys);
        if rank >= |pages[parent].keys| {
          assert false;
        } else {
          ghost var before := pages;
          if pages[parent].keys[rank] != childMaxKey {
            pages := pages[parent := pages[parent].(keys := pages[parent].keys[rank := childMaxKey])];
          }
          assert before[parent].keys[rank] == childMaxKey
            ==> before[parent].keys[rank := childMaxKey] == before[parent].keys;
          assert pages == before[parent := before[parent].(keys := before[parent].keys[rank := childMaxKey])];
          KeySetStep(before, pages, old(pages), hdr, sh, parent, rank, curr, orphans);
        }
        curr := parent;
      }
      RootHeight(pages, hdr, sh.levels, sh.ht);
      if curr != hdr.rootPage { ghost var i := ParentOf(pages, hdr, sh.levels, sh.ht, curr,
        orphans); LiveAboveHeader(pages, sh); }
      KeyedAtRoot(pages, hdr, sh.levels, sh.ht, orphans);
    }

    /** Makes inner page p the parent of its child at rank idx. */
    method MaintainChild(p: int, idx: nat)
      requires p in pages && idx < |pages[p].rids| && (!pages[p].isLeaf ==> pages[p].rids[idx].page in pages)
      modifies this`pages
      ensures pages == if old(pages)[p].isLeaf then old(pages)
                       else var c := old(pages)[p].rids[idx].page; old(pages)[c := old(pages)[c].(parent := p)]
    {
      if !pages[p].isLeaf {
        var child := pages[p].rids[idx].page;
        pages := pages[child := pages[child].(parent := p)];
      }
    }

    /** maintain_child for the children from rank lo on. */
    method MaintainChildren(p: int, lo: nat)
      requires p in pages && lo <= |pages[p].rids|
      requires !pages[p].isLeaf ==> forall c :: c in PagesOf(pages[p].rids[lo..]) ==> c in pages && c != p
      modifies this`pages
      ensures pages.Keys == old(pages).Keys
      ensures forall x :: x in pages ==>
        pages[x] == old(pages)[x].(parent :=
          if !old(pages)[p].isLeaf && x in PagesOf(old(pages)[p].rids[lo..]) then p else old(pages)[x].parent)
    {
      var i := lo;
      ghost var rs := pages[p].rids;
      ghost var kids := PagesOf(rs[lo..]);
      while i < |pages[p].rids|
        invariant lo <= i <= |rs| && pages.Keys == old(pages).Keys && pages[p] == old(pages)[p]
        invariant forall x :: x in pages ==>
          pages[x] == old(pages)[x].(parent :=
            if !old(pages)[p].isLeaf && x in kids[..i - lo] then p else old(pages)[x].parent)
      {
        assert kids[i - lo] == rs[i].page && kids[i - lo] in kids;
        assert kids[..i - lo + 1] == kids[..i - lo] + [kids[i - lo]];
        MaintainChild(p, i);
        i := i + 1;
      }
      assert kids[..|rs| - lo] == kids;
    }

    // ----- insert_entry -----

    /** Puts an entry into its leaf and, when it became the largest entry of all, carries its key upwards. */
    method InsertIntoLeaf(iid: IndexID, key: Key, rid: RecordID, ghost g: nat)
      requires WellFormed(pages, hdr, sh, {}) && g <= |LeafKeys(pages, sh)| && iid == IdAt(g)
      modifies this`pages
      ensures Tree(pages, hdr, sh) && Sized(pages, sh.ht, hdr, {iid.page})
      ensures iid.page in sh.ht && sh.ht[iid.page] == 0 && iid.page in pages && iid.page in old(pages)
      ensures |pages[iid.page].rids| == |old(pages)[iid.page].rids| + 1
      ensures LeafKeys(pages, sh) == InsertAt(old(LeafKeys(pages, sh)), g, [key])
      ensures g <= old(|LeafRids(pages, sh)|) && LeafRids(pages, sh) == InsertAt(old(LeafRids(pages, sh)), g, [rid])
    {
      hide Partition, Keyed, Stacked, Linked, Levelled;
      var p, slot := iid.page, iid.slot;
      ghost var was := pages;
      assert (p, slot) == Locate(KeyMap(pages), sh.levels[0], g);
      LocatedLeaf(pages, hdr, sh, g);
      pages := pages[p := pages[p].(keys := InsertAt(pages[p].keys, slot, [key]))];
      pages := pages[p := pages[p].(rids := InsertAt(pages[p].rids, slot, [rid]))];
      LeafInsertContents(was, pages, sh, g, p, slot, key, rid);
      LeafEditShaped(was, pages, hdr, sh.levels, sh.ht, p);
      LeafEditKeyed(was, pages, sh.ht, p);
      LeafEditFrame(was, pages, hdr, sh, p, {});
      if p == hdr.lastLeaf && slot == |pages[p].keys| - 1 {
        ghost var edited := pages;
        KeyedWeaken(pages, sh.ht, {p}, {p, pages[p].parent});
        MaintainParent(p, {});
        KeysOnlyTree(edited, pages, hdr, sh);
        KeysOnlySized(edited, pages, hdr, sh.ht, {p});
        KeysOnlyContents(edited, pages, sh);
      }
    }

    /** A new root above the overfull old one. */
    method GrowRoot(p: int)
      requires Tree(pages, hdr, sh) && Sized(pages, sh.ht, hdr, {p}) && p == hdr.rootPage && p in pages
      requires pages[p].keys != []
      modifies this
      ensures Tree(pages, hdr, sh) && p in sh.ht && p in pages && SameBody(pages[p], old(pages)[p])
      ensures hdr.order == old(hdr).order && hdr.rootPage != p && pages[p].parent == hdr.rootPage
      ensures sh.levels == old(sh).levels + [[hdr.rootPage]] && sh.ht[p] == |sh.levels| - 2
      ensures Sized(pages, sh.ht, hdr, {p, hdr.rootPage}) && hdr.rootPage in pages && |pages[hdr.rootPage].rids| == 1
      ensures LeafKeys(pages, sh) == old(LeafKeys(pages, sh)) && LeafRids(pages, sh) == old(LeafRids(pages, sh))
    {
      hide Shaped, Keyed, Ringed, Partition, Sized, KeyMap, RidMap;
      ghost var was, wasHdr, wasSh := pages, hdr, sh;
      GrowFrom(p);
      var root := CreateNode(sh.ht.Keys);
      ghost var mid, midHdr := pages, hdr;
      pages := pages[root := Node(NO_PAGE, NO_PAGE, false, NO_PAGE, NO_PAGE, [], [])];
      pages := pages[root := pages[root].(rids := InsertAt(pages[root].rids, 0, [RecordID(p, -1)]))];
      pages := pages[root := pages[root].(keys := InsertAt(pages[root].keys, 0, [Last(pages[p].keys)]))];
      pages := pages[p := pages[p].(parent := root)];
      hdr := hdr.(rootPage := root);
      sh := sh.(levels := sh.levels + [[root]], ht := sh.ht[root := |sh.levels|]);
      assert GrowStep(was, pages, wasSh.ht, p, root);
      GrowTree(was, wasHdr, wasSh, mid, midHdr, sh.free, pages, hdr, sh, p, root);
    }

    lemma GrowFrom(p: int)
      requires Tree(pages, hdr, sh) && p == hdr.rootPage
      ensures p in sh.ht && sh.ht[p] == |sh.levels| - 1 && Partition(pages, hdr, sh.ht.Keys, sh.free)
    {
      RootHeight(pages, hdr, sh.levels, sh.ht);
    }

    /** Allocates the brother of p and, for a leaf, links it in after p. */
    method NewBrother(p: int) returns (b: int)
      requires Partition(pages, hdr, sh.ht.Keys, sh.free) && p in sh.ht && p in pages && p >= INIT_ROOT_PAGE
      requires LeafNextOk(pages, sh, p)
      modifies this
      ensures b !in sh.ht && b >= INIT_ROOT_PAGE && b in pages && pages.Keys == old(pages).Keys + {b}
      ensures BrotherMade(old(pages), pages, p, b)
      ensures sh == old(sh).(free := sh.free)
      ensures hdr == old(hdr).(firstFree := hdr.firstFree, numPages := hdr.numPages)
      ensures Partition(pages, hdr, sh.ht.Keys + {b}, sh.free)
    {
      hide Partition, BrotherMade;
      b := CreateNode(sh.ht.Keys);
      ghost var mid := pages;
      pages := pages[b := Node(NO_PAGE, pages[p].parent, pages[p].isLeaf, NO_PAGE, NO_PAGE, [], [])];
      if pages[b].isLeaf {
        var next := pages[p].nextLeaf;
        pages := pages[b := pages[b].(nextLeaf := next, prevLeaf := p)];
        pages := pages[next := pages[next].(prevLeaf := b)];
        pages := pages[p := pages[p].(nextLeaf := b)];
      }
      BrotherUpdates(old(pages), mid, pages, p, b);
      LiveNotFree(mid, hdr, sh.ht.Keys + {b}, sh.free, b);
      PartitionFrame(mid, pages, hdr, hdr, sh.ht.Keys + {b}, sh.free);
    }

    /** Moves the slots of p from splitIdx on to its empty brother b, together with the children below them. */
    method MoveUpperHalf(p: int, b: int, splitIdx: nat)
      requires p in pages && b in pages && p != b && |pages[p].keys| == |pages[p].rids| && splitIdx <= |pages[p].rids|
      requires pages[b].keys == [] && pages[b].rids == [] && pages[b].isLeaf == pages[p].isLeaf
      requires !pages[p].isLeaf ==> forall c :: c in PagesOf(pages[p].rids[splitIdx..]) ==>
        c in pages && c != p && c != b
      modifies this`pages
      ensures UpperMoved(old(pages), pages, p, b, splitIdx)
    {
      var numTransfer := |pages[p].keys| - splitIdx;
      pages := pages[b := pages[b].(keys := InsertAt(pages[b].keys, 0,
        pages[p].keys[splitIdx..splitIdx + numTransfer]))];
      pages := pages[b := pages[b].(rids := InsertAt(pages[b].rids, 0,
        pages[p].rids[splitIdx..splitIdx + numTransfer]))];
      pages := pages[p := pages[p].(keys := pages[p].keys[..splitIdx], rids := pages[p].rids[..splitIdx])];
      assert pages[b].keys == old(pages)[p].keys[splitIdx..] && pages[b].rids == old(pages)[p].rids[splitIdx..];
      assert pages[b].rids[0..] == pages[b].rids;
      assert !pages[b].isLeaf ==> p !in PagesOf(pages[b].rids) && b !in PagesOf(pages[b].rids);
      MaintainChildren(b, 0);
    }

    /** Enters brother b after p in their parent and keeps last_leaf up to date. */
    method AttachBrother(p: int, b: int, popupKey: Key) returns (q: int, ghost i: nat)
      requires p in pages && pages[p].parent in pages && pages[p].parent != p
      requires exists k :: 0 <= k < |pages[pages[p].parent].rids| && pages[pages[p].parent].rids[k].page == p
      requires |pages[pages[p].parent].keys| == |pages[pages[p].parent].rids|
      modifies this`pages, this`hdr
      ensures q == old(pages)[p].parent && i < |old(pages)[q].rids| && old(pages)[q].rids[i].page == p
      ensures pages == old(pages)[q := old(pages)[q].(keys := InsertAt(old(pages)[q].keys, i, [popupKey]),
                                                      rids := InsertAt(old(pages)[q].rids, i + 1, [RecordID(b, -1)]))]
      ensures hdr == old(hdr).(lastLeaf := if old(hdr).lastLeaf == p then b else old(hdr).lastLeaf)
    {
      q := pages[p].parent;
      var childIdx := FindChild(q, p);
      pages := pages[q := pages[q].(keys := InsertAt(pages[q].keys, childIdx, [popupKey]))];
      pages := pages[q := pages[q].(rids := InsertAt(pages[q].rids, childIdx + 1, [RecordID(b, -1)]))];
      if hdr.lastLeaf == p {
        hdr := hdr.(lastLeaf := b);
      }
      i := childIdx;
    }

    /** The page updates of a split; the ghost results are the states between its three parts. */
    method SplitPages(p: int)
      returns (q: int, ghost bro: int, ghost i: nat, ghost mid: Pages, ghost midHdr: IndexHeader, ghost moved: Pages)
      requires Partition(pages, hdr, sh.ht.Keys, sh.free) && p in sh.ht && p in pages
      requires SplittablePage(pages, hdr, sh, p)
      modifies this
      ensures bro !in sh.ht && bro >= INIT_ROOT_PAGE && Partition(mid, midHdr, sh.ht.Keys + {bro}, sh.free)
      ensures sh == old(sh).(free := sh.free) && q == old(pages)[p].parent && q in old(pages) && p in old(pages)
      ensures BrotherMade(old(pages), mid, p, bro) && UpperMoved(mid, moved, p, bro, |old(pages)[p].rids| / 2)
      ensures i < |old(pages)[q].rids| && old(pages)[q].rids[i].page == p && q in moved
      ensures i < |moved[q].keys| && i < |moved[q].rids| && 0 < |old(pages)[p].rids| / 2 <= |old(pages)[p].keys|
      ensures pages == moved[q := moved[q].(keys := InsertAt(moved[q].keys, i,
        [old(pages)[p].keys[|old(pages)[p].rids| / 2 - 1]]),
                                            rids := InsertAt(moved[q].rids, i + 1, [RecordID(bro, -1)]))]
      ensures hdr == old(hdr).(firstFree := midHdr.firstFree, numPages := midHdr.numPages,
                               lastLeaf := if old(hdr).lastLeaf == p then bro else old(hdr).lastLeaf)
    {
      ghost var was := pages;
      var b := NewBrother(p);
      bro, mid, midHdr := b, pages, hdr;
      var splitIdx := |pages[p].rids| / 2;
      MoveUpperHalf(p, b, splitIdx);
      moved := pages;
      var popupKey := pages[p].keys[splitIdx - 1];
      ghost var k := ParentRank(was, p);
      assert pages[pages[p].parent].rids[k].page == p;
      q, i := AttachBrother(p, b, popupKey);
    }

    /** Splits the overfull page p, which is not the root, and returns its parent. */
    method SplitNode(p: int) returns (q: int)
      requires Tree(pages, hdr, sh) && p in sh.ht && p != hdr.rootPage && p in pages
      requires |pages[p].rids| == hdr.order + 1 && Sized(pages, sh.ht, hdr, {p, pages[p].parent})
      modifies this
      ensures q == old(pages)[p].parent && q in sh.ht && q in pages && q in old(pages) && sh.ht[q] == old(sh).ht[p] + 1
      ensures |pages[q].rids| == |old(pages)[q].rids| + 1 && pages[q].isLeaf == old(pages)[q].isLeaf
      ensures Tree(pages, hdr, sh) && Sized(pages, sh.ht, hdr, {q}) && |sh.levels| == |old(sh).levels|
      ensures hdr.order == old(hdr).order && hdr.rootPage == old(hdr).rootPage
      ensures LeafKeys(pages, sh) == old(LeafKeys(pages, sh)) && LeafRids(pages, sh) == old(LeafRids(pages, sh))
    {
      hide Shaped, Partition, Keyed, Sized, Join, KeyMap, RidMap, LeafKeys, LeafRids;
      ghost var was, wasHdr, wasSh := pages, hdr, sh;
      ghost var k := ParentOf(pages, hdr, sh.levels, sh.ht, p);
      SplitReady(pages, hdr, sh, p, k);
      ghost var bro, i, mid, midHdr, moved;
      q, bro, i, mid, midHdr, moved := SplitPages(p);
      sh := SplitFinish(was, wasHdr, wasSh, mid, midHdr, sh.free, moved, pages, hdr, p, bro, q, i, k,
        (wasHdr.order + 1) / 2);
    }

    /** The multimap insertion: the entry goes after all entries whose key is not larger. */
    method InsertEntry(key: Key, rid: RecordID)
      requires Valid() && ord.valid(key)
      modifies this
      ensures Valid() && hdr.order == old(hdr).order
      ensures Contents() == Inserted(ord, old(Contents()), Entry(key, rid))
    {
      ghost var ks, rs := LeafKeys(pages, sh), LeafRids(pages, sh);
      ghost var g := CutIndex(ord, true, key, ks);
      ContentsAgree(pages, hdr, sh);
      var iid := UpperBound(key);
      AddEntry(iid, key, rid, g);
      SortedInsert(ord, ks, key);
      InsertedZip(ord, ks, rs, key, rid, g);
    }

    method AddEntry(iid: IndexID, key: Key, rid: RecordID, ghost g: nat)
      requires WellFormed(pages, hdr, sh, {}) && g <= |LeafKeys(pages, sh)| && iid == IdAt(g)
      modifies this
      ensures WellFormed(pages, hdr, sh, {}) && hdr.order == old(hdr).order
      ensures LeafKeys(pages, sh) == InsertAt(old(LeafKeys(pages, sh)), g, [key])
      ensures g <= old(|LeafRids(pages, sh)|) && LeafRids(pages, sh) == InsertAt(old(LeafRids(pages, sh)), g, [rid])
    {
      InsertIntoLeaf(iid, key, rid, g);
      LeafSizeBound(old(pages), pages, hdr, sh, iid.page);
      ResolveOverflow(iid.page);
    }

    /** Splits overfull pages from p upwards until none is left. */
    method ResolveOverflow(p: int)
      requires Tree(pages, hdr, sh) && Sized(pages, sh.ht, hdr, {p}) && Overfull(pages, hdr, sh, p)
      modifies this
      ensures WellFormed(pages, hdr, sh, {}) && hdr.order == old(hdr).order
      ensures LeafKeys(pages, sh) == old(LeafKeys(pages, sh)) && LeafRids(pages, sh) == old(LeafRids(pages, sh))
    {
      var node := p;
      while |pages[node].rids| > hdr.order
        invariant Tree(pages, hdr, sh) && Sized(pages, sh.ht, hdr, {node}) && Overfull(pages, hdr, sh, node)
        invariant hdr.order == old(hdr).order
        invariant LeafKeys(pages, sh) == old(LeafKeys(pages, sh)) && LeafRids(pages, sh) == old(LeafRids(pages, sh))
        decreases if |pages[node].rids| > hdr.order then |sh.levels| - sh.ht[node] + 1 else 0
      {
        RootIff(pages, hdr, sh, node);
        node := SplitUp(node);
        RootIff(pages, hdr, sh, node);
      }
      OverfullSettled(pages, hdr, sh, node);
    }

    /** One turn of the overflow loop: a new root when the page is the root, then the split; returns the parent. */
    method SplitUp(p: int) returns (q: int)
      requires Tree(pages, hdr, sh) && Sized(pages, sh.ht, hdr, {p}) && Overfull(pages, hdr, sh, p)
      requires |pages[p].rids| > hdr.order
      modifies this
      ensures Tree(pages, hdr, sh) && Sized(pages, sh.ht, hdr, {q}) && Overfull(pages, hdr, sh, q)
      ensures hdr.order == old(hdr).order
      ensures LeafKeys(pages, sh) == old(LeafKeys(pages, sh)) && LeafRids(pages, sh) == old(LeafRids(pages, sh))
      ensures |pages[q].rids| > hdr.order ==> |sh.levels| - sh.ht[q] < |old(sh).levels| - old(sh).ht[p]
    {
      RootIff(pages, hdr, sh, p);
      if pages[p].parent == NO_PAGE {
        GrowRoot(p);
      } else {
        ParentSized(pages, hdr, sh, p);
      }
      q := SplitNode(p);
    }

    // ----- delete_entry -----

    /** Takes an entry out of its leaf and carries the leaf's largest key upwards. */
    method RemoveFromLeaf(iid: IndexID, ghost g: nat)
      requires WellFormed(pages, hdr, sh, {}) && g < |LeafKeys(pages, sh)| && iid == IdAt(g)
      modifies this`pages
      ensures Tree(pages, hdr, sh) && Sized(pages, sh.ht, hdr, {iid.page}) && Underfull(pages, hdr, sh, iid.page)
      ensures LeafKeys(pages, sh) == RemoveAt(old(LeafKeys(pages, sh)), g)
      ensures g < old(|LeafRids(pages, sh)|) && LeafRids(pages, sh) == RemoveAt(old(LeafRids(pages, sh)), g)
    {
      var p, slot := iid.page, iid.slot;
      ghost var was := pages;
      assert (p, slot) == Locate(KeyMap(pages), sh.levels[0], g);
      LocatedLeaf(pages, hdr, sh, g);
      pages := pages[p := pages[p].(keys := RemoveAt(pages[p].keys, slot))];
      pages := pages[p := pages[p].(rids := RemoveAt(pages[p].rids, slot))];
      LeafRemoveContents(was, pages, sh, g, p, slot);
      LeafEditShaped(was, pages, hdr, sh.levels, sh.ht, p);
      LeafEditKeyed(was, pages, sh.ht, p);
      LeafEditFrame(was, pages, hdr, sh, p, {});
      ghost var edited := pages;
      KeyedWeaken(pages, sh.ht, {p}, {p, pages[p].parent});
      MaintainParent(p, {});
      KeysOnlyTree(edited, pages, hdr, sh);
      KeysOnlySized(edited, pages, hdr, sh.ht, {p});
      KeysOnlyContents(edited, pages, sh);
      LeafShrunk(was, pages, hdr, sh, p);
    }

    /** Moves the last slot of x, the left neighbour, to the front of y. */
    method BorrowFromLeft(x: int, y: int, ghost q: int, ghost i: nat)
      requires Tree(pages, hdr, sh) && Neighbours(pages, sh.ht, x, y, q, i) && Sized(pages, sh.ht, hdr, {y})
      requires x != hdr.rootPage && y != hdr.rootPage
      requires |pages[y].rids| == MinChildren(hdr.order) - 1 && |pages[x].rids| > MinChildren(hdr.order)
      modifies this`pages
      ensures WellFormed(pages, hdr, sh, {})
      ensures LeafKeys(pages, sh) == old(LeafKeys(pages, sh)) && LeafRids(pages, sh) == old(LeafRids(pages, sh))
    {
      hide WellFormed, LeafKeys, LeafRids, BorrowStep, Sized, Partition;
      ghost var was := pages;
      pages := pages[y := pages[y].(keys := InsertAt(pages[y].keys, 0, [Last(pages[x].keys)]))];
      pages := pages[y := pages[y].(rids := InsertAt(pages[y].rids, 0, [Last(pages[x].rids)]))];
      pages := pages[x := pages[x].(keys := RemoveAt(pages[x].keys, |pages[x].keys| - 1))];
      pages := pages[x := pages[x].(rids := RemoveAt(pages[x].rids, |pages[x].rids| - 1))];
      ghost var p1 := pages;
      BorrowLeftStep(was, p1, sh.ht, x, y, q, i);
      BorrowShape(was, p1, hdr, sh, x, y, q, i, true);
      BorrowHeights(was, sh.ht, x, y, true);
      MaintainParent(x, BorrowOrphans(was, sh.ht, x, y, true));
      ghost var p2 := pages;
      MaintainChild(y, 0);
      BorrowFinish(was, p1, p2, pages, hdr, sh, x, y, q, i, true);
    }

    /** Moves the first slot of y, the right neighbour, to the end of x. */
    method BorrowFromRight(x: int, y: int, ghost q: int, ghost i: nat)
      requires Tree(pages, hdr, sh) && Neighbours(pages, sh.ht, x, y, q, i) && Sized(pages, sh.ht, hdr, {x})
      requires x != hdr.rootPage && y != hdr.rootPage
      requires |pages[x].rids| == MinChildren(hdr.order) - 1 && |pages[y].rids| > MinChildren(hdr.order)
      modifies this`pages
      ensures WellFormed(pages, hdr, sh, {})
      ensures LeafKeys(pages, sh) == old(LeafKeys(pages, sh)) && LeafRids(pages, sh) == old(LeafRids(pages, sh))
    {
      hide WellFormed, LeafKeys, LeafRids, BorrowStep, Sized, Partition;
      ghost var was := pages;
      pages := pages[x := pages[x].(keys := InsertAt(pages[x].keys, |pages[x].keys|, [pages[y].keys[0]]))];
      pages := pages[x := pages[x].(rids := InsertAt(pages[x].rids, |pages[x].rids|, [pages[y].rids[0]]))];
      pages := pages[y := pages[y].(keys := RemoveAt(pages[y].keys, 0))];
      pages := pages[y := pages[y].(rids := RemoveAt(pages[y].rids, 0))];
      ghost var p1 := pages;
      BorrowRightStep(was, p1, sh.ht, x, y, q, i);
      BorrowShape(was, p1, hdr, sh, x, y, q, i, false);
      BorrowHeights(was, sh.ht, x, y, false);
      MaintainParent(x, BorrowOrphans(was, sh.ht, x, y, false));
      ghost var p2 := pages;
      MaintainChild(x, |pages[x].rids| - 1);
      BorrowFinish(was, p1, p2, pages, hdr, sh, x, y, q, i, false);
    }

    /** Takes leaf y out of the leaf ring. */
    method EraseLeaf(y: int)
      requires y in pages && pages[y].isLeaf && pages[y].prevLeaf in pages && pages[y].nextLeaf in pages
      requires pages[y].prevLeaf != y
      modifies this`pages
      ensures LinksOnly(old(pages), pages)
      ensures old(pages)[y].nextLeaf != y ==> Unlinked(old(pages), pages, old(pages)[y].prevLeaf, y)
    {
      var prev, next := pages[y].prevLeaf, pages[y].nextLeaf;
      pages := pages[prev := pages[prev].(nextLeaf := next)];
      pages := pages[next := pages[next].(prevLeaf := pages[y].prevLeaf)];
    }

    /** Appends the slots of y to its left neighbour x, together with the children below them. */
    method AppendSlots(x: int, y: int)
      requires x in pages && y in pages && x != y && pages[x].isLeaf == pages[y].isLeaf
      requires !pages[y].isLeaf ==> forall c :: c in PagesOf(pages[y].rids) ==> c in pages && c != x && c != y
      modifies this`pages
      ensures Appended(old(pages), pages, x, y)
    {
      ghost var was := pages;
      pages := pages[x := pages[x].(keys := InsertAt(pages[x].keys, |pages[x].keys|, pages[y].keys))];
      pages := pages[x := pages[x].(rids := InsertAt(pages[x].rids, |pages[x].rids|, pages[y].rids))];
      assert pages[x].keys == was[x].keys + was[y].keys && pages[x].rids == was[x].rids + was[y].rids;
      var lo := |pages[x].rids| - |pages[y].rids|;
      assert pages[x].rids[lo..] == was[y].rids;
      MaintainChildren(x, lo);
    }

    /** Merges y into its left neighbour x and drops the key at keyAt from their parent: the key of y when y was
        short, the old key of x when x was. */
    method MergeNeighbours(x: int, y: int, q: int, i: nat, keyAt: nat, ghost short: int)
      requires Tree(pages, hdr, sh) && Neighbours(pages, sh.ht, x, y, q, i) && Sized(pages, sh.ht, hdr, {short})
      requires (short == x && keyAt == i) || (short == y && keyAt == i + 1)
      requires x != hdr.rootPage && y != hdr.rootPage
      requires |pages[short].rids| == MinChildren(hdr.order) - 1
      requires |pages[if short == x then y else x].rids| <= MinChildren(hdr.order)
      modifies this
      ensures Tree(pages, hdr, sh) && Sized(pages, sh.ht, hdr, {q}) && Underfull(pages, hdr, sh, q)
      ensures hdr.order == old(hdr).order && hdr.rootPage == old(hdr).rootPage
      ensures |sh.levels| == |old(sh).levels| && sh.ht[q] == old(sh).ht[q]
      ensures LeafKeys(pages, sh) == old(LeafKeys(pages, sh)) && LeafRids(pages, sh) == old(LeafRids(pages, sh))
    {
      ghost var was, wasHdr, wasSh := pages, hdr, sh;
      ghost var p1, a, b := MergePages(x, y, q, i, keyAt);
      ghost var p2, sh1 := pages, sh;
      MergeSized(was, p1, hdr, wasSh, x, y, q, i, keyAt, short);
      MergeReady(was, p1, p2, wasHdr, wasSh, sh1, a, b, x, y);
      ghost var p3, hdr3 := DetachPage(x, y, wasSh.ht.Keys);
      MergeFinish(was, p1, p2, p3, pages, wasHdr, hdr3, hdr, wasSh, sh1, sh, a, b, x, y, q);
      assert |p1[q].rids| == |p2[q].rids| == |pages[q].rids|;
    }

    /** The part of a merge up to maintain_parent; p1 is the page map before that call. */
    method MergePages(x: int, y: int, q: int, i: nat, keyAt: nat) returns (ghost p1: Pages, ghost a: seq<int>,
                      ghost b: seq<int>)
      requires Tree(pages, hdr, sh) && Neighbours(pages, sh.ht, x, y, q, i) && (keyAt == i || keyAt == i + 1)
      modifies this`pages, this`sh
      ensures MergeStep(old(pages), p1, old(sh).ht, x, y, q, i, keyAt) && SameLinksAll(old(pages), p1)
      ensures forall z :: z in old(pages) ==> z in p1 && p1[z].nextFree == old(pages)[z].nextFree
      ensures y in p1 && y in old(pages) && p1[y].isLeaf == old(pages)[y].isLeaf
      ensures sh.ht == old(sh).ht - {y} && sh.free == old(sh).free
      ensures old(sh).ht[x] < |old(sh).levels| - 1 && old(sh).levels[old(sh).ht[x]] == a + [x, y] + b
      ensures sh.levels == old(sh).levels[old(sh).ht[x] := a + [x] + b]
      ensures LeafKeys(p1, sh) == old(LeafKeys(pages, sh)) && LeafRids(p1, sh) == old(LeafRids(pages, sh))
      ensures Shaped(p1, hdr, sh.levels, sh.ht) && Shaped(pages, hdr, sh.levels, sh.ht)
      ensures KeysOnly(p1, pages, sh.ht) && Keyed(pages, sh.ht, {})
    {
      hide Tree, Sized, WellFormed, LeafKeys, LeafRids;
      ghost var was, wasSh := pages, sh;
      AppendKids(pages, hdr, sh, x, y, q, i);
      AppendSlots(x, y);
      ghost var mid := pages;
      pages := pages[q := pages[q].(keys := RemoveAt(pages[q].keys, keyAt))];
      pages := pages[q := pages[q].(rids := RemoveAt(pages[q].rids, i + 1))];
      p1 := pages;
      MergeAssembled(was, mid, p1, hdr, wasSh, x, y, q, i, keyAt);
      sh, a, b := MergeShape(was, p1, hdr, wasSh, x, y, q, i, keyAt);
      MaintainParent(x, {});
    }

    /** The end of a merge: y leaves the leaf ring, stops being the last leaf and becomes a free page. */
    method DetachPage(x: int, y: int, ghost live: set<int>) returns (ghost p3: Pages, ghost hdr3: IndexHeader)
      requires y in pages && y in live && Partition(pages, hdr, live, sh.free)
      requires pages[y].isLeaf ==>
        pages[y].prevLeaf == x && x in pages && x != y && pages[y].nextLeaf in pages && pages[y].nextLeaf != y
      modifies this
      ensures LinksOnly(old(pages), p3)
      ensures if old(pages)[y].isLeaf then Unlinked(old(pages), p3, x, y) else p3 == old(pages)
      ensures hdr3 == old(hdr).(lastLeaf := if old(hdr).lastLeaf == y then x else old(hdr).lastLeaf)
      ensures y in pages && pages == p3[y := pages[y]] && hdr == hdr3.(firstFree := hdr.firstFree)
      ensures sh == old(sh).(free := sh.free) && Partition(pages, hdr, live - {y}, sh.free)
    {
      if pages[y].isLeaf {
        EraseLeaf(y);
      }
      p3 := pages;
      if hdr.lastLeaf == y {
        hdr := hdr.(lastLeaf := x);
      }
      hdr3 := hdr;
      PartitionFrame(old(pages), p3, old(hdr), hdr, live, sh.free);
      ReleaseNode(y, live);
    }

    /** Makes the only child of the root the new root. */
    method ShrinkRoot(r: int)
      requires Tree(pages, hdr, sh) && Sized(pages, sh.ht, hdr, {r}) && r == hdr.rootPage
      requires r in sh.ht && r in pages && !pages[r].isLeaf && |pages[r].rids| == 1
      modifies this
      ensures WellFormed(pages, hdr, sh, {}) && hdr.order == old(hdr).order
      ensures LeafKeys(pages, sh) == old(LeafKeys(pages, sh)) && LeafRids(pages, sh) == old(LeafRids(pages, sh))
    {
      ghost var was, wasHdr, wasSh := pages, hdr, sh;
      RootChild(pages, hdr, sh, r);
      var newRoot := pages[r].rids[0].page;
      pages := pages[newRoot := pages[newRoot].(parent := NO_PAGE)];
      hdr := hdr.(rootPage := newRoot);
      PartitionFrame(was, pages, wasHdr, hdr, sh.ht.Keys, sh.free);
      ReleaseNode(r, sh.ht.Keys);
      sh := ShrinkTree(was, pages, wasHdr, hdr, wasSh, sh.free, r, newRoot);
    }

    /** Borrows or merges from page p upwards until no page is short. */
    method ResolveUnderflow(p: int)
      requires Tree(pages, hdr, sh) && Sized(pages, sh.ht, hdr, {p}) && Underfull(pages, hdr, sh, p)
      modifies this
      ensures WellFormed(pages, hdr, sh, {}) && hdr.order == old(hdr).order
      ensures LeafKeys(pages, sh) == old(LeafKeys(pages, sh)) && LeafRids(pages, sh) == old(LeafRids(pages, sh))
    {
      var node := p;
      RootIff(pages, hdr, sh, node);
      while |pages[node].rids| < MinChildren(hdr.order)
        invariant Tree(pages, hdr, sh) && Sized(pages, sh.ht, hdr, {node}) && Underfull(pages, hdr, sh, node)
        invariant hdr.order == old(hdr).order && sh.ht[node] < |sh.levels|
        invariant LeafKeys(pages, sh) == old(LeafKeys(pages, sh)) && LeafRids(pages, sh) == old(LeafRids(pages, sh))
        decreases |sh.levels| - sh.ht[node]
      {
        RootIff(pages, hdr, sh, node);
        if pages[node].parent == NO_PAGE {
          if !pages[node].isLeaf && |pages[node].keys| <= 1 {
            ShrinkRoot(node);
          } else {
            UnderfullSettled(pages, hdr, sh, node);
          }
          return;
        }
        var done, parent := FixUnderflow(node);
        if done {
          return;
        }
        node := parent;
      }
      RootIff(pages, hdr, sh, node);
      UnderfullSettled(pages, hdr, sh, node);
    }

    /** One turn of the underflow loop at a page that is not the root: borrow from the left neighbour if it is
        rich, else from the right one if that is, else merge with the left one if there is one, else with the right. */
    method FixUnderflow(node: int) returns (done: bool, parent: int)
      requires Tree(pages, hdr, sh) && Sized(pages, sh.ht, hdr, {node}) && Underfull(pages, hdr, sh, node)
      requires node != hdr.rootPage && |pages[node].rids| < MinChildren(hdr.order)
      modifies this
      ensures hdr.order == old(hdr).order
      ensures done ==> WellFormed(pages, hdr, sh, {})
      ensures done <==> RichBrother(old(pages), old(hdr), old(pages)[node].parent, node)
      ensures !done ==> Tree(pages, hdr, sh) && Sized(pages, sh.ht, hdr, {parent}) && Underfull(pages, hdr, sh, parent)
      ensures !done ==> |sh.levels| == |old(sh).levels| && sh.ht[parent] == old(sh).ht[node] + 1 < |sh.levels|
      ensures LeafKeys(pages, sh) == old(LeafKeys(pages, sh)) && LeafRids(pages, sh) == old(LeafRids(pages, sh))
    {
      parent := pages[node].parent;
      ghost var k := ParentOf(pages, hdr, sh.levels, sh.ht, node);
      var childIdx := FindChild(parent, node);
      SplitRank(pages, hdr, sh, parent, childIdx, k);
      UnderflowFacts(pages, hdr, sh, node, parent, childIdx);
      RichIff(node, parent, childIdx);
      if 0 < childIdx {
        var bro := pages[parent].rids[childIdx - 1].page;
        if |pages[bro].rids| > MinChildren(hdr.order) {
          BorrowFromLeft(bro, node, parent, childIdx - 1);
          return true, parent;
        }
      }
      if childIdx + 1 < |pages[parent].rids| {
        var bro := pages[parent].rids[childIdx + 1].page;
        if |pages[bro].rids| > MinChildren(hdr.order) {
          BorrowFromRight(node, bro, parent, childIdx);
          return true, parent;
        }
      }
      if 0 < childIdx {
        var bro := pages[parent].rids[childIdx - 1].page;
        MergeNeighbours(bro, node, parent, childIdx - 1, childIdx, node);
      } else {
        var bro := pages[parent].rids[childIdx + 1].page;
        MergeNeighbours(node, bro, parent, childIdx, childIdx, node);
      }
      done := false;
    }

    lemma RichIff(node: int, q: int, i: nat)
      requires Tree(pages, hdr, sh) && NodeOk(pages, sh.ht, q) && sh.ht[q] > 0
      requires i < |pages[q].rids| && pages[q].rids[i].page == node
      ensures RichBrother(pages, hdr, q, node) <==> RichAt(pages, hdr, q, i - 1) || RichAt(pages, hdr, q, i + 1)
    {
      assert RankOf(pages, q, node, i);
      forall k: nat | RankOf(pages, q, node, k) ensures k == i { SplitRank(pages, hdr, sh, q, i, k); }
    }

    method RemoveEntry(iid: IndexID, ghost g: nat)
      requires WellFormed(pages, hdr, sh, {}) && g < |LeafKeys(pages, sh)| && iid == IdAt(g)
      modifies this
      ensures WellFormed(pages, hdr, sh, {}) && hdr.order == old(hdr).order
      ensures LeafKeys(pages, sh) == RemoveAt(old(LeafKeys(pages, sh)), g)
      ensures g < old(|LeafRids(pages, sh)|) && LeafRids(pages, sh) == RemoveAt(old(LeafRids(pages, sh)), g)
    {
      RemoveFromLeaf(iid, g);
      ResolveUnderflow(iid.page);
    }

    /** The record id of the entry at a position; none (IndexEntryNotFoundError) at the end position. */
    method GetRecordId(iid: IndexID, ghost g: nat) returns (r: Option<RecordID>)
      requires Valid() && g <= |Contents()| && iid == IdAt(g)
      ensures r == if g < |Contents()| then Some(Contents()[g].rid) else None
    {
      LocatedLeaf(pages, hdr, sh, g);
      LocatedRid(pages, hdr, sh, g);
      assert (iid.page, iid.slot) == Locate(KeyMap(pages), sh.levels[0], g);
      if iid == IndexID(-1, -1) || !pages[iid.page].isLeaf {
        assert false;
      } else {
        var node := pages[iid.page];
        r := if iid.slot >= |node.keys| then None else Some(node.rids[iid.slot]);
      }
    }

    method SlotRid(iid: IndexID, ghost g: nat) returns (r: RecordID)
      requires Valid() && g < |Contents()| && iid == IdAt(g)
      ensures r == Contents()[g].rid
    {
      LocatedRid(pages, hdr, sh, g);
      LocatedLeaf(pages, hdr, sh, g);
      assert (iid.page, iid.slot) == Locate(KeyMap(pages), sh.levels[0], g);
      r := pages[iid.page].rids[iid.slot];
    }

    /** Scans the entries from lower up to upper for a record id. */
    method ScanFor(rid: RecordID, lower: IndexID, upper: IndexID, ghost lo: nat, ghost hi: nat)
      returns (found: bool, iid: IndexID, ghost g: nat)
      requires Valid() && lo <= hi <= |Contents()| && lower == IdAt(lo) && upper == IdAt(hi)
      ensures lo <= g <= hi && (found <==> g < hi) && forall k :: lo <= k < g ==> Contents()[k].rid != rid
      ensures found ==> iid == IdAt(g) && Contents()[g].rid == rid
    {
      hide IndexHandle.Valid, IndexHandle.Contents, IndexHandle.IdAt;
      var scan := new IndexIterator(this, lower, upper, lo, hi);
      scan.EndIff();
      while !scan.IsEnd()
        invariant scan.Valid() && scan.ih == this && scan.stop == hi && fresh(scan) && lo <= scan.at
        invariant scan.IsEnd() <==> scan.at == hi
        invariant forall k :: lo <= k < scan.at ==> Contents()[k].rid != rid
        decreases hi - scan.at
      {
        iid, g := scan.current, scan.at;
        var currRid := SlotRid(iid, g);
        if currRid == rid {
          found := true;
          return;
        }
        scan.Next();
        scan.EndIff();
      }
      found, iid, g := false, upper, hi;
    }

    lemma EntriesSorted()
      requires Valid()
      ensures Lawful(ord) && Sorted(ord, EntryKeys(Contents())) && EntryKeys(Contents()) == LeafKeys(pages, sh)
      ensures |sh.levels| >= 1 && sh.levels[0] != [] && |EntryKeys(Contents())| == |Contents()|
    {
      ContentsKeys(pages, hdr, sh);
    }

    /** The search of delete_entry: the first entry that compares equal to key and has the given record id. */
    method FindEntry(key: Key, rid: RecordID) returns (found: bool, iid: IndexID, ghost g: nat)
      requires Valid() && ord.valid(key)
      ensures g == MatchIndex(ord, Contents(), key, rid)
      ensures found <==> MatchIndex(ord, Contents(), key, rid) < |Contents()|
      ensures found ==> iid == IdAt(MatchIndex(ord, Contents(), key, rid))
    {
      hide IndexHandle.Valid, IndexHandle.Contents, Lawful, Sorted, IndexHandle.IdAt;
      EntriesSorted();
      ghost var es := Contents();
      assert Lawful(ord) && Sorted(ord, EntryKeys(es));
      ghost var lo, hi := CutIndex(ord, false, key, EntryKeys(es)), CutIndex(ord, true, key, EntryKeys(es));
      LowerBeforeUpper(ord, key, EntryKeys(es));
      var lower := LowerBound(key);
      var upper := UpperBound(key);
      found, iid, g := ScanFor(rid, lower, upper, lo, hi);
      assert Contents() == es;
      forall k | lo <= k < g ensures es[k].rid != rid { assert Contents()[k].rid != rid; }
      ScanResult(ord, es, key, rid, lo, hi, g);
      g := if found then g else |es|;
    }

    /** The multimap removal: takes out the first entry that compares equal to key and has the given record id;
        found is false (IndexEntryNotFoundError) and nothing changes when there is none. */
    method DeleteEntry(key: Key, rid: RecordID) returns (found: bool)
      requires Valid() && ord.valid(key)
      modifies this
      ensures Valid() && hdr.order == old(hdr).order
      ensures found <==> MatchIndex(ord, old(Contents()), key, rid) < |old(Contents())|
      ensures found <==>
        exists k :: 0 <= k < |old(Contents())| && ord.cmp(key, old(Contents())[k].key) == 0
                      && old(Contents())[k].rid == rid
      ensures !found ==> unchanged(this)
      ensures found ==> Contents() == RemoveAt(old(Contents()), MatchIndex(ord, old(Contents()), key, rid))
    {
      var iid;
      ghost var g;
      found, iid, g := FindEntry(key, rid);
      if found {
        RemoveMatch(iid, g);
      }
    }

    method RemoveMatch(iid: IndexID, ghost g: nat)
      requires Valid() && g < |Contents()| && iid == IdAt(g)
      modifies this
      ensures Valid() && hdr.order == old(hdr).order && Contents() == RemoveAt(old(Contents()), g)
    {
      hide Sized, Keyed, Partition, Typed, Linked, Join, Lawful;
      ContentsAgree(pages, hdr, sh);
      ghost var ks, rs := LeafKeys(pages, sh), LeafRids(pages, sh);
      RemoveEntry(iid, g);
      SortedRemove(ord, ks, g);
      assert Zip(RemoveAt(ks, g), RemoveAt(rs, g)) == RemoveAt(Zip(ks, rs), g);
    }
  }

  /** A range scan between two positions of an index. */
  class IndexIterator {
    const ih: IndexHandle
    var current: IndexID
    const end: IndexID
    ghost var at: nat
    ghost const stop: nat

    ghost predicate Valid()
      reads this, ih
    {
      ih.Valid() && at <= stop <= |ih.Contents()| && current == ih.IdAt(at) && end == ih.IdAt(stop)
    }

    constructor (ih: IndexHandle, lower: IndexID, upper: IndexID, ghost lo: nat, ghost hi: nat)
      requires ih.Valid() && lo <= hi <= |ih.Contents()| && lower == ih.IdAt(lo) && upper == ih.IdAt(hi)
      ensures Valid() && this.ih == ih && at == lo && stop == hi
    {
      this.ih, current, end, at, stop := ih, lower, upper, lo, hi;
    }

    predicate IsEnd()
      reads this
    {
      current == end
    }

    /** Comparing positions is comparing places in the leaf sequence. */
    lemma EndIff()
      requires Valid()
      ensures IsEnd() <==> at == stop
    {
      forall p | p in ih.sh.levels[0]
        ensures p in KeyMap(ih.pages)
      {
        assert p in ih.sh.ht && NodeOk(ih.pages, ih.sh.ht, p);
      }
      if current == end { LocateInjective(KeyMap(ih.pages), ih.sh.levels[0], at, stop); }
    }

    method GetRecordID() returns (r: Option<RecordID>)
      requires Valid()
      ensures r == if at < |ih.Contents()| then Some(ih.Contents()[at].rid) else None
    {
      r := ih.GetRecordId(current, at);
    }

    /** Moves to the next entry in leaf order, across leaves by the next_leaf links. */
    method Next()
      requires Valid() && at < stop
      modifies this
      ensures Valid() && at == old(at) + 1
    {
      LocatedLeaf(ih.pages, ih.hdr, ih.sh, at);
      LocatedRid(ih.pages, ih.hdr, ih.sh, at);
      ghost var j := NextLocated(ih.pages, ih.hdr, ih.sh, at);
      var node := ih.pages[current.page];
      current := IndexID(current.page, current.slot + 1);
      if current.slot >= |node.keys| {
        if node.nextLeaf == LEAF_HEADER_PAGE || node.nextLeaf == NO_PAGE {
          current := ih.LeafEnd();
        } else {
          current := IndexID(node.nextLeaf, 0);
        }
      }
      at := at + 1;
    }
  }
}
