/** The leaf ring and the free chain under page edits. */
module IndexLinks {
  import opened Common
  import opened Seqs
  import opened IndexPages

  lemma {:induction false} ChainConcat(pages: Pages, a: seq<int>, x: int, b: seq<int>)
    ensures Chain(pages, a + [x] + b) <==> Chain(pages, a + [x]) && Chain(pages, [x] + b)
  {
    if a == [] {
      assert a + [x] + b == [x] + b && a + [x] == [x];
    } else {
      var s, t := a + [x] + b, a + [x];
      assert s[1..] == a[1..] + [x] + b && t[1..] == a[1..] + [x];
      assert s[0] == t[0] && s[1] == t[1];
      ChainConcat(pages, a[1..], x, b);
    }
  }

  /** A chain is unaffected by edits that keep the links between its own members. */
  lemma {:induction false} ChainFrame(pages: Pages, pages': Pages, s: seq<int>)
    requires Chain(pages, s)
    requires forall k :: 0 <= k < |s| - 1 && s[k] in pages ==>
      s[k] in pages' && pages'[s[k]].nextLeaf == pages[s[k]].nextLeaf
    requires forall k :: 1 <= k < |s| && s[k] in pages ==>
      s[k] in pages' && pages'[s[k]].prevLeaf == pages[s[k]].prevLeaf
    ensures Chain(pages', s)
  {
    if |s| > 1 {
      var t := s[1..];
      assert s[1] in pages;
      forall k | 0 <= k < |t| - 1 && t[k] in pages
        ensures t[k] in pages' && pages'[t[k]].nextLeaf == pages[t[k]].nextLeaf
      {
        assert t[k] == s[k + 1];
      }
      forall k | 1 <= k < |t| && t[k] in pages ensures t[k] in pages' && pages'[t[k]].prevLeaf == pages[t[k]].prevLeaf {
        assert t[k] == s[k + 1];
      }
      ChainFrame(pages, pages', t);
    }
  }

  ghost predicate SameLinks(pages: Pages, pages': Pages, ps: seq<int>) {
    forall p :: p in ps && p in pages ==>
      p in pages' && pages'[p].nextLeaf == pages[p].nextLeaf && pages'[p].prevLeaf == pages[p].prevLeaf
  }

  lemma RingFrame(pages: Pages, pages': Pages, leaves: seq<int>, hdr: IndexHeader, hdr': IndexHeader)
    requires Ringed(pages, leaves, hdr) && SameLinks(pages, pages', [LEAF_HEADER_PAGE] + leaves)
    requires hdr'.firstLeaf == hdr.firstLeaf && hdr'.lastLeaf == hdr.lastLeaf
    ensures Ringed(pages', leaves, hdr')
  {
    var s := [LEAF_HEADER_PAGE] + leaves + [LEAF_HEADER_PAGE];
    forall k | 0 <= k < |s| && s[k] in pages
      ensures s[k] in pages' && pages'[s[k]].nextLeaf == pages[s[k]].nextLeaf
      ensures pages'[s[k]].prevLeaf == pages[s[k]].prevLeaf
    {
      var x := s[k];
      assert x in [LEAF_HEADER_PAGE] + leaves;
    }
    ChainFrame(pages, pages', s);
  }

  lemma {:induction false} ChainNext(pages: Pages, s: seq<int>, k: nat)
    requires Chain(pages, s) && k + 1 < |s|
    ensures Adjacent(pages, s[k], s[k + 1])
  {
    if k > 0 { ChainNext(pages, s[1..], k - 1); }
  }

  /** In the ring the leaf after a leaf is its successor, or the header page after the last. */
  lemma RingNext(pages: Pages, leaves: seq<int>, hdr: IndexHeader, j: nat)
    requires Ringed(pages, leaves, hdr) && j < |leaves|
    ensures leaves[j] in pages
    ensures pages[leaves[j]].nextLeaf == if j + 1 < |leaves| then leaves[j + 1] else LEAF_HEADER_PAGE
    ensures pages[leaves[j]].prevLeaf == if j > 0 then leaves[j - 1] else LEAF_HEADER_PAGE
  {
    var s := [LEAF_HEADER_PAGE] + leaves + [LEAF_HEADER_PAGE];
    ChainNext(pages, s, j + 1);
    ChainNext(pages, s, j);
  }

  /** Linking page b in after leaf p. */
  ghost predicate LinkedIn(pages: Pages, pages': Pages, p: int, b: int) {
    && p in pages && p in pages' && b in pages'
    && pages'[b].prevLeaf == p && pages'[b].nextLeaf == pages[p].nextLeaf
    && pages'[p].nextLeaf == b
    && (forall x :: x in pages && x != p && x != b ==> x in pages' && pages'[x].nextLeaf == pages[x].nextLeaf)
    && (forall x :: x in pages && x != b && x != pages[p].nextLeaf ==>
        x in pages' && pages'[x].prevLeaf == pages[x].prevLeaf)
    && (pages[p].nextLeaf in pages' ==> pages'[pages[p].nextLeaf].prevLeaf == b)
  }

  lemma TwoInTheMiddle(h: seq<int>, a: seq<int>, p: int, b: int, c: seq<int>)
    ensures h + (a + [p, b] + c) + h == h + a + [p] + ([b] + (c + h))
  {
  }

  lemma RingLinkIn(pages: Pages, pages': Pages, a: seq<int>, p: int, c: seq<int>, b: int, hdr: IndexHeader,
                   hdr': IndexHeader)
    requires Ringed(pages, a + [p] + c, hdr) && NoDup(a + [p] + c) && LEAF_HEADER_PAGE !in a + [p] + c
    requires b !in a + [p] + c && b != LEAF_HEADER_PAGE && LinkedIn(pages, pages', p, b)
    requires hdr'.firstLeaf == hdr.firstLeaf
    requires hdr'.lastLeaf == if hdr.lastLeaf == p then b else hdr.lastLeaf
    ensures Ringed(pages', a + [p, b] + c, hdr')
  {
    var h := LEAF_HEADER_PAGE;
    var l, r := [h] + a, c + [h];
    assert [h] + (a + [p] + c) + [h] == l + [p] + r;
    ChainConcat(pages, l, p, r);
    NoDupParts(a + [p], c);
    NoDupParts(a, [p]);
    assert p in [p] && p in a + [p] && p !in c && p !in a;
    ChainFrame(pages, pages', l + [p]) by {
      var s := l + [p];
      assert s[|s| - 1] == p;
      ChainNext(pages, [p] + r, 0);
      forall k | 1 <= k < |s| ensures s[k] != pages[p].nextLeaf {
        assert pages[p].nextLeaf == r[0];
        assert s[k] in a + [p] && (r[0] == h || r[0] in c);
      }
      forall k | 0 <= k < |s| - 1 ensures s[k] != p && s[k] != b { assert s[k] in l; }
      forall k | 1 <= k < |s| ensures s[k] != b { assert s[k] in a + [p]; }
    }
    RingRight(pages, pages', p, c, b);
    assert [p, b] + r == [p] + [b] + r;
    assert Adjacent(pages', p, b);
    assert Chain(pages', [p] + [b]) by { assert ([p] + [b])[1..] == [b]; }
    ChainConcat(pages', [p], b, r);
    assert [p] + [b] + r == [p] + ([b] + r);
    ChainConcat(pages', l, p, [b] + r);
    TwoInTheMiddle([h], a, p, b, c);
    assert Last(a + [p] + c) == p <==> c == [] by {
      if c != [] { assert Last(a + [p] + c) == Last(c) && Last(c) in c; }
    }
    assert (a + [p, b] + c)[0] == (a + [p] + c)[0];
  }

  lemma {:induction false} RingRight(pages: Pages, pages': Pages, p: int, c: seq<int>, b: int)
    requires Chain(pages, [p] + (c + [LEAF_HEADER_PAGE])) && LinkedIn(pages, pages', p, b)
    requires p !in c && b !in c && NoDup(c) && LEAF_HEADER_PAGE !in c && p != LEAF_HEADER_PAGE && b != LEAF_HEADER_PAGE
    ensures Chain(pages', [b] + (c + [LEAF_HEADER_PAGE]))
  {
    var r := c + [LEAF_HEADER_PAGE];
    ChainNext(pages, [p] + r, 0);
    assert ([p] + r)[1] == r[0] == pages[p].nextLeaf;
    assert ([p] + r)[1..] == r;
    ChainFrame(pages, pages', r) by {
      forall k | 0 <= k < |r| - 1 ensures r[k] != p && r[k] != b { assert r[k] in c; }
      forall k | 1 <= k < |r| ensures r[k] != r[0] && r[k] != b {
        if k < |c| { assert r[k] == c[k] && r[0] == c[0] && r[k] in c; } else { assert r[0] in c || k == 0; }
      }
    }
    assert ([b] + r)[1..] == r;
    assert r[0] in pages' by { if |r| > 1 { assert Chain(pages', r); } else { assert r[0] in pages; } }
  }

  /** Unlinking leaf y, the successor of leaf x (erase_leaf). */
  ghost predicate Unlinked(pages: Pages, pages': Pages, x: int, y: int) {
    && x in pages' && y in pages
    && pages'[x].nextLeaf == pages[y].nextLeaf
    && (forall z :: z in pages && z != x && z != y ==> z in pages' && pages'[z].nextLeaf == pages[z].nextLeaf)
    && (forall z :: z in pages && z != y && z != pages[y].nextLeaf ==>
        z in pages' && pages'[z].prevLeaf == pages[z].prevLeaf)
    && pages[y].nextLeaf in pages' && pages'[pages[y].nextLeaf].prevLeaf == x
  }

  /** The ring falls into the part up to x, the link to y, and the part behind y. */
  lemma {:induction false} RingParts(pages: Pages, a: seq<int>, x: int, y: int, c: seq<int>, hdr: IndexHeader)
    requires Ringed(pages, a + [x, y] + c, hdr) && NoDup(a + [x, y] + c) && LEAF_HEADER_PAGE !in a + [x, y] + c
    ensures Chain(pages, [LEAF_HEADER_PAGE] + a + [x]) && Chain(pages, c + [LEAF_HEADER_PAGE])
    ensures y in pages && pages[y].nextLeaf == (c + [LEAF_HEADER_PAGE])[0]
    ensures x !in a && x !in c && x != y && y !in a && y !in c && forall z :: z in a ==> z !in c
    ensures LEAF_HEADER_PAGE !in a && LEAF_HEADER_PAGE !in c && LEAF_HEADER_PAGE != x && LEAF_HEADER_PAGE != y
  {
    var h := LEAF_HEADER_PAGE;
    var l, r := [h] + a, c + [h];
    TwoInTheMiddle([h], a, x, y, c);
    ChainConcat(pages, l, x, [y] + r);
    assert [x] + ([y] + r) == [x] + [y] + r;
    ChainConcat(pages, [x], y, r);
    NoDupParts(a + [x, y], c);
    NoDupParts(a, [x, y]);
    assert x in [x, y] && y in [x, y] && [x, y][0] != [x, y][1];
    assert x in a + [x, y] && y in a + [x, y];
    forall z | z in a ensures z !in c { assert z in a + [x, y]; }
    ChainNext(pages, [y] + r, 0);
    assert ([y] + r)[1..] == r;
  }

  /** The part before the leaf taken out keeps its links; only its last page gets a new successor. */
  lemma {:induction false} UnlinkBefore(pages: Pages, pages': Pages, a: seq<int>, x: int, y: int, c: seq<int>,
                                        hdr: IndexHeader)
    requires Ringed(pages, a + [x, y] + c, hdr) && NoDup(a + [x, y] + c) && LEAF_HEADER_PAGE !in a + [x, y] + c
    requires Unlinked(pages, pages', x, y)
    ensures Chain(pages', [LEAF_HEADER_PAGE] + a + [x])
  {
    RingParts(pages, a, x, y, c, hdr);
    var h, r := LEAF_HEADER_PAGE, c + [LEAF_HEADER_PAGE];
    var s := [h] + a + [x];
    forall k | 1 <= k < |s| ensures s[k] != r[0] && s[k] != y {
      assert s[k] in a + [x];
      assert r[0] == h || r[0] in c;
    }
    forall k | 0 <= k < |s| - 1 ensures s[k] != x && s[k] != y { assert s[k] == h || s[k] in a; }
    ChainFrame(pages, pages', s);
  }

  /** The part behind it keeps its links; only its first page gets a new predecessor. */
  lemma {:induction false} UnlinkBehind(pages: Pages, pages': Pages, a: seq<int>, x: int, y: int, c: seq<int>,
                                        hdr: IndexHeader)
    requires Ringed(pages, a + [x, y] + c, hdr) && NoDup(a + [x, y] + c) && LEAF_HEADER_PAGE !in a + [x, y] + c
    requires Unlinked(pages, pages', x, y)
    ensures Chain(pages', c + [LEAF_HEADER_PAGE])
  {
    RingParts(pages, a, x, y, c, hdr);
    NoDupParts(a + [x, y], c);
    var r := c + [LEAF_HEADER_PAGE];
    forall k | 0 <= k < |r| - 1 ensures r[k] != x && r[k] != y { assert r[k] in c; }
    forall k | 1 <= k < |r| ensures r[k] != r[0] && r[k] != y {
      if k < |c| { assert r[k] == c[k] && r[0] == c[0] && r[k] in c; } else { assert r[0] in c; }
    }
    ChainFrame(pages, pages', r);
  }

  lemma RingUnlink(pages: Pages, pages': Pages, a: seq<int>, x: int, y: int, c: seq<int>, hdr: IndexHeader,
                   hdr': IndexHeader)
    requires Ringed(pages, a + [x, y] + c, hdr) && NoDup(a + [x, y] + c) && LEAF_HEADER_PAGE !in a + [x, y] + c
    requires Unlinked(pages, pages', x, y)
    requires hdr'.firstLeaf == hdr.firstLeaf
    requires hdr'.lastLeaf == if hdr.lastLeaf == y then x else hdr.lastLeaf
    ensures Ringed(pages', a + [x] + c, hdr')
  {
    RingParts(pages, a, x, y, c, hdr);
    UnlinkBefore(pages, pages', a, x, y, c, hdr);
    UnlinkBehind(pages, pages', a, x, y, c, hdr);
    var h := LEAF_HEADER_PAGE;
    var l, r := [h] + a, c + [h];
    assert ([x] + r)[1..] == r;
    ChainConcat(pages', l, x, r);
    assert [h] + (a + [x] + c) + [h] == l + [x] + r;
    assert Last(a + [x, y] + c) == y <==> c == [] by {
      if c != [] { assert Last(a + [x, y] + c) == Last(c) && Last(c) in c; }
    }
    assert (a + [x, y] + c)[0] == (a + [x] + c)[0];
  }

  // ----- free pages -----

  lemma LiveNotFree(pages: Pages, hdr: IndexHeader, live: set<int>, free: seq<int>, p: int)
    requires Partition(pages, hdr, live, free) && p in live
    ensures p !in free
  {
  }

  lemma PartitionFrame(pages: Pages, pages': Pages, hdr: IndexHeader, hdr': IndexHeader, live: set<int>, free: seq<int>)
    requires Partition(pages, hdr, live, free)
    requires hdr'.firstFree == hdr.firstFree && hdr'.numPages == hdr.numPages
    requires forall p :: p in pages ==> p in pages'
    requires forall p :: p in free && p in pages ==> pages'[p].nextFree == pages[p].nextFree
    ensures Partition(pages', hdr', live, free)
  {
    FreeChainFrame(pages, pages', FreeLink, hdr.firstFree, free);
  }

  lemma FreeHead(pages: Pages, hdr: IndexHeader, live: set<int>, free: seq<int>)
    requires Partition(pages, hdr, live, free)
    ensures hdr.firstFree == NO_PAGE <==> free == []
  {
    var h := if free == [] then 0 else free[0];
    assert free != [] ==> h in free && h >= INIT_ROOT_PAGE;
  }

  /** Taking the first free page, or extending the file when there is none (create_node). */
  lemma PartitionCreate(pages: Pages, pages': Pages, hdr: IndexHeader, hdr': IndexHeader, live: set<int>,
                        free: seq<int>, b: int)
    returns (free': seq<int>)
    requires Partition(pages, hdr, live, free) && b in pages'
    requires forall p :: p in pages && p != b ==> p in pages' && pages'[p] == pages[p]
    requires if hdr.firstFree == NO_PAGE then b == hdr.numPages && hdr' == hdr.(numPages := hdr.numPages + 1)
             else b == hdr.firstFree && b in pages && hdr' == hdr.(firstFree := pages[b].nextFree)
    ensures Partition(pages', hdr', live + {b}, free') && b !in live && b >= INIT_ROOT_PAGE
    ensures forall p :: p in free' ==> p in free && p != b
  {
    FreeHead(pages, hdr, live, free);
    if hdr.firstFree == NO_PAGE {
      free' := [];
    } else {
      NoDupHead(free);
      var h := free[0];
      assert h in free;
      free' := free[1..];
      forall p | p in free' ensures p in free && p != b { }
      FreeChainFrame(pages, pages', FreeLink, hdr'.firstFree, free');
    }
    forall x ensures INIT_ROOT_PAGE <= x < hdr'.numPages <==> x in live + {b} || x in free' {
      assert x in free <==> x in free' || (x == b && hdr.firstFree != NO_PAGE);
    }
  }

  /** Putting a page on the free list (release_node). */
  lemma PartitionRelease(pages: Pages, pages': Pages, hdr: IndexHeader, hdr': IndexHeader, live: set<int>,
                         free: seq<int>, b: int)
    requires Partition(pages, hdr, live, free) && b in live && b in pages
    requires forall p :: p in pages && p != b ==> p in pages' && pages'[p].nextFree == pages[p].nextFree
    requires b in pages' && pages'[b].nextFree == hdr.firstFree
    requires hdr'.firstFree == b && hdr'.numPages == hdr.numPages
    ensures Partition(pages', hdr', live - {b}, [b] + free)
  {
    FreeChainFrame(pages, pages', FreeLink, hdr.firstFree, free);
    NoDupConcat([b], free);
    assert ([b] + free)[1..] == free;
  }

  // ----- edits that leave the tree in place -----

  /** Only keys of inner pages differ, and not in number. */
  ghost predicate KeysOnly(pages: Pages, pages': Pages, ht: Heights) {
    && pages'.Keys == pages.Keys
    && (forall x :: x in pages ==>
        pages'[x] == pages[x].(keys := pages'[x].keys) && |pages'[x].keys| == |pages[x].keys|)
    && (forall x :: x in pages && (x !in ht || ht[x] == 0) ==> pages'[x].keys == pages[x].keys)
  }

  lemma KeysOnlyRids(pages: Pages, pages': Pages, ht: Heights)
    requires KeysOnly(pages, pages', ht)
    ensures RidMap(pages') == RidMap(pages)
  {
    forall p | p in pages ensures p in pages' && pages'[p].rids == pages[p].rids { }
    assert RidMap(pages').Keys == RidMap(pages).Keys;
  }

  lemma KeysOnlyShaped(pages: Pages, pages': Pages, hdr: IndexHeader, levels: seq<seq<int>>, ht: Heights,
                       orphans: set<int>)
    requires Shaped(pages, hdr, levels, ht, orphans) && KeysOnly(pages, pages', ht)
    ensures Shaped(pages', hdr, levels, ht, orphans)
  {
    KeysOnlyRids(pages, pages', ht);
    forall p | p in ht ensures NodeOk(pages', ht, p) { assert NodeOk(pages, ht, p); }
    forall p, i | p in ht && NodeOk(pages', ht, p) && ht[p] > 0 && 0 <= i < |pages'[p].rids|
      ensures ChildOk(pages', ht, p, i, orphans)
    {
      assert NodeOk(pages, ht, p);
      assert ChildOk(pages, ht, p, i, orphans);
    }
  }

  lemma KeysOnlySized(pages: Pages, pages': Pages, hdr: IndexHeader, ht: Heights, except: set<int>)
    requires Sized(pages, ht, hdr, except) && KeysOnly(pages, pages', ht)
    ensures Sized(pages', ht, hdr, except)
  {
    forall p | p in ht && p !in except ensures SizeOk(pages', hdr, p) { assert SizeOk(pages, hdr, p); }
  }

  lemma KeysOnlyContents(pages: Pages, pages': Pages, sh: Shape)
    requires Levelled(sh.levels, sh.ht) && KeysOnly(pages, pages', sh.ht) && Typed(pages, sh.ht)
    ensures LeafKeys(pages', sh) == LeafKeys(pages, sh) && LeafRids(pages', sh) == LeafRids(pages, sh)
  {
    forall p | p in sh.levels[0]
      ensures p in KeyMap(pages) && p in KeyMap(pages') && KeyMap(pages)[p] == KeyMap(pages')[p]
    {
      assert p in sh.ht && NodeOk(pages, sh.ht, p);
    }
    JoinFrame(KeyMap(pages), KeyMap(pages'), sh.levels[0]);
    KeysOnlyRids(pages, pages', sh.ht);
  }

  lemma LiveAboveHeader(pages: Pages, sh: Shape)
    requires Typed(pages, sh.ht) && Levelled(sh.levels, sh.ht)
    ensures LEAF_HEADER_PAGE !in sh.ht && NO_PAGE !in sh.ht
    ensures forall l :: 0 <= l < |sh.levels| ==> LEAF_HEADER_PAGE !in sh.levels[l]
  {
    assert LEAF_HEADER_PAGE in sh.ht ==> NodeOk(pages, sh.ht, LEAF_HEADER_PAGE);
    assert NO_PAGE in sh.ht ==> NodeOk(pages, sh.ht, NO_PAGE);
  }
}
