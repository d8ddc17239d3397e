/** Splitting, borrowing and merging are one step seen from the parent: consecutive children are replaced
    by new ones holding the same entries in the same order. This module proves that such a step keeps the
    tree conditions and the leaf sequence. */
module IndexRegroup {
  import opened Common
  import opened Seqs
  import opened KeyOrder
  import opened IndexPages

  ghost predicate SameBody(a: Node, b: Node) {
    a.isLeaf == b.isLeaf && a.keys == b.keys && a.rids == b.rids
  }

  /** The heights after children "old" of height l gave way to "new". */
  ghost predicate HeightsReplaced(ht: Heights, ht': Heights, l: nat, olds: seq<int>, news: seq<int>) {
    && (forall x :: x in olds ==> x in ht && ht[x] == l)
    && (forall x :: x in news ==> x in olds || x !in ht)
    && (forall x :: x in ht' <==> (x in ht && x !in olds) || x in news)
    && (forall x :: x in ht' ==> ht'[x] == if x in news then l else ht[x])
  }

  /** Parent q replaces its children olds, which start at rank i, by news. */
  ghost predicate Regroup(pages: Pages, pages': Pages, ht: Heights, ht': Heights,
                          q: int, i: nat, olds: seq<int>, news: seq<int>)
  {
    && NodeOk(pages, ht, q) && NodeOk(pages', ht', q) && ht[q] > 0
    && HeightsReplaced(ht, ht', ht[q] - 1, olds, news)
    && q !in news && NoDup(news)
    && i + |olds| <= |pages[q].rids|
    && PagesOf(pages[q].rids[i..i + |olds|]) == olds
    && pages'[q].rids == pages[q].rids[..i] + ChildRids(news) + pages[q].rids[i + |olds|..]
    && (forall x :: x in ht' && x !in news && x != q ==> x in pages && x in pages' && SameBody(pages[x], pages'[x]))
    && (forall x :: x in news ==> NodeOk(pages', ht', x) && pages'[x].parent == q)
    && Join(RidMap(pages), olds) == Join(RidMap(pages'), news)
    && Join(KeyMap(pages), olds) == Join(KeyMap(pages'), news)
  }

  /** Parent pointers follow the regrouped grandchildren, orphans aside, and stay elsewhere. */
  ghost predicate Reparented(pages: Pages, pages': Pages, ht': Heights, olds: seq<int>, news: seq<int>,
                             orphans: set<int>)
  {
    && (forall x :: x in ht' && x !in news && x in pages && pages[x].parent !in olds
          ==> x in pages' && pages'[x].parent == pages[x].parent)
    && (forall x, k :: x in news && NodeOk(pages', ht', x) && ht'[x] > 0 && 0 <= k < |pages'[x].rids|
          ==> var c := pages'[x].rids[k].page; c in pages' && (c in orphans || pages'[c].parent == x))
  }

  /** The keys of q beside the replaced ranks stay, and those at the new ranks are the new maxima. */
  ghost predicate Rekeyed(pages: Pages, pages': Pages, q: int, i: nat, olds: seq<int>, news: seq<int>, except: set<int>)
    requires q in pages && q in pages'
    requires i + |olds| <= |pages[q].keys|
  {
    && |pages'[q].keys| == |pages[q].keys| - |olds| + |news|
    && (forall k :: 0 <= k < i ==> pages'[q].keys[k] == pages[q].keys[k])
    && (forall k :: i + |olds| <= k < |pages[q].keys| ==> pages'[q].keys[k - |olds| + |news|] == pages[q].keys[k])
    && (forall k :: 0 <= k < |news| && news[k] in pages' && pages'[news[k]].keys != [] && news[k] !in except
          ==> pages'[q].keys[i + k] == Last(pages'[news[k]].keys))
  }

  /** A slot of a listed page has an index in the join; the same one for keys and rids. */
  lemma {:induction false} JoinIndex(m: map<int, seq<Key>>, n: map<int, seq<RecordID>>, ps: seq<int>, p: int, k: nat)
    returns (g: nat)
    requires AllIn(m, ps) && AllIn(n, ps) && forall x :: x in ps ==> |m[x]| == |n[x]|
    requires p in ps && k < |m[p]|
    ensures g < |Join(m, ps)| == |Join(n, ps)|
    ensures Join(m, ps)[g] == m[p][k] && Join(n, ps)[g] == n[p][k]
    ensures Locate(m, ps, g) == (p, k)
  {
    AllInTail(m, ps);
    AllInTail(n, ps);
    var h := ps[0];
    assert h in ps && |m[h]| == |n[h]|;
    LocateAgree(m, n, ps, 0);
    if h == p {
      g := k;
    } else {
      forall x | x in ps[1..] ensures |m[x]| == |n[x]| { assert x in ps; }
      var g' := JoinIndex(m, n, ps[1..], p, k);
      g := |m[h]| + g';
    }
  }

  lemma LiveMaps(pages: Pages, ht: Heights, ps: seq<int>)
    requires forall p :: p in ps ==> NodeOk(pages, ht, p)
    ensures AllIn(KeyMap(pages), ps) && AllIn(RidMap(pages), ps)
    ensures forall p :: p in ps ==> |KeyMap(pages)[p]| == |RidMap(pages)[p]|
  {
    forall p | p in ps ensures p in KeyMap(pages) && p in RidMap(pages) && |KeyMap(pages)[p]| == |RidMap(pages)[p]| {
      assert NodeOk(pages, ht, p);
    }
  }

  /** Each slot of a new child was a slot of an old child, with the same key and the same rid. */
  lemma SlotOrigin(pages: Pages, pages': Pages, ht: Heights, ht': Heights,
                   q: int, i: nat, olds: seq<int>, news: seq<int>, x: int, k: nat)
    returns (x0: int, k0: nat)
    requires Regroup(pages, pages', ht, ht', q, i, olds, news) && Typed(pages, ht)
    requires x in news && NodeOk(pages', ht', x) && k < |pages'[x].rids|
    ensures x0 in olds && NodeOk(pages, ht, x0) && k0 < |pages[x0].rids|
    ensures pages[x0].rids[k0] == pages'[x].rids[k] && pages[x0].keys[k0] == pages'[x].keys[k]
  {
    LiveMaps(pages', ht', news);
    var g := JoinIndex(KeyMap(pages'), RidMap(pages'), news, x, k);
    forall p | p in olds ensures NodeOk(pages, ht, p) { assert p in ht; }
    LiveMaps(pages, ht, olds);
    assert olds != [];
    LocateLookup(KeyMap(pages), olds, g);
    LocateLookup(RidMap(pages), olds, g);
    LocateAgree(KeyMap(pages), RidMap(pages), olds, g);
    var (a, b) := Locate(KeyMap(pages), olds, g);
    x0, k0 := a, b;
  }

  lemma RegroupTyped(pages: Pages, pages': Pages, ht: Heights, ht': Heights,
                     q: int, i: nat, olds: seq<int>, news: seq<int>)
    requires Regroup(pages, pages', ht, ht', q, i, olds, news) && Typed(pages, ht)
    ensures Typed(pages', ht')
  {
    forall p | p in ht' ensures NodeOk(pages', ht', p) {
      if p !in news && p != q {
        assert p in ht && NodeOk(pages, ht, p);
        assert SameBody(pages[p], pages'[p]);
      }
    }
  }

  /** The children of q outside the replaced ranks keep their places. */
  lemma OuterChild(pages: Pages, pages': Pages, ht: Heights, ht': Heights,
                   q: int, i: nat, olds: seq<int>, news: seq<int>, k: nat)
    returns (k0: nat)
    requires Regroup(pages, pages', ht, ht', q, i, olds, news)
    requires k < |pages'[q].rids| && !(i <= k < i + |news|)
    ensures k0 == if k < i then k else k - |news| + |olds|
    ensures k0 < |pages[q].rids| && pages[q].rids[k0] == pages'[q].rids[k] && !(i <= k0 < i + |olds|)
  {
    k0 := if k < i then k else k - |news| + |olds|;
  }

  lemma OldParent(pages: Pages, ht: Heights, q: int, i: nat, olds: seq<int>)
    requires Linked(pages, ht) && NodeOk(pages, ht, q) && ht[q] > 0
    requires i + |olds| <= |pages[q].rids| && PagesOf(pages[q].rids[i..i + |olds|]) == olds
    ensures forall c :: c in olds ==> c in pages && pages[c].parent == q
  {
    forall c | c in olds ensures c in pages && pages[c].parent == q {
      var m :| 0 <= m < |olds| && olds[m] == c;
      assert pages[q].rids[i..i + |olds|][m] == pages[q].rids[i + m];
      assert ChildOk(pages, ht, q, i + m);
    }
  }

  lemma OutsideOld(pages: Pages, hdr: IndexHeader, levels: seq<seq<int>>, ht: Heights,
                   q: int, i: nat, olds: seq<int>, k: nat)
    requires Shaped(pages, hdr, levels, ht) && NodeOk(pages, ht, q) && ht[q] > 0
    requires i + |olds| <= |pages[q].rids| && PagesOf(pages[q].rids[i..i + |olds|]) == olds
    requires k < |pages[q].rids| && !(i <= k < i + |olds|)
    ensures pages[q].rids[k].page !in olds
  {
    forall m | 0 <= m < |olds| ensures olds[m] != pages[q].rids[k].page {
      assert pages[q].rids[i..i + |olds|][m] == pages[q].rids[i + m];
      if k < i { ChildRankUnique(pages, hdr, levels, ht, q, k, i + m); }
      else { ChildRankUnique(pages, hdr, levels, ht, q, i + m, k); }
    }
  }

  lemma RegroupLinked(pages: Pages, pages': Pages, hdr: IndexHeader, levels: seq<seq<int>>, ht: Heights, ht': Heights,
                      q: int, i: nat, olds: seq<int>, news: seq<int>, orphans: set<int>)
    requires Regroup(pages, pages', ht, ht', q, i, olds, news) && Reparented(pages, pages', ht', olds, news, orphans)
    requires Shaped(pages, hdr, levels, ht) && Typed(pages', ht')
    ensures Linked(pages', ht', orphans)
  {
    forall p, k | p in ht' && NodeOk(pages', ht', p) && ht'[p] > 0 && 0 <= k < |pages'[p].rids|
      ensures ChildOk(pages', ht', p, k, orphans)
    {
      if p == q {
        LinkedParent(pages, pages', hdr, levels, ht, ht', q, i, olds, news, k, orphans);
      } else if p in news {
        LinkedNew(pages, pages', ht, ht', q, i, olds, news, p, k, orphans);
      } else {
        LinkedOther(pages, pages', ht, ht', q, i, olds, news, p, k, orphans);
      }
    }
  }

  lemma LinkedParent(pages: Pages, pages': Pages, hdr: IndexHeader, levels: seq<seq<int>>, ht: Heights, ht': Heights,
                     q: int, i: nat, olds: seq<int>, news: seq<int>, k: nat, orphans: set<int>)
    requires Regroup(pages, pages', ht, ht', q, i, olds, news) && Reparented(pages, pages', ht', olds, news, orphans)
    requires Shaped(pages, hdr, levels, ht) && Typed(pages', ht') && k < |pages'[q].rids|
    ensures ChildOk(pages', ht', q, k, orphans)
  {
    if i <= k < i + |news| {
      assert pages'[q].rids[k] == RecordID(news[k - i], -1);
      var c := news[k - i];
      assert c in news && NodeOk(pages', ht', c);
    } else {
      var k0 := OuterChild(pages, pages', ht, ht', q, i, olds, news, k);
      assert ChildOk(pages, ht, q, k0);
      var c := pages[q].rids[k0].page;
      OutsideOld(pages, hdr, levels, ht, q, i, olds, k0);
      assert c in ht' && NodeOk(pages', ht', c);
      assert q !in olds;
    }
  }

  lemma LinkedNew(pages: Pages, pages': Pages, ht: Heights, ht': Heights,
                  q: int, i: nat, olds: seq<int>, news: seq<int>, p: int, k: nat, orphans: set<int>)
    requires Regroup(pages, pages', ht, ht', q, i, olds, news) && Reparented(pages, pages', ht', olds, news, orphans)
    requires Typed(pages, ht) && Linked(pages, ht) && Typed(pages', ht')
    requires p in news && NodeOk(pages', ht', p) && ht'[p] > 0 && k < |pages'[p].rids|
    ensures ChildOk(pages', ht', p, k, orphans)
  {
    var x0, k0 := SlotOrigin(pages, pages', ht, ht', q, i, olds, news, p, k);
    assert ht[x0] == ht[q] - 1 == ht'[p];
    assert ChildOk(pages, ht, x0, k0);
    var c := pages[x0].rids[k0].page;
    assert c !in olds;
    assert c in ht' && NodeOk(pages', ht', c);
  }

  lemma LinkedOther(pages: Pages, pages': Pages, ht: Heights, ht': Heights,
                    q: int, i: nat, olds: seq<int>, news: seq<int>, p: int, k: nat, orphans: set<int>)
    requires Regroup(pages, pages', ht, ht', q, i, olds, news) && Reparented(pages, pages', ht', olds, news, orphans)
    requires Typed(pages, ht) && Linked(pages, ht) && Typed(pages', ht')
    requires p in ht' && p !in news && p != q && NodeOk(pages', ht', p) && ht'[p] > 0 && k < |pages'[p].rids|
    ensures ChildOk(pages', ht', p, k, orphans)
  {
    assert p in ht && NodeOk(pages, ht, p) && SameBody(pages[p], pages'[p]);
    assert ChildOk(pages, ht, p, k);
    var c := pages[p].rids[k].page;
    OldParent(pages, ht, q, i, olds);
    assert c !in olds;
    assert c in ht' && NodeOk(pages', ht', c);
  }

  /** The largest key of q is the same as before, or q is known to be out of date. */
  ghost predicate MaxKept(pages: Pages, pages': Pages, q: int, except: set<int>)
    requires q in pages && q in pages'
  {
    q in except || (pages[q].keys != [] && pages'[q].keys != [] && Last(pages[q].keys) == Last(pages'[q].keys))
  }

  lemma RegroupKeyed(pages: Pages, pages': Pages, hdr: IndexHeader, levels: seq<seq<int>>, ht: Heights, ht': Heights,
                     q: int, i: nat, olds: seq<int>, news: seq<int>, except: set<int>, orphans: set<int>)
    requires Regroup(pages, pages', ht, ht', q, i, olds, news)
    requires Shaped(pages, hdr, levels, ht) && Keyed(pages, ht, except)
    requires Typed(pages', ht') && Linked(pages', ht', orphans)
    requires Rekeyed(pages, pages', q, i, olds, news, except) && MaxKept(pages, pages', q, except)
    ensures Keyed(pages', ht', except)
  {
    forall p, k | p in ht' && NodeOk(pages', ht', p) && ht'[p] > 0 && 0 <= k < |pages'[p].rids|
      ensures KeyOk(pages', ht', p, k, except)
    {
      if p == q {
        KeyedParent(pages, pages', hdr, levels, ht, ht', q, i, olds, news, except, k, orphans);
      } else if p in news {
        KeyedNew(pages, pages', ht, ht', q, i, olds, news, except, p, k, orphans);
      } else {
        KeyedOther(pages, pages', ht, ht', q, i, olds, news, except, p, k, orphans);
      }
    }
  }

  lemma KeyedParent(pages: Pages, pages': Pages, hdr: IndexHeader, levels: seq<seq<int>>, ht: Heights, ht': Heights,
                    q: int, i: nat, olds: seq<int>, news: seq<int>, except: set<int>, k: nat, orphans: set<int>)
    requires Regroup(pages, pages', ht, ht', q, i, olds, news)
    requires Shaped(pages, hdr, levels, ht) && Keyed(pages, ht, except) && Linked(pages', ht', orphans)
    requires Rekeyed(pages, pages', q, i, olds, news, except) && k < |pages'[q].rids|
    ensures KeyOk(pages', ht', q, k, except)
  {
    if i <= k < i + |news| {
      KeyedReplaced(pages, pages', ht, ht', q, i, olds, news, except, k, orphans);
    } else {
      KeyedKept(pages, pages', hdr, levels, ht, ht', q, i, olds, news, except, k, orphans);
    }
  }

  lemma KeyedReplaced(pages: Pages, pages': Pages, ht: Heights, ht': Heights,
                      q: int, i: nat, olds: seq<int>, news: seq<int>, except: set<int>, k: nat, orphans: set<int>)
    requires Regroup(pages, pages', ht, ht', q, i, olds, news) && Linked(pages', ht', orphans)
    requires Rekeyed(pages, pages', q, i, olds, news, except) && i <= k < i + |news| && k < |pages'[q].rids|
    ensures KeyOk(pages', ht', q, k, except)
  {
    assert ChildOk(pages', ht', q, k, orphans);
    assert pages'[q].rids[k] == RecordID(news[k - i], -1);
  }

  lemma KeyedKept(pages: Pages, pages': Pages, hdr: IndexHeader, levels: seq<seq<int>>, ht: Heights, ht': Heights,
                  q: int, i: nat, olds: seq<int>, news: seq<int>, except: set<int>, k: nat, orphans: set<int>)
    requires Regroup(pages, pages', ht, ht', q, i, olds, news)
    requires Shaped(pages, hdr, levels, ht) && Keyed(pages, ht, except) && Linked(pages', ht', orphans)
    requires Rekeyed(pages, pages', q, i, olds, news, except) && k < |pages'[q].rids| && !(i <= k < i + |news|)
    ensures KeyOk(pages', ht', q, k, except)
  {
    assert ChildOk(pages', ht', q, k, orphans);
    var k0 := OuterChild(pages, pages', ht, ht', q, i, olds, news, k);
    assert KeyOk(pages, ht, q, k0, except) && ChildOk(pages, ht, q, k0);
    var c := pages[q].rids[k0].page;
    OutsideOld(pages, hdr, levels, ht, q, i, olds, k0);
    assert c !in news && c in ht' && c != q && SameBody(pages[c], pages'[c]);
  }

  lemma KeyedNew(pages: Pages, pages': Pages, ht: Heights, ht': Heights,
                 q: int, i: nat, olds: seq<int>, news: seq<int>, except: set<int>, p: int, k: nat, orphans: set<int>)
    requires Regroup(pages, pages', ht, ht', q, i, olds, news) && Typed(pages, ht)
    requires Keyed(pages, ht, except) && Linked(pages, ht) && Linked(pages', ht', orphans)
    requires p in news && NodeOk(pages', ht', p) && ht'[p] > 0 && k < |pages'[p].rids|
    ensures KeyOk(pages', ht', p, k, except)
  {
    assert ChildOk(pages', ht', p, k, orphans);
    var x0, k0 := SlotOrigin(pages, pages', ht, ht', q, i, olds, news, p, k);
    assert KeyOk(pages, ht, x0, k0, except) && ChildOk(pages, ht, x0, k0);
    var c := pages'[p].rids[k].page;
    assert ht'[c] + 1 == ht'[p] == ht[q] - 1;
    assert c !in news && c != q && SameBody(pages[c], pages'[c]);
  }

  lemma KeyedOther(pages: Pages, pages': Pages, ht: Heights, ht': Heights,
                   q: int, i: nat, olds: seq<int>, news: seq<int>, except: set<int>, p: int, k: nat, orphans: set<int>)
    requires Regroup(pages, pages', ht, ht', q, i, olds, news) && Typed(pages, ht)
    requires Keyed(pages, ht, except) && Linked(pages, ht) && Linked(pages', ht', orphans)
    requires p in ht' && p !in news && p != q && NodeOk(pages', ht', p) && ht'[p] > 0 && k < |pages'[p].rids|
    requires MaxKept(pages, pages', q, except)
    ensures KeyOk(pages', ht', p, k, except)
  {
    assert ChildOk(pages', ht', p, k, orphans);
    assert p in ht && NodeOk(pages, ht, p) && SameBody(pages[p], pages'[p]);
    assert KeyOk(pages, ht, p, k, except) && ChildOk(pages, ht, p, k);
    var c := pages[p].rids[k].page;
    OldParent(pages, ht, q, i, olds);
    assert c !in olds;
    assert c !in news;
    if c != q { assert SameBody(pages[c], pages'[c]); }
  }

  /** The level of the regrouped children, and all levels, still list the children of the level above. */
  lemma RegroupLevels(pages: Pages, pages': Pages, hdr: IndexHeader, levels: seq<seq<int>>, ht: Heights, ht': Heights,
                      q: int, i: nat, olds: seq<int>, news: seq<int>)
    returns (levels': seq<seq<int>>, a: seq<int>, b: seq<int>)
    requires Shaped(pages, hdr, levels, ht)
    requires Regroup(pages, pages', ht, ht', q, i, olds, news)
    ensures ht[q] <= |levels| - 1 && levels[ht[q] - 1] == a + olds + b
    ensures levels' == levels[ht[q] - 1 := a + news + b]
    ensures Levelled(levels', ht') && Stacked(RidMap(pages'), levels')
  {
    hide Linked, Join, PagesOf;
    var l := ht[q];
    assert q in levels[l];
    var u, v := SplitAround(levels[l], q);
    var rm, rm' := RidMap(pages), RidMap(pages');
    forall x | x in levels[l] ensures x in rm { assert x in ht; assert NodeOk(pages, ht, x); }
    assert Stack(rm, levels, l);
    JoinAround(rm, u, q, v);
    var r1, r0, r2 := pages[q].rids[..i], pages[q].rids[i..i + |olds|], pages[q].rids[i + |olds|..];
    a := PagesOf(Join(rm, u)) + PagesOf(r1);
    b := PagesOf(r2) + PagesOf(Join(rm, v));
    assert pages[q].rids == r1 + r0 + r2;
    PagesOfFive(Join(rm, u), r1, r0, r2, Join(rm, v));
    levels' := levels[l - 1 := a + news + b];
    ReplacedLevelled(levels, levels', ht, ht', l - 1, a, b, olds, news);
    UpperStack(pages, pages', levels, levels', ht, ht', q, i, olds, news, u, v, a, b);
    forall m | 1 <= m < |levels'| ensures Stack(rm', levels', m) {
      if m == l - 1 {
        assert Stack(rm, levels, m);
        LowerStack(pages, pages', levels, ht, ht', q, i, olds, news, a, b);
      } else if m != l {
        OtherStack(pages, pages', levels, levels', ht, ht', q, i, olds, news, m);
      }
    }
  }

  lemma PagesOfFive(a: seq<RecordID>, b: seq<RecordID>, c: seq<RecordID>, d: seq<RecordID>, e: seq<RecordID>)
    ensures PagesOf(a + (b + c + d) + e) == PagesOf(a) + PagesOf(b) + PagesOf(c) + (PagesOf(d) + PagesOf(e))
  {
    PagesOfConcat(a + (b + c + d), e);
    PagesOfConcat(a, b + c + d);
    PagesOfConcat(b + c, d);
    PagesOfConcat(b, c);
  }

  lemma OtherStack(pages: Pages, pages': Pages, levels: seq<seq<int>>, levels': seq<seq<int>>, ht: Heights,
                   ht': Heights,
                   q: int, i: nat, olds: seq<int>, news: seq<int>, m: nat)
    requires Regroup(pages, pages', ht, ht', q, i, olds, news)
    requires Typed(pages, ht) && Levelled(levels, ht) && Stacked(RidMap(pages), levels)
    requires 1 <= m < |levels| == |levels'| && ht[q] != m && ht[q] - 1 != m
    requires levels'[m] == levels[m] && levels'[m - 1] == levels[m - 1]
    ensures Stack(RidMap(pages'), levels', m)
  {
    var rm, rm' := RidMap(pages), RidMap(pages');
    forall x | x in levels[m] ensures x in rm && x in rm' && rm[x] == rm'[x] {
      assert x in ht && NodeOk(pages, ht, x);
      assert x in ht' && x !in news && x != q;
    }
    JoinFrame(rm, rm', levels[m]);
    assert Stack(rm, levels, m);
  }

  lemma {:induction false} JoinAround<T>(m: map<int, seq<T>>, u: seq<int>, q: int, v: seq<int>)
    requires q in m
    ensures Join(m, u + [q] + v) == Join(m, u) + m[q] + Join(m, v)
  {
    JoinConcat(m, u + [q], v);
    JoinConcat(m, u, [q]);
    JoinOne(m, q);
  }

  lemma ReplacedLevelled(levels: seq<seq<int>>, levels': seq<seq<int>>, ht: Heights, ht': Heights,
                         l: nat, a: seq<int>, b: seq<int>, olds: seq<int>, news: seq<int>)
    requires Levelled(levels, ht) && l < |levels| && levels[l] == a + olds + b
    requires levels' == levels[l := a + news + b]
    requires HeightsReplaced(ht, ht', l, olds, news) && NoDup(news)
    ensures Levelled(levels', ht')
  {
    assert NoDup(a + olds + b);
    NoDupParts(a + olds, b);
    NoDupParts(a, olds);
    forall x | x in a ensures x !in news && x !in b {
      assert x in a + olds;
      assert x in levels[l];
      assert x in ht && x !in olds;
    }
    NoDupConcat(a, news);
    forall x | x in b ensures x !in news {
      assert x in olds ==> x in a + olds;
      assert x in levels[l];
      assert x in ht && x !in olds;
    }
    forall x | x in a + news ensures x !in b { }
    NoDupConcat(a + news, b);
    forall m, p | 0 <= m < |levels'| && p in levels'[m] ensures p in ht' && ht'[p] == m {
      if m == l {
        if p !in news { assert p in a || p in b; assert p in levels[l]; }
      } else {
        assert p in levels[m];
        assert p !in news;
      }
    }
    forall p | p in ht' ensures ht'[p] < |levels'| && p in levels'[ht'[p]] {
      if p in news {
        assert p in a + news;
      } else {
        assert p in levels[ht[p]];
        if ht[p] == l { assert p in a || p in b; assert p in a ==> p in a + news; }
      }
    }
  }

  lemma {:induction false} UpperStack(pages: Pages, pages': Pages, levels: seq<seq<int>>, levels': seq<seq<int>>,
                                      ht: Heights, ht': Heights,
                   q: int, i: nat, olds: seq<int>, news: seq<int>,
                   u: seq<int>, v: seq<int>, a: seq<int>, b: seq<int>)
    requires Regroup(pages, pages', ht, ht', q, i, olds, news) && Typed(pages, ht) && Levelled(levels, ht)
    requires 0 < ht[q] < |levels| && levels[ht[q]] == u + [q] + v && q !in u && q !in v
    requires a == PagesOf(Join(RidMap(pages), u)) + PagesOf(pages[q].rids[..i])
    requires b == PagesOf(pages[q].rids[i + |olds|..]) + PagesOf(Join(RidMap(pages), v))
    requires levels' == levels[ht[q] - 1 := a + news + b]
    ensures Stack(RidMap(pages'), levels', ht[q])
  {
    var rm, rm' := RidMap(pages), RidMap(pages');
    forall x | x in u || x in v ensures x in rm && x in rm' && rm[x] == rm'[x] {
      assert x in levels[ht[q]];
      assert x in ht && NodeOk(pages, ht, x);
      assert x !in olds && x !in news && x in ht';
    }
    JoinFrame(rm, rm', u);
    JoinFrame(rm, rm', v);
    JoinAround(rm', u, q, v);
    var r1, r2 := pages[q].rids[..i], pages[q].rids[i + |olds|..];
    PagesOfFive(Join(rm, u), r1, ChildRids(news), r2, Join(rm, v));
    PagesOfChildRids(news);
  }

  lemma {:induction false} LowerStack(pages: Pages, pages': Pages, levels: seq<seq<int>>, ht: Heights, ht': Heights,
                   q: int, i: nat, olds: seq<int>, news: seq<int>, a: seq<int>, b: seq<int>)
    requires Regroup(pages, pages', ht, ht', q, i, olds, news) && Typed(pages, ht) && Levelled(levels, ht)
    requires ht[q] < |levels| && levels[ht[q] - 1] == a + olds + b
    ensures Join(RidMap(pages'), a + news + b) == Join(RidMap(pages), a + olds + b)
    ensures Join(KeyMap(pages'), a + news + b) == Join(KeyMap(pages), a + olds + b)
  {
    NoDupParts(a + olds, b);
    NoDupParts(a, olds);
    forall x | x in a || x in b ensures x in pages && x in pages' && SameBody(pages[x], pages'[x]) {
      assert x in levels[ht[q] - 1];
      assert x in ht && ht[x] == ht[q] - 1;
      assert x in b ==> x in olds ==> x in a + olds;
      assert x !in olds && x !in news && x in ht' && x != q;
    }
    JoinFrame(RidMap(pages), RidMap(pages'), a);
    JoinFrame(RidMap(pages), RidMap(pages'), b);
    JoinFrame(KeyMap(pages), KeyMap(pages'), a);
    JoinFrame(KeyMap(pages), KeyMap(pages'), b);
    JoinThree(RidMap(pages), a, olds, b);
    JoinThree(RidMap(pages'), a, news, b);
    JoinThree(KeyMap(pages), a, olds, b);
    JoinThree(KeyMap(pages'), a, news, b);
  }

  lemma {:induction false} JoinThree<T>(m: map<int, seq<T>>, a: seq<int>, b: seq<int>, c: seq<int>)
    ensures Join(m, a + b + c) == Join(m, a) + Join(m, b) + Join(m, c)
  {
    JoinConcat(m, a + b, c);
    JoinConcat(m, a, b);
  }

  /** A regrouping leaves the leaf sequence of keys and rids as it was. */
  lemma RegroupContents(pages: Pages, pages': Pages, hdr: IndexHeader, levels: seq<seq<int>>, levels': seq<seq<int>>,
                        ht: Heights, ht': Heights, q: int, i: nat, olds: seq<int>, news: seq<int>,
                        a: seq<int>, b: seq<int>)
    requires Shaped(pages, hdr, levels, ht)
    requires Regroup(pages, pages', ht, ht', q, i, olds, news)
    requires ht[q] <= |levels| - 1 && levels[ht[q] - 1] == a + olds + b
    requires levels' == levels[ht[q] - 1 := a + news + b]
    ensures Join(KeyMap(pages'), levels'[0]) == Join(KeyMap(pages), levels[0])
    ensures Join(RidMap(pages'), levels'[0]) == Join(RidMap(pages), levels[0])
  {
    if ht[q] == 1 {
      LowerStack(pages, pages', levels, ht, ht', q, i, olds, news, a, b);
    } else {
      forall x | x in levels[0] ensures x in pages && x in pages' && SameBody(pages[x], pages'[x]) {
        assert x in ht && ht[x] == 0;
        assert x in ht' && x !in news && x != q;
      }
      JoinFrame(KeyMap(pages), KeyMap(pages'), levels[0]);
      JoinFrame(RidMap(pages), RidMap(pages'), levels[0]);
    }
  }
}
