/** The single steps of insert_entry and delete_entry as changes of the page map, and what each one keeps. */
module IndexSteps {
  import opened Common
  import opened Seqs
  import opened IndexPages
  import opened IndexRegroup
  import opened IndexLinks

  // ----- editing a leaf -----

  ghost predicate LeafEdit(pages: Pages, pages': Pages, ht: Heights, leaf: int) {
    && NodeOk(pages, ht, leaf) && ht[leaf] == 0 && leaf in pages'
    && pages' == pages[leaf := pages[leaf].(keys := pages'[leaf].keys, rids := pages'[leaf].rids)]
    && |pages'[leaf].keys| == |pages'[leaf].rids|
  }

  lemma LeafEditShaped(pages: Pages, pages': Pages, hdr: IndexHeader, levels: seq<seq<int>>, ht: Heights, leaf: int)
    requires Shaped(pages, hdr, levels, ht) && LeafEdit(pages, pages', ht, leaf)
    ensures Shaped(pages', hdr, levels, ht)
  {
    forall p | p in ht ensures NodeOk(pages', ht, p) { assert NodeOk(pages, ht, p); }
    forall p, i | p in ht && NodeOk(pages', ht, p) && ht[p] > 0 && 0 <= i < |pages'[p].rids|
      ensures ChildOk(pages', ht, p, i)
    {
      assert NodeOk(pages, ht, p) && ChildOk(pages, ht, p, i);
    }
    forall l | 1 <= l < |levels| ensures Stack(RidMap(pages'), levels, l) {
      assert Stack(RidMap(pages), levels, l);
      forall p | p in levels[l]
        ensures p in RidMap(pages) && p in RidMap(pages') && RidMap(pages)[p] == RidMap(pages')[p]
      {
        assert p in ht && ht[p] == l && NodeOk(pages, ht, p);
      }
      JoinFrame(RidMap(pages), RidMap(pages'), levels[l]);
    }
  }

  ghost predicate SameMax(pages: Pages, pages': Pages, p: int)
    requires p in pages && p in pages'
  {
    pages'[p].keys != [] && pages[p].keys != [] && Last(pages'[p].keys) == Last(pages[p].keys)
  }

  lemma LeafEditKeyed(pages: Pages, pages': Pages, ht: Heights, leaf: int)
    requires Typed(pages, ht) && Keyed(pages, ht, {}) && LeafEdit(pages, pages', ht, leaf)
    ensures Keyed(pages', ht, {leaf})
    ensures SameMax(pages, pages', leaf) ==> Keyed(pages', ht, {})
  {
    forall p, i | p in ht && NodeOk(pages', ht, p) && ht[p] > 0 && 0 <= i < |pages'[p].rids|
      ensures KeyOk(pages', ht, p, i, {leaf})
      ensures SameMax(pages, pages', leaf) ==> KeyOk(pages', ht, p, i, {})
    {
      assert NodeOk(pages, ht, p) && KeyOk(pages, ht, p, i, {});
    }
  }

  lemma LeafEditFrame(pages: Pages, pages': Pages, hdr: IndexHeader, sh: Shape, leaf: int, except: set<int>)
    requires Levelled(sh.levels, sh.ht) && LeafEdit(pages, pages', sh.ht, leaf)
    requires Ringed(pages, sh.levels[0], hdr) && Partition(pages, hdr, sh.ht.Keys, sh.free)
    requires Sized(pages, sh.ht, hdr, except)
    ensures Ringed(pages', sh.levels[0], hdr) && Partition(pages', hdr, sh.ht.Keys, sh.free)
    ensures Sized(pages', sh.ht, hdr, except + {leaf})
  {
    RingFrame(pages, pages', sh.levels[0], hdr, hdr);
    PartitionFrame(pages, pages', hdr, hdr, sh.ht.Keys, sh.free);
    forall p | p in sh.ht && p !in except + {leaf} ensures SizeOk(pages', hdr, p) { assert SizeOk(pages, hdr, p); }
  }

  // ----- maintain_parent -----

  /** The key of child curr in its parent q is set to the largest key of curr. */
  lemma KeySetKeyed(pages: Pages, pages': Pages, ht: Heights, q: int, rank: nat, curr: int, orphans: set<int>)
    requires Typed(pages, ht) && Linked(pages, ht, orphans) && NodeOk(pages, ht, q) && NodeOk(pages, ht, curr)
    requires ht[q] == ht[curr] + 1 && curr !in orphans && rank < |pages[q].rids| && pages[q].rids[rank].page == curr
    requires forall k :: 0 <= k < |pages[q].rids| && k != rank ==> pages[q].rids[k].page != curr
    requires Keyed(pages, ht, {curr, q}) && pages[curr].keys != [] && pages[curr].parent == q
    requires pages' == pages[q := pages[q].(keys := pages[q].keys[rank := Last(pages[curr].keys)])]
    ensures Keyed(pages', ht, {q}) && KeysOnly(pages, pages', ht)
  {
    forall p, i | p in ht && NodeOk(pages', ht, p) && ht[p] > 0 && 0 <= i < |pages'[p].rids|
      ensures KeyOk(pages', ht, p, i, {q})
    {
      assert NodeOk(pages, ht, p) && KeyOk(pages, ht, p, i, {curr, q}) && ChildOk(pages, ht, p, i, orphans);
    }
  }

  lemma EmptyChildKeyed(pages: Pages, ht: Heights, curr: int, q: int)
    requires Keyed(pages, ht, {curr, q}) && curr in pages && pages[curr].keys == []
    ensures Keyed(pages, ht, {q})
  {
    forall p, i | p in ht && NodeOk(pages, ht, p) && ht[p] > 0 && 0 <= i < |pages[p].rids|
      ensures KeyOk(pages, ht, p, i, {q})
    {
      assert KeyOk(pages, ht, p, i, {curr, q});
    }
  }

  lemma KeyedWeaken(pages: Pages, ht: Heights, a: set<int>, b: set<int>)
    requires Keyed(pages, ht, a) && a <= b
    ensures Keyed(pages, ht, b)
  {
    forall p, i | p in ht && NodeOk(pages, ht, p) && ht[p] > 0 && 0 <= i < |pages[p].rids|
      ensures KeyOk(pages, ht, p, i, b)
    {
      assert KeyOk(pages, ht, p, i, a);
    }
  }

  /** The root is nobody's child, so its being out of date does not matter. */
  lemma KeyedAtRoot(pages: Pages, hdr: IndexHeader, levels: seq<seq<int>>, ht: Heights, orphans: set<int>)
    requires Shaped(pages, hdr, levels, ht, orphans) && Keyed(pages, ht, {hdr.rootPage, NO_PAGE})
    ensures Keyed(pages, ht, {})
  {
    RootHeight(pages, hdr, levels, ht);
    forall p, i | p in ht && NodeOk(pages, ht, p) && ht[p] > 0 && 0 <= i < |pages[p].rids|
      ensures KeyOk(pages, ht, p, i, {})
    {
      assert KeyOk(pages, ht, p, i, {hdr.rootPage, NO_PAGE}) && ChildOk(pages, ht, p, i, orphans);
      assert ht[p] <= ht[hdr.rootPage];
    }
  }

  // ----- a new root above the old one -----

  ghost predicate GrowStep(pages: Pages, pages': Pages, ht: Heights, p: int, r: int) {
    && p in pages && pages[p].keys != [] && r != p && r in pages'
    && pages' == pages[r := pages'[r]][p := pages[p].(parent := r)]
    && pages'[r].keys == [Last(pages[p].keys)] && pages'[r].rids == [RecordID(p, -1)]
    && !pages'[r].isLeaf && pages'[r].parent == NO_PAGE
  }

  lemma GrowShaped(pages: Pages, pages': Pages, hdr: IndexHeader, hdr': IndexHeader, levels: seq<seq<int>>,
                   ht: Heights, p: int, r: int)
    requires Shaped(pages, hdr, levels, ht) && p == hdr.rootPage && r !in ht && r >= INIT_ROOT_PAGE
    requires GrowStep(pages, pages', ht, p, r) && hdr'.rootPage == r
    ensures Shaped(pages', hdr', levels + [[r]], ht[r := |levels|])
  {
    var ht', levels' := ht[r := |levels|], levels + [[r]];
    RootHeight(pages, hdr, levels, ht);
    forall x | x in ht' ensures NodeOk(pages', ht', x) { if x != r { assert NodeOk(pages, ht, x); } }
    forall x, i | x in ht' && NodeOk(pages', ht', x) && ht'[x] > 0 && 0 <= i < |pages'[x].rids|
      ensures ChildOk(pages', ht', x, i)
    {
      if x != r {
        assert NodeOk(pages, ht, x) && ChildOk(pages, ht, x, i);
        assert ht[x] <= ht[p];
      }
    }
    forall l, x | 0 <= l < |levels'| && x in levels'[l] ensures x in ht' && ht'[x] == l { }
    GrowStacked(pages, pages', hdr, levels, ht, p, r);
  }

  lemma GrowStacked(pages: Pages, pages': Pages, hdr: IndexHeader, levels: seq<seq<int>>, ht: Heights, p: int, r: int)
    requires Shaped(pages, hdr, levels, ht) && p == hdr.rootPage && r !in ht && GrowStep(pages, pages', ht, p, r)
    ensures Stacked(RidMap(pages'), levels + [[r]])
  {
    hide ChildOk;
    var levels' := levels + [[r]];
    forall l | 1 <= l < |levels'| ensures Stack(RidMap(pages'), levels', l) {
      if l == |levels| {
        JoinOne(RidMap(pages'), r);
      } else {
        assert Stack(RidMap(pages), levels, l);
        forall x | x in levels[l]
          ensures x in RidMap(pages) && x in RidMap(pages') && RidMap(pages)[x] == RidMap(pages')[x]
        {
          assert x in ht && NodeOk(pages, ht, x);
        }
        JoinFrame(RidMap(pages), RidMap(pages'), levels[l]);
      }
    }
  }

  lemma GrowKeyed(pages: Pages, pages': Pages, hdr: IndexHeader, levels: seq<seq<int>>, ht: Heights, p: int, r: int)
    requires Shaped(pages, hdr, levels, ht) && p == hdr.rootPage && r !in ht
    requires GrowStep(pages, pages', ht, p, r) && Keyed(pages, ht, {})
    ensures Keyed(pages', ht[r := |levels|], {})
  {
    var ht' := ht[r := |levels|];
    forall x, i | x in ht' && NodeOk(pages', ht', x) && ht'[x] > 0 && 0 <= i < |pages'[x].rids|
      ensures KeyOk(pages', ht', x, i, {})
    {
      if x != r { assert NodeOk(pages, ht, x) && KeyOk(pages, ht, x, i, {}) && ChildOk(pages, ht, x, i); }
    }
  }

  lemma GrowFrame(pages: Pages, pages': Pages, hdr: IndexHeader, hdr': IndexHeader, sh: Shape, p: int, r: int)
    requires Typed(pages, sh.ht) && Levelled(sh.levels, sh.ht) && p in sh.ht && p == hdr.rootPage
    requires r !in sh.ht && r >= INIT_ROOT_PAGE && GrowStep(pages, pages', sh.ht, p, r)
    requires Ringed(pages, sh.levels[0], hdr) && Sized(pages, sh.ht, hdr, {p})
    requires hdr' == hdr.(rootPage := r, firstFree := hdr'.firstFree, numPages := hdr'.numPages)
    ensures Ringed(pages', (sh.levels + [[r]])[0], hdr')
    ensures Sized(pages', sh.ht[r := |sh.levels|], hdr', {p, r})
    ensures Join(KeyMap(pages'), sh.levels[0]) == Join(KeyMap(pages), sh.levels[0])
    ensures Join(RidMap(pages'), sh.levels[0]) == Join(RidMap(pages), sh.levels[0])
  {
    forall x | x in sh.levels[0] ensures x in sh.ht && x in pages && x in pages' && SameBody(pages[x], pages'[x]) {
      assert x in sh.ht && NodeOk(pages, sh.ht, x);
    }
    JoinFrame(KeyMap(pages), KeyMap(pages'), sh.levels[0]);
    JoinFrame(RidMap(pages), RidMap(pages'), sh.levels[0]);
    RingFrame(pages, pages', sh.levels[0], hdr, hdr');
    forall x | x in sh.ht && x !in {p, r} ensures SizeOk(pages', hdr', x) { assert SizeOk(pages, hdr, x); }
  }

  // ----- splitting page p, child i of q, at m; page b receives the upper part -----

  ghost predicate SplitStep(pages: Pages, pages': Pages, ht: Heights, p: int, b: int, q: int, i: nat, m: nat) {
    && NodeOk(pages, ht, p) && NodeOk(pages, ht, q) && ht[q] == ht[p] + 1 && pages[p].parent == q
    && b !in ht && b >= INIT_ROOT_PAGE && p in pages' && b in pages' && q in pages'
    && i < |pages[q].rids| && pages[q].rids[i] == RecordID(p, -1) && 0 < m < |pages[p].rids|
    && SameBody(pages'[p], pages[p].(keys := pages[p].keys[..m], rids := pages[p].rids[..m])) && pages'[p].parent == q
    && SameBody(pages'[b], pages[p].(keys := pages[p].keys[m..], rids := pages[p].rids[m..])) && pages'[b].parent == q
    && SameBody(pages'[q], pages[q].(keys := InsertAt(pages[q].keys, i, [pages[p].keys[m - 1]]),
                                     rids := InsertAt(pages[q].rids, i + 1, [RecordID(b, -1)])))
    && pages'[q].parent == pages[q].parent
    && (forall x :: x in pages && x != p && x != b && x != q ==> x in pages' && SameBody(pages[x], pages'[x]))
    && (forall x :: x in pages && x != p && x != b && x != q ==>
          x in pages' && pages'[x].parent == if ht[p] > 0 && x in PagesOf(pages[p].rids[m..]) then b
            else pages[x].parent)
  }

  lemma SplitRegroups(pages: Pages, pages': Pages, ht: Heights, p: int, b: int, q: int, i: nat, m: nat)
    requires Typed(pages, ht) && SplitStep(pages, pages', ht, p, b, q, i, m) && pages[q].keys[i] == Last(pages[p].keys)
    ensures Regroup(pages, pages', ht, ht[b := ht[p]], q, i, [p], [p, b])
  {
    var ht' := ht[b := ht[p]];
    assert pages[q].rids[i..i + 1] == [RecordID(p, -1)];
    assert ChildRids([p, b]) == [RecordID(p, -1), RecordID(b, -1)];
    assert pages'[q].rids == pages[q].rids[..i] + ChildRids([p, b]) + pages[q].rids[i + 1..];
    JoinOne(RidMap(pages), p);
    JoinOne(KeyMap(pages), p);
    JoinTwo(RidMap(pages'), p, b);
    JoinTwo(KeyMap(pages'), p, b);
    forall x | x in ht' && x !in [p, b] && x != q ensures x in pages && x in pages' && SameBody(pages[x], pages'[x]) {
      assert x in ht && NodeOk(pages, ht, x);
    }
  }

  lemma SplitRekeys(pages: Pages, pages': Pages, ht: Heights, p: int, b: int, q: int, i: nat, m: nat)
    requires SplitStep(pages, pages', ht, p, b, q, i, m) && pages[q].keys[i] == Last(pages[p].keys)
    ensures Rekeyed(pages, pages', q, i, [p], [p, b], {})
    ensures MaxKept(pages, pages', q, {})
  {
  }

  lemma {:induction false} JoinTwo<T>(m: map<int, seq<T>>, x: int, y: int)
    requires x in m && y in m
    ensures Join(m, [x, y]) == m[x] + m[y]
  {
    assert [x, y][1..] == [y];
    JoinOne(m, y);
  }

  lemma KidsParent(pages: Pages, ht: Heights, p: int, m: nat)
    requires Linked(pages, ht) && NodeOk(pages, ht, p) && ht[p] > 0 && m <= |pages[p].rids|
    ensures forall x :: x in PagesOf(pages[p].rids[m..]) ==> x in pages && pages[x].parent == p
  {
    var moved := PagesOf(pages[p].rids[m..]);
    forall x | x in moved ensures x in pages && pages[x].parent == p {
      var k :| 0 <= k < |moved| && moved[k] == x;
      assert ChildOk(pages, ht, p, m + k);
    }
  }

  lemma SplitReparents(pages: Pages, pages': Pages, ht: Heights, p: int, b: int, q: int, i: nat, m: nat)
    requires Typed(pages, ht) && Linked(pages, ht) && SplitStep(pages, pages', ht, p, b, q, i, m)
    requires forall j, k :: 0 <= j < k < |pages[p].rids| && ht[p] > 0 ==> pages[p].rids[j].page != pages[p].rids[k].page
    ensures Reparented(pages, pages', ht[b := ht[p]], [p], [p, b], {})
  {
    var ht' := ht[b := ht[p]];
    var moved := PagesOf(pages[p].rids[m..]);
    if ht[p] > 0 { KidsParent(pages, ht, p, m); }
    forall x, k | x in [p, b] && NodeOk(pages', ht', x) && ht'[x] > 0 && 0 <= k < |pages'[x].rids|
      ensures var c := pages'[x].rids[k].page; c in pages' && pages'[c].parent == x
    {
      var j := if x == p then k else m + k;
      assert ChildOk(pages, ht, p, j);
      var c := pages[p].rids[j].page;
      assert c == pages'[x].rids[k].page && c != p && c != q && c != b;
      if x == b { assert moved[k] == c; }
      else { forall h | 0 <= h < |moved| ensures moved[h] != c { assert moved[h] == pages[p].rids[m + h].page; } }
    }
  }

  // ----- what a regrouping keeps, all together -----

  lemma RegroupTree(pages: Pages, pages': Pages, hdr: IndexHeader, hdr': IndexHeader, levels: seq<seq<int>>,
                    ht: Heights, ht': Heights, q: int, i: nat, olds: seq<int>, news: seq<int>,
                    except: set<int>, orphans: set<int>)
    returns (levels': seq<seq<int>>, a: seq<int>, b: seq<int>)
    requires Shaped(pages, hdr, levels, ht) && Keyed(pages, ht, except) && hdr'.rootPage == hdr.rootPage
    requires Regroup(pages, pages', ht, ht', q, i, olds, news) && Reparented(pages, pages', ht', olds, news, orphans)
    requires Rekeyed(pages, pages', q, i, olds, news, except) && MaxKept(pages, pages', q, except)
    ensures Shaped(pages', hdr', levels', ht', orphans) && Keyed(pages', ht', except)
    ensures ht[q] <= |levels| - 1 && levels[ht[q] - 1] == a + olds + b
    ensures levels' == levels[ht[q] - 1 := a + news + b]
    ensures Join(KeyMap(pages'), levels'[0]) == Join(KeyMap(pages), levels[0])
    ensures Join(RidMap(pages'), levels'[0]) == Join(RidMap(pages), levels[0])
  {
    RegroupTyped(pages, pages', ht, ht', q, i, olds, news);
    RegroupLinked(pages, pages', hdr, levels, ht, ht', q, i, olds, news, orphans);
    RegroupKeyed(pages, pages', hdr, levels, ht, ht', q, i, olds, news, except, orphans);
    levels', a, b := RegroupLevels(pages, pages', hdr, levels, ht, ht', q, i, olds, news);
    RegroupContents(pages, pages', hdr, levels, levels', ht, ht', q, i, olds, news, a, b);
    RegroupRooted(pages, pages', hdr, levels, levels', ht, ht', q, i, olds, news, orphans);
  }

  lemma RegroupRooted(pages: Pages, pages': Pages, hdr: IndexHeader, levels: seq<seq<int>>, levels': seq<seq<int>>,
                      ht: Heights, ht': Heights, q: int, i: nat, olds: seq<int>, news: seq<int>, orphans: set<int>)
    requires Shaped(pages, hdr, levels, ht)
    requires Regroup(pages, pages', ht, ht', q, i, olds, news) && Reparented(pages, pages', ht', olds, news, orphans)
    requires ht[q] <= |levels| - 1 == |levels'| - 1 && levels'[|levels| - 1] == levels[|levels| - 1]
    ensures Rooted(pages', levels', hdr.rootPage)
  {
    RootHeight(pages, hdr, levels, ht);
    var r := hdr.rootPage;
    assert r !in olds && r in ht';
    assert forall x :: x in olds ==> NodeOk(pages, ht, x) by {
      forall x | x in olds ensures NodeOk(pages, ht, x) { assert x in ht; }
    }
    assert pages[r].parent !in olds;
  }

  lemma RegroupSized(pages: Pages, pages': Pages, hdr: IndexHeader, hdr': IndexHeader,
                     ht: Heights, ht': Heights, q: int, i: nat, olds: seq<int>, news: seq<int>, except: set<int>,
                       except': set<int>)
    requires Regroup(pages, pages', ht, ht', q, i, olds, news) && Sized(pages, ht, hdr, except)
    requires hdr'.rootPage == hdr.rootPage && hdr'.order == hdr.order
    requires forall x :: x in except && x in ht' && x !in news && x != q ==> x in except'
    requires forall x :: x in news ==> x in except' || SizeOk(pages', hdr', x)
    requires q in except' || SizeOk(pages', hdr', q)
    ensures Sized(pages', ht', hdr', except')
  {
    forall x | x in ht' && x !in except' ensures SizeOk(pages', hdr', x) {
      if x !in news && x != q {
        assert x in ht && x !in except;
        assert SizeOk(pages, hdr, x) && SameBody(pages[x], pages'[x]);
      }
    }
  }

  // ----- moving one entry between neighbours x and y, children i and i + 1 of q -----

  /** From the end of x to the front of y, or (left == false) from the front of y to the end of x. */
  ghost predicate BorrowStep(pages: Pages, pages': Pages, ht: Heights, x: int, y: int, q: int, i: nat, left: bool) {
    && NodeOk(pages, ht, x) && NodeOk(pages, ht, y) && NodeOk(pages, ht, q) && x != y
    && ht[x] == ht[y] && ht[q] == ht[x] + 1 && pages[x].parent == q && pages[y].parent == q
    && i + 1 < |pages[q].rids| && pages[q].rids[i] == RecordID(x, -1) && pages[q].rids[i + 1] == RecordID(y, -1)
    && (if left then |pages[x].rids| > 0 else |pages[y].rids| > 0)
    && var (kx, rx, ky, ry) := (pages[x].keys, pages[x].rids, pages[y].keys, pages[y].rids);
       if left then pages' == pages[x := pages[x].(keys := kx[..|kx| - 1], rids := rx[..|rx| - 1])]
                                   [y := pages[y].(keys := [Last(kx)] + ky, rids := [Last(rx)] + ry)]
       else pages' == pages[x := pages[x].(keys := kx + [ky[0]], rids := rx + [ry[0]])]
                           [y := pages[y].(keys := ky[1..], rids := ry[1..])]
  }

  function MovedPage(pages: Pages, x: int, y: int, left: bool): int
    requires x in pages && y in pages && (if left then |pages[x].rids| > 0 else |pages[y].rids| > 0)
  {
    if left then Last(pages[x].rids).page else pages[y].rids[0].page
  }

  /** The child that changes parents with a borrowed slot of inner pages. */
  function BorrowOrphans(pages: Pages, ht: Heights, x: int, y: int, left: bool): set<int>
    requires x in pages && y in pages && (if left then |pages[x].rids| > 0 else |pages[y].rids| > 0)
    requires x in ht
  {
    if ht[x] > 0 then {MovedPage(pages, x, y, left)} else {}
  }

  lemma LastMoved<T>(a: seq<T>, b: seq<T>)
    requires |a| > 0
    ensures a[..|a| - 1] + ([Last(a)] + b) == a + b
  {
  }

  lemma FirstMoved<T>(a: seq<T>, b: seq<T>)
    requires |b| > 0
    ensures a + [b[0]] + b[1..] == a + b
  {
  }

  lemma BorrowRegroups(pages: Pages, pages': Pages, ht: Heights, x: int, y: int, q: int, i: nat, left: bool)
    requires Typed(pages, ht) && BorrowStep(pages, pages', ht, x, y, q, i, left)
    ensures Regroup(pages, pages', ht, ht, q, i, [x, y], [x, y])
  {
    hide Typed;
    assert pages[q].rids[i..i + 2] == [RecordID(x, -1), RecordID(y, -1)];
    assert ChildRids([x, y]) == [RecordID(x, -1), RecordID(y, -1)];
    assert pages[q].rids == pages[q].rids[..i] + pages[q].rids[i..i + 2] + pages[q].rids[i + 2..];
    BorrowContents(pages, pages', ht, x, y, q, i, left);
    LivePages(pages, ht);
  }

  lemma LivePages(pages: Pages, ht: Heights)
    requires Typed(pages, ht)
    ensures forall z :: z in ht ==> z in pages
  {
    forall z | z in ht ensures z in pages { assert NodeOk(pages, ht, z); }
  }

  /** A borrow moves slots between neighbours without changing what they hold together. */
  lemma BorrowContents(pages: Pages, pages': Pages, ht: Heights, x: int, y: int, q: int, i: nat, left: bool)
    requires BorrowStep(pages, pages', ht, x, y, q, i, left)
    ensures Join(RidMap(pages), [x, y]) == Join(RidMap(pages'), [x, y])
    ensures Join(KeyMap(pages), [x, y]) == Join(KeyMap(pages'), [x, y])
  {
    hide Join;
    JoinTwo(RidMap(pages), x, y);
    JoinTwo(KeyMap(pages), x, y);
    JoinTwo(RidMap(pages'), x, y);
    JoinTwo(KeyMap(pages'), x, y);
    if left {
      LastMoved(pages[x].keys, pages[y].keys);
      LastMoved(pages[x].rids, pages[y].rids);
    } else {
      FirstMoved(pages[x].keys, pages[y].keys);
      FirstMoved(pages[x].rids, pages[y].rids);
    }
  }

  lemma BorrowReparents(pages: Pages, pages': Pages, ht: Heights, x: int, y: int, q: int, i: nat, left: bool)
    requires Typed(pages, ht) && Linked(pages, ht) && BorrowStep(pages, pages', ht, x, y, q, i, left)
    ensures Reparented(pages, pages', ht, [x, y], [x, y], BorrowOrphans(pages, ht, x, y, left))
  {
    var c0 := MovedPage(pages, x, y, left);
    forall z, k | z in [x, y] && NodeOk(pages', ht, z) && ht[z] > 0 && 0 <= k < |pages'[z].rids|
      ensures var c := pages'[z].rids[k].page;
        c in pages' && (c in BorrowOrphans(pages, ht, x, y, left) || pages'[c].parent == z)
    {
      if left && z == y {
        if k == 0 { assert ChildOk(pages, ht, x, |pages[x].rids| - 1); } else { assert ChildOk(pages, ht, y, k - 1); }
      } else if !left && z == x {
        if k == |pages[x].rids| { assert ChildOk(pages, ht, y, 0); } else { assert ChildOk(pages, ht, x, k); }
      } else {
        assert ChildOk(pages, ht, z, if left then k else k + 1);
      }
    }
  }

  /** Setting the parent of the one orphan restores all parent pointers. */
  lemma AdoptShaped(pages: Pages, pages': Pages, hdr: IndexHeader, levels: seq<seq<int>>, ht: Heights, y: int, k: nat,
                    c: int)
    requires Shaped(pages, hdr, levels, ht, {c})
    requires NodeOk(pages, ht, y) && ht[y] > 0 && k < |pages[y].rids| && pages[y].rids[k].page == c && c in pages
    requires pages' == pages[c := pages[c].(parent := y)]
    ensures Shaped(pages', hdr, levels, ht)
  {
    assert ChildOk(pages, ht, y, k, {c});
    RootHeight(pages, hdr, levels, ht);
    assert ht[y] <= |levels| - 1;
    assert RidMap(pages') == RidMap(pages);
    forall p | p in ht ensures NodeOk(pages', ht, p) { assert NodeOk(pages, ht, p); }
    forall p, i | p in ht && NodeOk(pages', ht, p) && ht[p] > 0 && 0 <= i < |pages'[p].rids|
      ensures ChildOk(pages', ht, p, i)
    {
      assert NodeOk(pages, ht, p) && ChildOk(pages, ht, p, i, {c});
      if pages[p].rids[i].page == c { OneParent(pages, hdr, levels, ht, {c}, p, i, y, k); }
    }
  }

  /** A page is the child of one page only. */
  lemma OneParent(pages: Pages, hdr: IndexHeader, levels: seq<seq<int>>, ht: Heights, orphans: set<int>,
                  p: int, i: nat, y: int, k: nat)
    requires Shaped(pages, hdr, levels, ht, orphans)
    requires NodeOk(pages, ht, p) && ht[p] > 0 && i < |pages[p].rids|
    requires NodeOk(pages, ht, y) && ht[y] > 0 && k < |pages[y].rids|
    requires pages[p].rids[i].page == pages[y].rids[k].page
    ensures p == y
  {
    assert ChildOk(pages, ht, p, i, orphans) && ChildOk(pages, ht, y, k, orphans);
    var l := ht[p];
    assert p in levels[l] && y in levels[l] && Stack(RidMap(pages), levels, l);
    forall z | z in levels[l] ensures NodeOk(pages, ht, z) { assert z in ht; }
    LiveMaps(pages, ht, levels[l]);
    var g := JoinIndex(KeyMap(pages), RidMap(pages), levels[l], p, i);
    var h := JoinIndex(KeyMap(pages), RidMap(pages), levels[l], y, k);
    assert levels[l - 1][g] == levels[l - 1][h];
    assert NoDup(levels[l - 1]);
  }

  // ----- merging y into its left neighbour x -----

  ghost predicate MergeStep(pages: Pages, pages': Pages, ht: Heights, x: int, y: int, q: int, i: nat, keyAt: nat) {
    && NodeOk(pages, ht, x) && NodeOk(pages, ht, y) && NodeOk(pages, ht, q) && x != y
    && ht[x] == ht[y] && ht[q] == ht[x] + 1 && pages[x].parent == q && pages[y].parent == q
    && i + 1 < |pages[q].rids| && pages[q].rids[i] == RecordID(x, -1) && pages[q].rids[i + 1] == RecordID(y, -1)
    && (keyAt == i || keyAt == i + 1) && x in pages' && y in pages' && q in pages'
    && SameBody(pages'[x], pages[x].(keys := pages[x].keys + pages[y].keys, rids := pages[x].rids + pages[y].rids))
    && pages'[x].parent == q && pages'[q].parent == pages[q].parent
    && SameBody(pages'[q], pages[q].(keys := RemoveAt(pages[q].keys, keyAt), rids := RemoveAt(pages[q].rids, i + 1)))
    && (forall z :: z in pages && z != x && z != y && z != q ==> z in pages' && SameBody(pages[z], pages'[z]))
    && (forall z :: z in pages && z != x && z != y && z != q ==>
          z in pages' && pages'[z].parent == if ht[y] > 0 && z in PagesOf(pages[y].rids) then x else pages[z].parent)
  }

  lemma MergeRegroups(pages: Pages, pages': Pages, ht: Heights, x: int, y: int, q: int, i: nat, keyAt: nat)
    requires Typed(pages, ht) && MergeStep(pages, pages', ht, x, y, q, i, keyAt)
    ensures Regroup(pages, pages', ht, ht - {y}, q, i, [x, y], [x])
    ensures Rekeyed(pages, pages', q, i, [x, y], [x], {x, q}) && MaxKept(pages, pages', q, {x, q})
  {
    var ht' := ht - {y};
    assert pages[q].rids[i..i + 2] == [RecordID(x, -1), RecordID(y, -1)];
    assert ChildRids([x]) == [RecordID(x, -1)];
    assert RemoveAt(pages[q].rids, i + 1) == pages[q].rids[..i] + ChildRids([x]) + pages[q].rids[i + 2..];
    JoinTwo(RidMap(pages), x, y);
    JoinTwo(KeyMap(pages), x, y);
    JoinOne(RidMap(pages'), x);
    JoinOne(KeyMap(pages'), x);
    forall z | z in ht' && z !in [x] && z != q ensures z in pages && z in pages' && SameBody(pages[z], pages'[z]) {
      assert z in ht && NodeOk(pages, ht, z);
    }
  }

  lemma MergeReparents(pages: Pages, pages': Pages, ht: Heights, x: int, y: int, q: int, i: nat, keyAt: nat)
    requires Typed(pages, ht) && Linked(pages, ht) && MergeStep(pages, pages', ht, x, y, q, i, keyAt)
    ensures Reparented(pages, pages', ht - {y}, [x, y], [x], {})
  {
    var ht' := ht - {y};
    if ht[y] > 0 { KidsParent(pages, ht, y, 0); assert pages[y].rids[0..] == pages[y].rids; }
    forall z, k | z in [x] && NodeOk(pages', ht', z) && ht'[z] > 0 && 0 <= k < |pages'[z].rids|
      ensures var c := pages'[z].rids[k].page; c in pages' && pages'[c].parent == z
    {
      var n := |pages[x].rids|;
      var kids := PagesOf(pages[y].rids);
      if k < n {
        assert ChildOk(pages, ht, x, k);
        var c := pages[x].rids[k].page;
        assert c !in kids;
      } else {
        assert ChildOk(pages, ht, y, k - n);
        assert kids[k - n] == pages[y].rids[k - n].page;
      }
    }
  }

  // ----- dropping a root with a single child -----

  ghost predicate ShrinkStep(pages: Pages, pages': Pages, ht: Heights, r: int, c: int) {
    && NodeOk(pages, ht, r) && ht[r] > 0 && |pages[r].rids| == 1 && pages[r].rids[0].page == c
    && c in pages && r != c && r in pages'
    && pages' == pages[c := pages[c].(parent := NO_PAGE)][r := pages'[r]]
  }

  lemma ShrinkShaped(pages: Pages, pages': Pages, hdr: IndexHeader, hdr': IndexHeader, levels: seq<seq<int>>,
                     ht: Heights, r: int, c: int)
    requires Shaped(pages, hdr, levels, ht) && r == hdr.rootPage && ShrinkStep(pages, pages', ht, r, c)
    requires hdr'.rootPage == c
    ensures |levels| > 1 && Shaped(pages', hdr', levels[..|levels| - 1], ht - {r})
  {
    RootHeight(pages, hdr, levels, ht);
    var ht', levels' := ht - {r}, levels[..|levels| - 1];
    assert Stack(RidMap(pages), levels, |levels| - 1);
    JoinOne(RidMap(pages), r);
    assert levels[|levels| - 2] == [c];
    forall x | x in ht' ensures NodeOk(pages', ht', x) { assert NodeOk(pages, ht, x); }
    forall x, i | x in ht' && NodeOk(pages', ht', x) && ht'[x] > 0 && 0 <= i < |pages'[x].rids|
      ensures ChildOk(pages', ht', x, i)
    {
      assert NodeOk(pages, ht, x) && ChildOk(pages, ht, x, i) && ChildOk(pages, ht, r, 0);
    }
    forall l, x | 0 <= l < |levels'| && x in levels'[l] ensures x in ht' && ht'[x] == l { assert x in levels[l]; }
    forall x | x in ht' ensures ht'[x] < |levels'| && x in levels'[ht'[x]] { assert x in levels[ht[x]]; }
    forall l | 1 <= l < |levels'| ensures Stack(RidMap(pages'), levels', l) {
      assert Stack(RidMap(pages), levels, l);
      forall x | x in levels[l]
        ensures x in RidMap(pages) && x in RidMap(pages') && RidMap(pages)[x] == RidMap(pages')[x]
      {
        assert x in ht && NodeOk(pages, ht, x);
      }
      JoinFrame(RidMap(pages), RidMap(pages'), levels[l]);
    }
  }

  lemma ShrinkKeyed(pages: Pages, pages': Pages, ht: Heights, r: int, c: int)
    requires Typed(pages, ht) && Linked(pages, ht) && Keyed(pages, ht, {}) && ShrinkStep(pages, pages', ht, r, c)
    requires pages[r].parent == NO_PAGE
    ensures Keyed(pages', ht - {r}, {})
  {
    var ht' := ht - {r};
    forall x, i | x in ht' && NodeOk(pages', ht', x) && ht'[x] > 0 && 0 <= i < |pages'[x].rids|
      ensures KeyOk(pages', ht', x, i, {})
    {
      assert NodeOk(pages, ht, x) && KeyOk(pages, ht, x, i, {}) && ChildOk(pages, ht, x, i);
    }
  }

  lemma ShrinkFrame(pages: Pages, pages': Pages, hdr: IndexHeader, hdr': IndexHeader, sh: Shape, r: int, c: int)
    requires Shaped(pages, hdr, sh.levels, sh.ht) && r == hdr.rootPage && ShrinkStep(pages, pages', sh.ht, r, c)
    requires |sh.levels| > 1 && Ringed(pages, sh.levels[0], hdr) && Sized(pages, sh.ht, hdr, {r})
    requires hdr' == hdr.(rootPage := c, firstFree := hdr'.firstFree)
    requires MinChildren(hdr.order) >= 2
    ensures Ringed(pages', sh.levels[0], hdr')
    ensures Sized(pages', sh.ht - {r}, hdr', {})
    ensures Join(KeyMap(pages'), sh.levels[0]) == Join(KeyMap(pages), sh.levels[0])
    ensures Join(RidMap(pages'), sh.levels[0]) == Join(RidMap(pages), sh.levels[0])
  {
    RootHeight(pages, hdr, sh.levels, sh.ht);
    LiveAboveHeader(pages, sh);
    forall x | x in sh.levels[0]
      ensures x in sh.ht && x in pages && x in pages' && SameBody(pages[x], pages'[x]) && x != r
    {
      assert x in sh.ht && NodeOk(pages, sh.ht, x);
    }
    JoinFrame(KeyMap(pages), KeyMap(pages'), sh.levels[0]);
    JoinFrame(RidMap(pages), RidMap(pages'), sh.levels[0]);
    RingFrame(pages, pages', sh.levels[0], hdr, hdr');
    assert ChildOk(pages, sh.ht, r, 0);
    forall x | x in sh.ht && x != r ensures SizeOk(pages', hdr', x) { assert SizeOk(pages, hdr, x); }
  }
}
