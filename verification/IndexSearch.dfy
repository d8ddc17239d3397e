/** Why descending by maximum keys finds the bound of a target in the leaf sequence. */
module IndexSearch {
  import opened Seqs
  import opened KeyOrder
  import opened IndexPages

  ghost predicate NonEmpty(km: map<int, seq<Key>>, ps: seq<int>) {
    forall p :: p in ps ==> p in km && km[p] != []
  }

  /** The largest key of each listed page. */
  function Maxes(km: map<int, seq<Key>>, ps: seq<int>): (r: seq<Key>) {
    if ps == [] then []
    else (if ps[0] in km && km[ps[0]] != [] then [Last(km[ps[0]])] else []) + Maxes(km, ps[1..])
  }

  lemma {:induction false} NonEmptyHead(km: map<int, seq<Key>>, ps: seq<int>)
    requires NonEmpty(km, ps) && ps != []
    ensures AllIn(km, ps) && ps[0] in km && km[ps[0]] != [] && NonEmpty(km, ps[1..])
    ensures Join(km, ps) == km[ps[0]] + Join(km, ps[1..])
    ensures Maxes(km, ps) == [Last(km[ps[0]])] + Maxes(km, ps[1..])
  {
    var h := ps[0];
    assert h in ps;
    forall p | p in ps[1..] ensures p in km && km[p] != [] { assert p in ps; }
    AllInTail(km, ps);
  }

  lemma {:induction false} MaxesLength(km: map<int, seq<Key>>, ps: seq<int>)
    requires NonEmpty(km, ps)
    ensures |Maxes(km, ps)| == |ps|
    ensures forall j :: 0 <= j < |ps| ==> ps[j] in km && km[ps[j]] != [] && Maxes(km, ps)[j] == Last(km[ps[j]])
  {
    if ps != [] {
      NonEmptyHead(km, ps);
      MaxesLength(km, ps[1..]);
      forall j | 0 <= j < |ps| ensures ps[j] in km && km[ps[j]] != [] && Maxes(km, ps)[j] == Last(km[ps[j]]) {
        if j > 0 { assert ps[j] == ps[1..][j - 1]; }
      }
    }
  }

  lemma {:induction false} MaxInJoin(km: map<int, seq<Key>>, ps: seq<int>, k: Key)
    requires NonEmpty(km, ps) && k in Maxes(km, ps)
    ensures k in Join(km, ps)
  {
    if ps != [] {
      NonEmptyHead(km, ps);
      if k != Last(km[ps[0]]) { MaxInJoin(km, ps[1..], k); }
    }
  }

  lemma {:induction false} SortedMaxes(o: KeyOrd, km: map<int, seq<Key>>, ps: seq<int>)
    requires NonEmpty(km, ps) && Sorted(o, Join(km, ps))
    ensures Sorted(o, Maxes(km, ps))
  {
    if ps != [] {
      NonEmptyHead(km, ps);
      var hd, tl := km[ps[0]], Join(km, ps[1..]);
      SortedTail(o, hd + tl, |hd|);
      assert (hd + tl)[|hd|..] == tl;
      SortedMaxes(o, km, ps[1..]);
      var ms := Maxes(km, ps[1..]);
      assert (hd + tl)[|hd| - 1] == Last(hd);
      forall j | 0 <= j < |ms| ensures o.cmp(Last(hd), ms[j]) <= 0 {
        MaxInJoin(km, ps[1..], ms[j]);
        var g :| 0 <= g < |tl| && tl[g] == ms[j];
        assert (hd + tl)[|hd| + g] == tl[g];
      }
    }
  }

  /** The page whose maximum is the first not before the target's bound holds the cut of the whole, at its own cut. */
  ghost predicate Descends(o: KeyOrd, upper: bool, t: Key, km: map<int, seq<Key>>, ps: seq<int>)
    requires ps != []
  {
    var j := CutIndex(o, upper, t, Maxes(km, ps));
    var c := CutIndex(o, upper, t, Join(km, ps));
    if j < |ps| then ps[j] in km && Locate(km, ps, c) == (ps[j], CutIndex(o, upper, t, km[ps[j]]))
                     && CutIndex(o, upper, t, km[ps[j]]) < |km[ps[j]]| && c < |Join(km, ps)|
    else c == |Join(km, ps)|
  }

  lemma {:induction false} CutDescend(o: KeyOrd, upper: bool, t: Key, km: map<int, seq<Key>>, ps: seq<int>)
    requires Lawful(o) && o.valid(t) && ps != []
    requires NonEmpty(km, ps) && Sorted(o, Join(km, ps))
    ensures Descends(o, upper, t, km, ps)
  {
    NonEmptyHead(km, ps);
    var hd, tl := km[ps[0]], Join(km, ps[1..]);
    if !Before(o, upper, t, Last(hd)) {
      CutPrefix(o, upper, t, hd, tl);
      assert Maxes(km, ps)[0] == Last(hd);
    } else if |ps| == 1 {
      CutAppend(o, upper, t, hd, tl);
      assert Maxes(km, ps)[1..] == [];
    } else {
      CutAppend(o, upper, t, hd, tl);
      SortedTail(o, hd + tl, |hd|);
      assert (hd + tl)[|hd|..] == tl;
      CutDescend(o, upper, t, km, ps[1..]);
      DescendsBeyond(o, upper, t, km, ps);
    }
  }

  lemma {:induction false} DescendsBeyond(o: KeyOrd, upper: bool, t: Key, km: map<int, seq<Key>>, ps: seq<int>)
    requires |ps| > 1 && NonEmpty(km, ps) && Descends(o, upper, t, km, ps[1..])
    requires ps[0] in km && km[ps[0]] != [] && Before(o, upper, t, Last(km[ps[0]]))
    requires CutIndex(o, upper, t, Join(km, ps)) == |km[ps[0]]| + CutIndex(o, upper, t, Join(km, ps[1..]))
    ensures Descends(o, upper, t, km, ps)
  {
    NonEmptyHead(km, ps);
    var ms := Maxes(km, ps);
    assert ms[0] == Last(km[ps[0]]) && ms[1..] == Maxes(km, ps[1..]);
    var j := CutIndex(o, upper, t, ms[1..]);
    assert CutIndex(o, upper, t, ms) == j + 1;
    if j < |ps[1..]| { assert ps[1..][j] == ps[j + 1]; }
  }

  /** The keys of a level are the maxima of the pages below it. */
  lemma LevelMaxes(pages: Pages, levels: seq<seq<int>>, ht: Heights, l: nat)
    requires Typed(pages, ht) && Linked(pages, ht) && Levelled(levels, ht) && Stacked(RidMap(pages), levels)
    requires Keyed(pages, ht, {}) && l + 1 < |levels| && NonEmpty(KeyMap(pages), levels[l])
    requires levels[l + 1] != []
    ensures Join(KeyMap(pages), levels[l + 1]) == Maxes(KeyMap(pages), levels[l])
  {
    var km, rm := KeyMap(pages), RidMap(pages);
    var up := levels[l + 1];
    assert Stack(rm, levels, l + 1);
    forall p | p in up ensures p in ht { }
    LevelAgree(pages, ht, up, 0);
    MaxesLength(km, levels[l]);
    assert |Join(km, up)| == |levels[l]|;
    forall j | 0 <= j < |levels[l]| ensures Join(km, up)[j] == Maxes(km, levels[l])[j] {
      LevelAgree(pages, ht, up, j);
      LocateLookup(km, up, j);
      LocateLookup(rm, up, j);
      var (q, s) := Locate(km, up, j);
      assert q in ht && NodeOk(pages, ht, q) && ht[q] == l + 1;
      assert pages[q].rids[s].page == levels[l][j];
      assert KeyOk(pages, ht, q, s, {});
    }
  }

  /** Apart from a leaf root, every live page holds a key. */
  lemma LevelNonEmpty(pages: Pages, hdr: IndexHeader, sh: Shape, l: nat)
    requires WellFormed(pages, hdr, sh, {}) && l < |sh.levels| && (l + 1 < |sh.levels| || l > 0)
    ensures NonEmpty(KeyMap(pages), sh.levels[l]) && sh.levels[l] != []
  {
    RootHeight(pages, hdr, sh.levels, sh.ht);
    forall p | p in sh.levels[l] ensures p in KeyMap(pages) && KeyMap(pages)[p] != [] {
      assert p in sh.ht && NodeOk(pages, sh.ht, p) && SizeOk(pages, hdr, p);
    }
    LevelInhabited(pages, hdr, sh, l);
  }

  lemma {:induction false} LevelInhabited(pages: Pages, hdr: IndexHeader, sh: Shape, l: nat)
    requires WellFormed(pages, hdr, sh, {}) && l < |sh.levels|
    ensures sh.levels[l] != []
    decreases |sh.levels| - l
  {
    if l + 1 < |sh.levels| {
      LevelInhabited(pages, hdr, sh, l + 1);
      var up := sh.levels[l + 1];
      var q := up[0];
      assert q in up && q in sh.ht && sh.ht[q] == l + 1;
      assert NodeOk(pages, sh.ht, q) && SizeOk(pages, hdr, q);
      assert Stack(RidMap(pages), sh.levels, l + 1);
      assert up == [q] + up[1..];
      JoinConcat(RidMap(pages), [q], up[1..]);
      JoinOne(RidMap(pages), q);
      assert |Join(RidMap(pages), up)| > 0;
    }
  }

  lemma LevelAbove(pages: Pages, hdr: IndexHeader, sh: Shape, l: nat)
    requires WellFormed(pages, hdr, sh, {}) && 0 < l < |sh.levels|
    ensures NonEmpty(KeyMap(pages), sh.levels[l - 1])
    ensures Join(KeyMap(pages), sh.levels[l]) == Maxes(KeyMap(pages), sh.levels[l - 1])
  {
    hide SizeOk, NodeOk, KeyMap;
    LevelNonEmpty(pages, hdr, sh, l - 1);
    LevelNonEmpty(pages, hdr, sh, l);
    LevelMaxes(pages, sh.levels, sh.ht, l - 1);
  }

  /** Every level is sorted when the leaf level is. */
  lemma {:induction false} LevelSorted(o: KeyOrd, pages: Pages, hdr: IndexHeader, sh: Shape, l: nat)
    requires WellFormed(pages, hdr, sh, {}) && Sorted(o, LeafKeys(pages, sh)) && l < |sh.levels|
    ensures Sorted(o, Join(KeyMap(pages), sh.levels[l]))
  {
    hide WellFormed, Sorted, NonEmpty, KeyMap, Join;
    if l > 0 {
      LevelSorted(o, pages, hdr, sh, l - 1);
      LevelAbove(pages, hdr, sh, l);
      SortedMaxes(o, KeyMap(pages), sh.levels[l - 1]);
    }
  }

  /** Page p of level l is where the cut of that level falls. */
  ghost predicate OnPath(o: KeyOrd, upper: bool, t: Key, pages: Pages, sh: Shape, l: nat, p: int)
    requires l < |sh.levels|
  {
    && p in pages && sh.levels[l] != []
    && Locate(KeyMap(pages), sh.levels[l], CutIndex(o, upper, t, Join(KeyMap(pages), sh.levels[l])))
         == (p, CutIndex(o, upper, t, pages[p].keys))
  }

  /** One step of the descent: the child at the node's own cut is on the path again. */
  lemma {:induction false} DescendStep(o: KeyOrd, upper: bool, t: Key, pages: Pages, hdr: IndexHeader, sh: Shape,
                                       l: nat, p: int)
    requires Lawful(o) && o.valid(t)
    requires WellFormed(pages, hdr, sh, {}) && Sorted(o, LeafKeys(pages, sh))
    requires 0 < l < |sh.levels| && OnPath(o, upper, t, pages, sh, l, p) && p in sh.levels[l]
    requires CutIndex(o, upper, t, pages[p].keys) < |pages[p].keys|
    ensures var s := CutIndex(o, upper, t, pages[p].keys);
            s < |pages[p].rids| && pages[p].rids[s].page in sh.levels[l - 1]
            && OnPath(o, upper, t, pages, sh, l - 1, pages[p].rids[s].page)
  {
    hide Lawful, Sorted, Keyed, Linked, Sized, Partition, LeafKeys;
    var km, rm := KeyMap(pages), RidMap(pages);
    var up, down := sh.levels[l], sh.levels[l - 1];
    LevelNonEmpty(pages, hdr, sh, l);
    LevelNonEmpty(pages, hdr, sh, l - 1);
    LevelSorted(o, pages, hdr, sh, l - 1);
    LevelMaxes(pages, sh.levels, sh.ht, l - 1);
    MaxesLength(km, down);
    CutDescend(o, upper, t, km, down);
    var c := CutIndex(o, upper, t, Join(km, up));
    var s := CutIndex(o, upper, t, pages[p].keys);
    forall x | x in up ensures x in sh.ht { }
    LevelAgree(pages, sh.ht, up, c);
    NotAtEnd(km, up, c, p, s);
    LocateLookup(rm, up, c);
    assert Stack(rm, sh.levels, l);
    assert down[c] == pages[p].rids[s].page;
  }

  /** A located slot inside its page is not the end of the whole. */
  lemma {:induction false} NotAtEnd<T>(m: map<int, seq<T>>, ps: seq<int>, g: nat, p: int, s: nat)
    requires ps != [] && AllIn(m, ps) && g <= |Join(m, ps)| && Locate(m, ps, g) == (p, s)
    requires p in m && s < |m[p]|
    ensures g < |Join(m, ps)|
  {
    LocateEnd(m, ps);
  }

  /** When the cut is at the end of one level it is at the end of every level. */
  lemma {:induction false} EndOfLevels(o: KeyOrd, upper: bool, t: Key, pages: Pages, hdr: IndexHeader, sh: Shape,
                                       l: nat)
    requires Lawful(o) && o.valid(t)
    requires WellFormed(pages, hdr, sh, {}) && Sorted(o, LeafKeys(pages, sh)) && l < |sh.levels|
    requires CutIndex(o, upper, t, Join(KeyMap(pages), sh.levels[l])) == |Join(KeyMap(pages), sh.levels[l])|
    ensures CutIndex(o, upper, t, LeafKeys(pages, sh)) == |LeafKeys(pages, sh)|
  {
    if l > 0 {
      var km := KeyMap(pages);
      LevelNonEmpty(pages, hdr, sh, l);
      LevelNonEmpty(pages, hdr, sh, l - 1);
      LevelSorted(o, pages, hdr, sh, l - 1);
      LevelMaxes(pages, sh.levels, sh.ht, l - 1);
      MaxesLength(km, sh.levels[l - 1]);
      CutDescend(o, upper, t, km, sh.levels[l - 1]);
      EndOfLevels(o, upper, t, pages, hdr, sh, l - 1);
    }
  }

  /** A located slot at the end of its page can only be the end of the whole. */
  lemma {:induction false} EndSlot<T>(m: map<int, seq<T>>, ps: seq<int>, g: nat)
    requires ps != [] && AllIn(m, ps) && g <= |Join(m, ps)|
    ensures var (p, s) := Locate(m, ps, g);
            p in ps && p in m && s <= |m[p]| && (s == |m[p]| ==> g == |Join(m, ps)| && p == Last(ps))
  {
    AllInTail(m, ps);
    if |ps| == 1 {
      assert Join(m, ps[1..]) == [];
    } else if g >= |m[ps[0]]| {
      EndSlot(m, ps[1..], g - |m[ps[0]]|);
    }
  }

  /** The node is live and on the path of the target. */
  ghost predicate Reached(o: KeyOrd, upper: bool, t: Key, pages: Pages, sh: Shape, p: int) {
    && NodeOk(pages, sh.ht, p) && sh.ht[p] < |sh.levels| && p in sh.levels[sh.ht[p]]
    && OnPath(o, upper, t, pages, sh, sh.ht[p], p)
  }

  /** From a node on the path the descent reaches the child at the node's own cut, one level down. */
  lemma {:induction false} ReachChild(o: KeyOrd, upper: bool, t: Key, pages: Pages, hdr: IndexHeader, sh: Shape, p: int)
    requires Lawful(o) && o.valid(t)
    requires WellFormed(pages, hdr, sh, {}) && Sorted(o, LeafKeys(pages, sh))
    requires Reached(o, upper, t, pages, sh, p) && !pages[p].isLeaf
    requires CutIndex(o, upper, t, pages[p].keys) < |pages[p].keys|
    ensures var s := CutIndex(o, upper, t, pages[p].keys);
            s < |pages[p].rids| && Reached(o, upper, t, pages, sh, pages[p].rids[s].page)
              && sh.ht[pages[p].rids[s].page] == sh.ht[p] - 1
  {
    hide OnPath, CutIndex, Lawful, Sorted;
    DescendStep(o, upper, t, pages, hdr, sh, sh.ht[p], p);
    var c := pages[p].rids[CutIndex(o, upper, t, pages[p].keys)].page;
    assert c in sh.ht && NodeOk(pages, sh.ht, c);
  }
}
