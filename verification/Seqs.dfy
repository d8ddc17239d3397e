/** Sequence vocabulary: positional edits, distinctness, the concatenation of a list of pages' contents, and chains of
    free pages. */
module Seqs {
  import opened Common

  function InsertAt<T>(s: seq<T>, i: nat, x: seq<T>): seq<T>
    requires i <= |s|
  {
    s[..i] + x + s[i..]
  }

  function RemoveAt<T>(s: seq<T>, i: nat): seq<T>
    requires i < |s|
  {
    s[..i] + s[i + 1..]
  }

  ghost predicate NoDup<T>(s: seq<T>) {
    forall i, j :: 0 <= i < j < |s| ==> s[i] != s[j]
  }

  lemma NoDupAt<T>(s: seq<T>, i: nat, j: nat)
    requires NoDup(s) && i < j < |s|
    ensures s[i] != s[j]
  {
  }

  lemma NoDupParts<T>(a: seq<T>, b: seq<T>)
    requires NoDup(a + b)
    ensures NoDup(a) && NoDup(b)
    ensures forall x :: x in a ==> x !in b
  {
    forall i, j | 0 <= i < j < |a| ensures a[i] != a[j] {
      assert (a + b)[i] == a[i] && (a + b)[j] == a[j];
    }
    forall i, j | 0 <= i < j < |b| ensures b[i] != b[j] {
      assert (a + b)[|a| + i] == b[i] && (a + b)[|a| + j] == b[j];
    }
    forall x | x in a ensures x !in b {
      if x in b {
        var i :| 0 <= i < |a| && a[i] == x;
        var j :| 0 <= j < |b| && b[j] == x;
        NoDupAt(a + b, i, |a| + j);
      }
    }
  }

  lemma NoDupConcat<T>(a: seq<T>, b: seq<T>)
    requires NoDup(a) && NoDup(b)
    requires forall x :: x in a ==> x !in b
    ensures NoDup(a + b)
  {
    forall i, j | 0 <= i < j < |a + b| ensures (a + b)[i] != (a + b)[j] {
      if i < |a| && |a| <= j {
        assert a[i] in a && b[j - |a|] in b;
      }
    }
  }

  // ----- the contents of a list of pages -----

  /** The concatenation of m[p] over the pages p of ps, in order. */
  function Join<T>(m: map<int, seq<T>>, ps: seq<int>): seq<T> {
    if ps == [] then [] else (if ps[0] in m then m[ps[0]] else []) + Join(m, ps[1..])
  }

  lemma {:induction false} JoinConcat<T>(m: map<int, seq<T>>, a: seq<int>, b: seq<int>)
    ensures Join(m, a + b) == Join(m, a) + Join(m, b)
  {
    if a == [] {
      assert a + b == b;
    } else {
      assert (a + b)[0] == a[0] && (a + b)[1..] == a[1..] + b;
      JoinConcat(m, a[1..], b);
    }
  }

  lemma {:induction false} JoinOne<T>(m: map<int, seq<T>>, p: int)
    requires p in m
    ensures Join(m, [p]) == m[p]
  {
    assert Join(m, [p][1..]) == [];
  }

  lemma {:induction false} JoinFrame<T>(m: map<int, seq<T>>, m': map<int, seq<T>>, ps: seq<int>)
    requires forall p :: p in ps ==> p in m && p in m' && m[p] == m'[p]
    ensures Join(m, ps) == Join(m', ps)
  {
    if ps != [] {
      var z := ps[0];
      assert z in ps && m[z] == m'[z];
      forall p | p in ps[1..] ensures p in m && p in m' && m[p] == m'[p] { assert p in ps; }
      JoinFrame(m, m', ps[1..]);
    }
  }

  /** The page and slot at which the g-th element of Join(m, ps) is stored; one past the end of the last
      page when g is the length of the whole. */
  function Locate<T>(m: map<int, seq<T>>, ps: seq<int>, g: nat): (r: (int, nat))
    requires |ps| > 0
  {
    if |ps| == 1 || ps[0] !in m then (ps[0], g)
    else if g < |m[ps[0]]| then (ps[0], g)
    else Locate(m, ps[1..], g - |m[ps[0]]|)
  }

  ghost predicate AllIn<T>(m: map<int, seq<T>>, ps: seq<int>) {
    forall p :: p in ps ==> p in m
  }

  lemma {:induction false} AllInTail<T>(m: map<int, seq<T>>, ps: seq<int>)
    requires |ps| > 0 && AllIn(m, ps)
    ensures ps[0] in m && AllIn(m, ps[1..])
    ensures Join(m, ps) == m[ps[0]] + Join(m, ps[1..])
  {
    var h := ps[0];
    assert h in ps && h in m;
    forall p | p in ps[1..] ensures p in m { assert p in ps; }
  }

  lemma {:induction false} LocateLookup<T>(m: map<int, seq<T>>, ps: seq<int>, g: nat)
    requires |ps| > 0 && AllIn(m, ps) && g < |Join(m, ps)|
    ensures var (p, s) := Locate(m, ps, g);
            p in ps && p in m && s < |m[p]| && m[p][s] == Join(m, ps)[g]
  {
    AllInTail(m, ps);
    if |ps| > 1 && g >= |m[ps[0]]| {
      LocateLookup(m, ps[1..], g - |m[ps[0]]|);
    } else if |ps| == 1 {
      assert Join(m, ps[1..]) == [];
    }
  }

  lemma {:induction false} LocateEnd<T>(m: map<int, seq<T>>, ps: seq<int>)
    requires |ps| > 0 && AllIn(m, ps)
    ensures ps[|ps| - 1] in m
    ensures Locate(m, ps, |Join(m, ps)|) == (ps[|ps| - 1], |m[ps[|ps| - 1]]|)
  {
    AllInTail(m, ps);
    if |ps| == 1 {
      assert Join(m, ps[1..]) == [];
    } else {
      LocateEnd(m, ps[1..]);
    }
  }

  /** Two page maps with the same lengths place their elements alike. */
  lemma {:induction false} LocateAgree<T, U>(m: map<int, seq<T>>, n: map<int, seq<U>>, ps: seq<int>, g: nat)
    requires |ps| > 0 && AllIn(m, ps) && AllIn(n, ps)
    requires forall p :: p in ps ==> |m[p]| == |n[p]|
    ensures Locate(m, ps, g) == Locate(n, ps, g)
    ensures |Join(m, ps)| == |Join(n, ps)|
  {
    AllInTail(m, ps);
    AllInTail(n, ps);
    var h := ps[0];
    assert h in ps && |m[h]| == |n[h]|;
    forall p | p in ps[1..] ensures |m[p]| == |n[p]| { assert p in ps; }
    if |ps| == 1 {
      assert Join(m, ps[1..]) == [] && Join(n, ps[1..]) == [];
    } else {
      LocateAgree(m, n, ps[1..], if g < |m[ps[0]]| then 0 else g - |m[ps[0]]|);
    }
  }

  lemma InsertAtConcat<T>(a: seq<T>, b: seq<T>, g: nat, x: seq<T>)
    requires g <= |a + b|
    ensures g <= |a| ==> InsertAt(a + b, g, x) == InsertAt(a, g, x) + b
    ensures g >= |a| ==> InsertAt(a + b, g, x) == a + InsertAt(b, g - |a|, x)
  {
    if g <= |a| {
      assert (a + b)[..g] == a[..g];
      assert (a + b)[g..] == a[g..] + b;
      Reassociate(a[..g], x, a[g..], b);
    }
    if g >= |a| {
      var k := g - |a|;
      assert (a + b)[..g] == a + b[..k];
      assert (a + b)[g..] == b[k..];
      Reassociate(a, b[..k], x, b[k..]);
    }
  }

  lemma Reassociate<T>(a: seq<T>, b: seq<T>, c: seq<T>, d: seq<T>)
    ensures a + b + (c + d) == a + b + c + d == a + (b + c + d)
  {
  }

  lemma RemoveAtConcat<T>(a: seq<T>, b: seq<T>, g: nat)
    requires g < |a + b|
    ensures g < |a| ==> RemoveAt(a + b, g) == RemoveAt(a, g) + b
    ensures g >= |a| ==> RemoveAt(a + b, g) == a + RemoveAt(b, g - |a|)
  {
    if g < |a| {
      assert (a + b)[..g] == a[..g] && (a + b)[g + 1..] == a[g + 1..] + b;
    } else {
      assert (a + b)[..g] == a + b[..g - |a|] && (a + b)[g + 1..] == b[g - |a| + 1..];
    }
  }

  lemma NoDupHead<T>(s: seq<T>)
    requires |s| > 0 && NoDup(s)
    ensures NoDup(s[1..]) && s[0] !in s[1..]
  {
    assert s == [s[0]] + s[1..];
    NoDupParts([s[0]], s[1..]);
    assert s[0] in [s[0]];
  }

  /** A list without repetition is, as a bag, the set of its elements. */
  lemma {:induction false} NoDupBag<T>(s: seq<T>, all: set<T>)
    requires NoDup(s) && forall x :: x in s <==> x in all
    ensures multiset(s) == multiset(all)
  {
    if s != [] {
      var h := s[0];
      NoDupHead(s);
      assert s == [h] + s[1..];
      NoDupBag(s[1..], all - {h});
      assert all == (all - {h}) + {h};
    }
  }

  lemma {:induction false} JoinUpdateOther<T>(m: map<int, seq<T>>, ps: seq<int>, p: int, x: seq<T>)
    requires AllIn(m, ps) && p !in ps
    ensures Join(m[p := x], ps) == Join(m, ps)
  {
    JoinFrame(m, m[p := x], ps);
  }

  /** Editing one page at a located slot edits the whole at the located index. */
  lemma {:induction false} JoinInsert<T>(m: map<int, seq<T>>, ps: seq<int>, g: nat, x: T)
    requires |ps| > 0 && AllIn(m, ps) && NoDup(ps) && g <= |Join(m, ps)|
    ensures var (p, s) := Locate(m, ps, g);
            && p in ps && p in m && s <= |m[p]|
            && Join(m[p := InsertAt(m[p], s, [x])], ps) == InsertAt(Join(m, ps), g, [x])
            && (s == |m[p]| ==> p == ps[|ps| - 1] && g == |Join(m, ps)|)
  {
    var (p, s) := Locate(m, ps, g);
    var h := ps[0];
    AllInTail(m, ps);
    NoDupHead(ps);
    var rest := Join(m, ps[1..]);
    InsertAtConcat(m[h], rest, g, [x]);
    if |ps| == 1 || g < |m[h]| {
      assert p == h && s == g;
      assert |ps| == 1 ==> rest == [];
      var m' := m[h := InsertAt(m[h], g, [x])];
      JoinUpdateOther(m, ps[1..], h, m'[h]);
      assert Join(m', ps) == m'[h] + rest;
    } else {
      JoinInsert(m, ps[1..], g - |m[h]|, x);
      assert p in ps[1..] && p != h;
      var m' := m[p := InsertAt(m[p], s, [x])];
      assert Join(m', ps) == m[h] + Join(m', ps[1..]);
    }
  }

  lemma {:induction false} JoinRemove<T>(m: map<int, seq<T>>, ps: seq<int>, g: nat)
    requires |ps| > 0 && AllIn(m, ps) && NoDup(ps) && g < |Join(m, ps)|
    ensures var (p, s) := Locate(m, ps, g);
            && p in ps && p in m && s < |m[p]|
            && Join(m[p := RemoveAt(m[p], s)], ps) == RemoveAt(Join(m, ps), g)
  {
    LocateLookup(m, ps, g);
    var (p, s) := Locate(m, ps, g);
    var h := ps[0];
    AllInTail(m, ps);
    NoDupHead(ps);
    var rest := Join(m, ps[1..]);
    RemoveAtConcat(m[h], rest, g);
    if |ps| == 1 || g < |m[h]| {
      assert p == h && s == g;
      var m' := m[h := RemoveAt(m[h], g)];
      JoinUpdateOther(m, ps[1..], h, m'[h]);
      assert Join(m', ps) == m'[h] + rest;
    } else {
      JoinRemove(m, ps[1..], g - |m[h]|);
      assert p in ps[1..] && p != h;
      var m' := m[p := RemoveAt(m[p], s)];
      assert Join(m', ps) == m[h] + Join(m', ps[1..]);
    }
  }

  // ----- chains of free pages -----

  /** The pages of free, in this order, are those reached from head by following next. */
  ghost predicate FreeChain<N(!new)>(pages: map<int, N>, next: N -> int, head: int, free: seq<int>)
    decreases |free|
  {
    if free == [] then head == NO_PAGE
    else head == free[0] && head in pages && FreeChain(pages, next, next(pages[head]), free[1..])
  }

  lemma {:induction false} FreeChainFrame<N(!new)>(pages: map<int, N>, pages': map<int, N>, next: N -> int, head: int,
                                                   free: seq<int>)
    requires FreeChain(pages, next, head, free)
    requires forall p :: p in free && p in pages ==> p in pages' && next(pages'[p]) == next(pages[p])
    ensures FreeChain(pages', next, head, free)
    decreases |free|
  {
    if free != [] {
      var h := free[0];
      assert h in free;
      forall p | p in free[1..] && p in pages
        ensures p in pages' && next(pages'[p]) == next(pages[p])
      {
        assert p in free;
      }
      FreeChainFrame(pages, pages', next, next(pages[head]), free[1..]);
    }
  }
}
