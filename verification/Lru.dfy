/** Least-recently-used order: what a cache of n pages holds after any trace of requests. */
module Lru {
  import opened Seqs

  datatype PageID = PageID(fd: int, page: int)

  function Without<T(==, !new)>(s: seq<T>, x: T): (r: seq<T>)
    ensures |r| <= |s|
    ensures forall y :: y in r <==> y in s && y != x
  {
    if s == [] then [] else if s[0] == x then Without(s[1..], x) else [s[0]] + Without(s[1..], x)
  }

  function Take(s: seq<PageID>, n: nat): seq<PageID> {
    if |s| <= n then s else s[..n]
  }

  /** One request: the page goes to the front, and the last page leaves when there are too many. */
  function Touch(recent: seq<PageID>, x: PageID, n: nat): seq<PageID> {
    Take([x] + Without(recent, x), n)
  }

  /** The requests one after the other, on a cache of n pages that holds the recent ones. */
  function TouchAll(recent: seq<PageID>, trace: seq<PageID>, n: nat): seq<PageID> {
    if trace == [] then recent else Touch(TouchAll(recent, trace[..|trace| - 1], n), trace[|trace| - 1], n)
  }

  /** The requests one after the other, on an empty cache of n pages. */
  function RunTouch(trace: seq<PageID>, n: nat): seq<PageID> {
    TouchAll([], trace, n)
  }

  /** The distinct pages of a trace, the one requested last first. */
  function Recency(trace: seq<PageID>): (r: seq<PageID>)
    ensures forall x :: x in r <==> x in trace
  {
    if trace == [] then []
    else
      var last, before := trace[|trace| - 1], trace[..|trace| - 1];
      assert trace == before + [last];
      [last] + Without(Recency(before), last)
  }

  lemma {:induction false} WithoutNoDup<T(!new)>(s: seq<T>, x: T)
    requires NoDup(s)
    ensures NoDup(Without(s, x))
    ensures x !in s ==> Without(s, x) == s
    ensures x in s ==> |Without(s, x)| == |s| - 1
  {
    if s != [] {
      NoDupHead(s);
      WithoutNoDup(s[1..], x);
      assert s == [s[0]] + s[1..];
      if s[0] != x { NoDupConcat([s[0]], Without(s[1..], x)); }
    }
  }

  lemma {:induction false} RecencyNoDup(trace: seq<PageID>)
    ensures NoDup(Recency(trace))
  {
    if trace != [] {
      var last, before := trace[|trace| - 1], trace[..|trace| - 1];
      RecencyNoDup(before);
      WithoutNoDup(Recency(before), last);
      NoDupConcat([last], Without(Recency(before), last));
    }
  }

  lemma {:induction false} WithoutTake(s: seq<PageID>, x: PageID, n: nat)
    requires NoDup(s) && n > 0
    ensures Take(Without(Take(s, n), x), n - 1) == Take(Without(s, x), n - 1)
    ensures |Without(Take(s, n), x)| >= n - 1 || Take(s, n) == s
  {
    WithoutNoDup(s, x);
    if |s| > n {
      NoDupParts(s[..n], s[n..]);
      assert s == s[..n] + s[n..];
      WithoutConcat(s[..n], s[n..], x);
      WithoutNoDup(s[..n], x);
      assert |Without(s[..n], x)| >= n - 1;
    }
  }

  lemma {:induction false} WithoutConcat<T(!new)>(a: seq<T>, b: seq<T>, x: T)
    ensures Without(a + b, x) == Without(a, x) + Without(b, x)
  {
    if a == [] {
      assert a + b == b;
    } else {
      assert (a + b)[1..] == a[1..] + b;
      WithoutConcat(a[1..], b, x);
    }
  }

  /** The cache of n pages holds exactly the n most recent of the distinct pages requested. */
  lemma {:induction false} LruExact(trace: seq<PageID>, n: nat)
    requires n > 0
    ensures RunTouch(trace, n) == Take(Recency(trace), n)
  {
    if trace != [] {
      var last, before := trace[|trace| - 1], trace[..|trace| - 1];
      LruExact(before, n);
      RecencyNoDup(before);
      WithoutTake(Recency(before), last, n);
      TakeFront(last, Without(Take(Recency(before), n), last), n);
      TakeFront(last, Without(Recency(before), last), n);
    }
  }

  lemma TakeFront(x: PageID, s: seq<PageID>, n: nat)
    requires n > 0
    ensures Take([x] + s, n) == [x] + Take(s, n - 1)
  {
  }

  /** A larger cache holds everything that a smaller one holds. */
  lemma LargerHoldsMore(trace: seq<PageID>, n: nat, m: nat, x: PageID)
    requires 0 < n <= m && x in RunTouch(trace, n)
    ensures x in RunTouch(trace, m)
  {
    LruExact(trace, n);
    LruExact(trace, m);
    var i :| 0 <= i < |Take(Recency(trace), n)| && Take(Recency(trace), n)[i] == x;
    assert Take(Recency(trace), m)[i] == x;
  }

  /** The last place at which a page is requested. */
  function LastRequest(trace: seq<PageID>, x: PageID): (i: nat)
    requires x in trace
    ensures i < |trace| && trace[i] == x && forall j :: i < j < |trace| ==> trace[j] != x
  {
    if trace[|trace| - 1] == x then |trace| - 1
    else
      assert trace == trace[..|trace| - 1] + [trace[|trace| - 1]];
      LastRequest(trace[..|trace| - 1], x)
  }

  lemma {:induction false} EarlierRequest(trace: seq<PageID>, x: PageID)
    requires x in trace && x != trace[|trace| - 1]
    ensures x in trace[..|trace| - 1] && LastRequest(trace, x) == LastRequest(trace[..|trace| - 1], x) < |trace| - 1
  {
    assert trace == trace[..|trace| - 1] + [trace[|trace| - 1]];
  }

  /** Recency lists the pages by their last request, latest first. */
  lemma {:induction false} RecencyOrder(trace: seq<PageID>, i: nat, j: nat)
    requires i < j < |Recency(trace)|
    ensures Recency(trace)[i] in trace && Recency(trace)[j] in trace
    ensures LastRequest(trace, Recency(trace)[i]) > LastRequest(trace, Recency(trace)[j])
  {
    var last, before := trace[|trace| - 1], trace[..|trace| - 1];
    var x, y := Recency(trace)[i], Recency(trace)[j];
    assert x in Recency(trace) && y in Recency(trace);
    var a, b := RecencyPlaces(trace, i, j);
    EarlierRequest(trace, y);
    if i > 0 {
      EarlierRequest(trace, x);
      RecencyOrder(before, a, b);
    }
  }

  lemma RecencyPlaces(trace: seq<PageID>, i: nat, j: nat) returns (a: nat, b: nat)
    requires i < j < |Recency(trace)|
    ensures trace != [] && Recency(trace)[j] != trace[|trace| - 1]
    ensures i == 0 ==> Recency(trace)[i] == trace[|trace| - 1]
    ensures i > 0 ==> Recency(trace)[i] != trace[|trace| - 1] && a < b < |Recency(trace[..|trace| - 1])|
    ensures i > 0 ==>
      Recency(trace[..|trace| - 1])[a] == Recency(trace)[i] && Recency(trace[..|trace| - 1])[b] == Recency(trace)[j]
  {
    a, b := 0, 0;
    var last, r := trace[|trace| - 1], Recency(trace[..|trace| - 1]);
    var s := Without(r, last);
    assert Recency(trace) == [last] + s;
    assert Recency(trace)[j] == s[j - 1] && s[j - 1] in s;
    if i > 0 {
      assert Recency(trace)[i] == s[i - 1] && s[i - 1] in s;
      a, b := WithoutPlaces(r, last, i - 1, j - 1);
    }
  }

  /** Taking an element out keeps the order of the others. */
  lemma {:induction false} WithoutPlaces(s: seq<PageID>, x: PageID, i: nat, j: nat) returns (a: nat, b: nat)
    requires i < j < |Without(s, x)|
    ensures a < b < |s| && s[a] == Without(s, x)[i] && s[b] == Without(s, x)[j]
  {
    if s[0] == x {
      a, b := WithoutPlaces(s[1..], x, i, j);
      a, b := a + 1, b + 1;
    } else if i > 0 {
      a, b := WithoutPlaces(s[1..], x, i - 1, j - 1);
      a, b := a + 1, b + 1;
    } else {
      a := 0;
      var y := Without(s, x)[j];
      assert y == Without(s[1..], x)[j - 1];
      assert y in Without(s[1..], x) && y in s[1..];
      b :| 0 <= b < |s[1..]| && s[1..][b] == y;
      b := b + 1;
    }
  }

  /** What came later comes first. */
  lemma {:induction false} RecencyConcat(a: seq<PageID>, b: seq<PageID>)
    ensures |Recency(b)| <= |Recency(a + b)| && Recency(a + b)[..|Recency(b)|] == Recency(b)
  {
    if b != [] {
      var last, before := b[|b| - 1], b[..|b| - 1];
      assert (a + b)[..|a + b| - 1] == a + before && (a + b)[|a + b| - 1] == last;
      RecencyConcat(a, before);
      var r, q := Recency(a + before), Recency(before);
      assert r == q + r[|q|..];
      WithoutConcat(q, r[|q|..], last);
    }
  }

  /** A page stays in the cache until as many other distinct pages have been requested as the cache has room for. */
  lemma {:induction false} Retained(before: seq<PageID>, x: PageID, after: seq<PageID>, n: nat)
    requires |Recency([x] + after)| <= n
    ensures x in RunTouch(before + ([x] + after), n)
  {
    var tail := [x] + after;
    var trace := before + tail;
    assert tail[0] == x;
    assert x in Recency(tail);
    var i :| 0 <= i < |Recency(tail)| && Recency(tail)[i] == x;
    RecencyConcat(before, tail);
    assert Recency(trace)[..|Recency(tail)|][i] == Recency(trace)[i];
    LruExact(trace, n);
    assert Take(Recency(trace), n)[i] == x;
  }

  /** Touching a page that is there only moves it. */
  lemma {:induction false} TouchCached(recent: seq<PageID>, x: PageID, n: nat)
    requires NoDup(recent) && x in recent && |recent| <= n
    ensures Touch(recent, x, n) == [x] + Without(recent, x)
  {
    WithoutNoDup(recent, x);
  }

  /** Touching a page that is not there puts it in front of those that still fit. */
  lemma TouchNew(recent: seq<PageID>, x: PageID, n: nat)
    requires NoDup(recent) && x !in recent && n > 0
    ensures Touch(recent, x, n) == [x] + Take(recent, n - 1)
  {
    WithoutNoDup(recent, x);
    TakeFront(x, recent, n);
  }

  /** A longer trace names no fewer distinct pages. */
  lemma {:induction false} RecencyGrows(trace: seq<PageID>, i: nat)
    requires i <= |trace|
    ensures |Recency(trace[..i])| <= |Recency(trace)|
  {
    if i < |trace| {
      var before := trace[..|trace| - 1];
      RecencyGrows(before, i);
      assert before[..i] == trace[..i];
      RecencyNoDup(before);
      WithoutNoDup(Recency(before), trace[|trace| - 1]);
    } else {
      assert trace[..i] == trace;
    }
  }

  lemma {:induction false} RecencyStep(trace: seq<PageID>, x: PageID)
    ensures Recency(trace + [x]) == [x] + Without(Recency(trace), x)
  {
    assert (trace + [x])[..|trace + [x]| - 1] == trace;
  }

  /** One more request keeps the recent pages in front, as long as they are not more than fit. */
  lemma {:induction false} TouchPrefix(recent: seq<PageID>, trace: seq<PageID>, x: PageID, n: nat)
    requires |Recency(trace)| <= |recent| && recent[..|Recency(trace)|] == Recency(trace)
    requires |Recency(trace + [x])| <= n
    ensures var k := |Recency(trace + [x])|;
      k <= |Touch(recent, x, n)| && Touch(recent, x, n)[..k] == Recency(trace + [x])
  {
    hide Recency, Without, Take;
    var q := Recency(trace);
    assert recent == q + recent[|q|..];
    WithoutConcat(q, recent[|q|..], x);
    RecencyStep(trace, x);
    TakePrefix([x] + Without(q, x), Without(recent[|q|..], x), n);
    assert [x] + (Without(q, x) + Without(recent[|q|..], x)) == [x] + Without(q, x) + Without(recent[|q|..], x);
  }

  lemma TakePrefix(a: seq<PageID>, b: seq<PageID>, n: nat)
    requires |a| <= n
    ensures |a| <= |Take(a + b, n)| && Take(a + b, n)[..|a|] == a
  {
  }

  /** recent starts with the distinct pages of the trace. */
  ghost predicate StartsWith(recent: seq<PageID>, trace: seq<PageID>) {
    |Recency(trace)| <= |recent| && recent[..|Recency(trace)|] == Recency(trace)
  }

  /** The pages requested so far stay in front, the first of them among them, while they all fit. */
  lemma {:induction false} KeepOne(all: seq<PageID>, i: nat, recent: seq<PageID>, n: nat)
    requires 0 < i < |all| && |Recency(all)| <= n && StartsWith(recent, all[..i])
    ensures StartsWith(Touch(recent, all[i], n), all[..i + 1]) && all[0] in Touch(recent, all[i], n)
  {
    hide Touch, Recency;
    assert all[..i + 1] == all[..i] + [all[i]];
    RecencyGrows(all, i + 1);
    TouchPrefix(recent, all[..i], all[i], n);
    assert all[..i + 1][0] == all[0];
    HasRequested(Touch(recent, all[i], n), all[..i + 1], all[0]);
  }

  lemma HasRequested(recent: seq<PageID>, trace: seq<PageID>, x: PageID)
    requires StartsWith(recent, trace) && x in trace
    ensures x in recent
  {
    assert x in Recency(trace);
    assert recent == Recency(trace) + recent[|Recency(trace)|..];
  }
}
