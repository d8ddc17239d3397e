/** The page cache in front of the disk (PF_Pager): frames on a busy list in order of use or on a free list. */
module Pager {
  import opened Common
  import opened Seqs
  import opened Lru

  datatype Page = Page(id: PageID, buf: Bytes, isDirty: bool)

  /** The disk contents; pages never written are all alike. */
  type Disk = map<PageID, Bytes>

  function OnDisk(disk: Disk, id: PageID): Bytes {
    if id in disk then disk[id] else []
  }

  /** The identifiers of the pages in some frames. */
  function IdsOf(pages: seq<Page>, fs: seq<nat>): (r: seq<PageID>)
    ensures |r| == |fs|
    ensures forall i :: 0 <= i < |fs| && fs[i] < |pages| ==> r[i] == pages[fs[i]].id
  {
    seq(|fs|, i requires 0 <= i < |fs| => if fs[i] < |pages| then pages[fs[i]].id else PageID(0, 0))
  }

  /** Every frame is on exactly one of the two lists. */
  ghost predicate Split(n: nat, busy: seq<nat>, free: seq<nat>) {
    && NoDup(busy + free) && |busy| + |free| == n
    && (forall f: nat :: f in busy || f in free <==> f < n)
  }

  /** The map leads from the pages in the cache, and only from these, to the busy frames that hold them. */
  ghost predicate Indexed(pages: seq<Page>, busy: seq<nat>, busyMap: map<PageID, nat>) {
    && (forall f :: f in busy ==> f < |pages| && pages[f].id in busyMap && busyMap[pages[f].id] == f)
    && (forall id :: id in busyMap ==> busyMap[id] in busy && pages[busyMap[id]].id == id)
  }

  /** A page that is not marked dirty equals its copy on disk. */
  ghost predicate Coherent(pages: seq<Page>, busy: seq<nat>, disk: Disk) {
    forall f :: f in busy ==> CoherentAt(pages, disk, f)
  }

  ghost predicate CoherentAt(pages: seq<Page>, disk: Disk, f: nat) {
    f < |pages| && !pages[f].isDirty ==> pages[f].buf == OnDisk(disk, pages[f].id)
  }

  /** The logical content of a page: its cached copy when there is one, else the disk's. */
  ghost function Content(pages: seq<Page>, busyMap: map<PageID, nat>, disk: Disk, id: PageID): Bytes {
    if id in busyMap && busyMap[id] < |pages| then pages[busyMap[id]].buf else OnDisk(disk, id)
  }

  class PagerCache {
    var pages: seq<Page>
    var busyMap: map<PageID, nat>
    var busy: seq<nat>
    var free: seq<nat>
    var disk: Disk

    ghost predicate Valid()
      reads this
    {
      var isCache := |pages| > 0 && Split(|pages|, busy, free) && Indexed(pages, busy, busyMap)
        && Coherent(pages, busy, disk);
      isCache
    }

    ghost function ContentOf(id: PageID): Bytes
      reads this
    {
      Content(pages, busyMap, disk, id)
    }

    ghost function AllContents(): imap<PageID, Bytes>
      reads this
    {
      imap id: PageID | true :: ContentOf(id)
    }

    /** The cached pages, the most recently used first. */
    ghost function Recent(): seq<PageID>
      reads this
    {
      IdsOf(pages, busy)
    }

    constructor (n: nat, disk: Disk)
      requires n > 0
      ensures Valid() && Recent() == [] && |pages| == n && this.disk == disk && busyMap == map[]
    {
      pages := seq(n, _ => Page(PageID(0, 0), [], false));
      busyMap, busy, this.disk := map[], [], disk;
      free := seq(n, i => i);
      new;
      AllFree(n, free);
    }

    /** force_page: writes a dirty page back. */
    method ForcePage(f: nat)
      requires Valid() && f in busy
      modifies this`pages, this`disk
      ensures Valid() && f < |pages| == old(|pages|) && pages == old(pages)[f := old(pages)[f].(isDirty := false)]
      ensures OnDisk(disk, pages[f].id) == pages[f].buf
      ensures forall id :: id != pages[f].id ==> OnDisk(disk, id) == OnDisk(old(disk), id)
    {
      if pages[f].isDirty {
        disk := disk[pages[f].id := pages[f].buf];
        pages := pages[f := pages[f].(isDirty := false)];
        Forced(old(pages), pages, busy, busyMap, old(disk), disk, f);
      }
    }

    /** A page that is in the cache moves to the front of the busy list. */
    method Access(f: nat)
      requires Valid() && f in busy
      modifies this`busy
      ensures Valid() && busy == [f] + Without(old(busy), f) && f < |pages|
      ensures Recent() == [pages[f].id] + Without(old(Recent()), pages[f].id)
    {
      Moved(pages, busy, free, busyMap, f);
      busy := [f] + Without(busy, f);
    }

    /** Makes room at the front of the busy list: the least recently used page leaves a full cache. */
    method MakeRoom() returns (f: nat)
      requires Valid()
      modifies this
      ensures |pages| == old(|pages|) && f < |pages| && f !in busy && f !in free
      ensures Split(|pages|, [f] + busy, free) && Indexed(pages, busy, busyMap) && Coherent(pages, busy, disk)
      ensures forall id :: ContentOf(id) == old(ContentOf(id))
      ensures Recent() == Take(old(Recent()), |pages| - 1)
      ensures forall id :: id in busyMap ==> id in old(busyMap) && busyMap[id] == old(busyMap)[id]
    {
      hide Split, Indexed, Coherent;
      BusyWithin(pages, busy, busyMap);
      if free == [] {
        LastOut(|pages|, busy);
        f := busy[|busy| - 1];
        BusyFrame(pages, busy, free, busyMap, f);
        ForcePage(f);
        Evicted(pages, busy, busy[..|busy| - 1], f, busyMap, disk);
        busyMap := busyMap - {pages[f].id};
        busy := busy[..|busy| - 1];
      } else {
        f := free[0];
        Granted(|pages|, busy, free);
        free := free[1..];
      }
    }

    /** get_page: the page is at the front of the busy list, read from disk when it had not been cached and exists. */
    method GetPage(id: PageID, present: bool) returns (f: nat)
      requires Valid()
      modifies this
      ensures |pages| == old(|pages|) && f < |pages| && busy != [] && busy[0] == f && pages[f].id == id
      ensures Split(|pages|, busy, free) && Indexed(pages, busy, busyMap)
      ensures forall g :: g in busy && (g != f || present) ==> CoherentAt(pages, disk, g)
      ensures forall x :: x != id || present || id in old(busyMap) ==> ContentOf(x) == old(ContentOf(x))
      ensures Recent() == Touch(old(Recent()), id, |pages|)
      ensures forall x :: x in busyMap && x in old(busyMap) ==> busyMap[x] == old(busyMap)[x]
    {
      if id in busyMap {
        f := busyMap[id];
        Hit(id, f);
      } else {
        f := Miss(id, present);
      }
    }

    method Hit(id: PageID, f: nat)
      requires Valid() && id in busyMap && f == busyMap[id]
      modifies this`busy
      ensures Valid() && f < |pages| && busy != [] && busy[0] == f && pages[f].id == id
      ensures Recent() == Touch(old(Recent()), id, |pages|)
    {
      RecentDistinct(pages, busy, free, busyMap);
      Access(f);
      assert old(Recent())[IndexOf(old(busy), f)] == id;
      TouchCached(old(Recent()), id, |pages|);
    }

    method Miss(id: PageID, present: bool) returns (f: nat)
      requires Valid() && id !in busyMap
      modifies this
      ensures |pages| == old(|pages|) && f < |pages| && busy != [] && busy[0] == f && pages[f].id == id
      ensures Split(|pages|, busy, free) && Indexed(pages, busy, busyMap)
      ensures forall g :: g in busy && (g != f || present) ==> CoherentAt(pages, disk, g)
      ensures forall x :: x != id || present ==> ContentOf(x) == old(ContentOf(x))
      ensures Recent() == Touch(old(Recent()), id, |pages|)
      ensures forall x :: x in busyMap && x in old(busyMap) ==> busyMap[x] == old(busyMap)[x]
    {
      hide Split, Indexed, Coherent, IdsOf, CoherentAt, Touch, Take;
      RecentDistinct(pages, busy, free, busyMap);
      f := MakeRoom();
      var buf := if present then OnDisk(disk, id) else pages[f].buf;
      Placed(pages, busy, busyMap, disk, f, id, buf);
      CoherentFront(pages[f := Page(id, buf, false)], busy, disk, f);
      busy, busyMap, pages := [f] + busy, busyMap[id := f], pages[f := Page(id, buf, false)];
      TouchNew(old(Recent()), id, |pages|);
    }

    /** fetch_page: no page's content changes. */
    method FetchPage(id: PageID) returns (f: nat)
      requires Valid()
      modifies this
      ensures Valid() && |pages| == old(|pages|) && f < |pages| && f in busy && pages[f].id == id
      ensures pages[f].buf == ContentOf(id)
      ensures forall x :: ContentOf(x) == old(ContentOf(x))
      ensures Recent() == Touch(old(Recent()), id, |pages|)
      ensures forall x :: x in busyMap && x in old(busyMap) ==> busyMap[x] == old(busyMap)[x]
    {
      f := GetPage(id, true);
      assert f in busy && busyMap[id] == f;
    }

    /** create_page: the page is marked dirty; what it holds when it had not been cached is left open. */
    method CreatePage(id: PageID) returns (f: nat)
      requires Valid()
      modifies this
      ensures Valid() && |pages| == old(|pages|) && f < |pages| && f in busy && pages[f].id == id && pages[f].isDirty
      ensures forall x :: x != id || id in old(busyMap) ==> ContentOf(x) == old(ContentOf(x))
      ensures Recent() == Touch(old(Recent()), id, |pages|)
    {
      f := GetPage(id, false);
      assert f in busy && busyMap[id] == f;
      ghost var was := pages;
      pages := pages[f := pages[f].(isDirty := true)];
      Marked(was, pages, busy, busyMap, disk, f);
    }

    /** A client writes to a cached page and marks it dirty: that page's content changes and no other's. */
    method WritePage(f: nat, buf: Bytes)
      requires Valid() && f in busy
      modifies this`pages
      ensures Valid() && f < |pages| == old(|pages|) && pages[f].id == old(pages)[f].id && ContentOf(pages[f].id) == buf
      ensures forall x :: x != pages[f].id ==> ContentOf(x) == old(ContentOf(x))
      ensures Recent() == old(Recent())
    {
      ghost var was := pages;
      pages := pages[f := Page(pages[f].id, buf, true)];
      Marked(was, pages, busy, busyMap, disk, f);
    }

    /** flush_page: the page leaves the cache for the disk; no page's content changes. */
    method FlushPage(f: nat)
      requires Valid() && f in busy
      modifies this
      ensures Valid() && |pages| == old(|pages|) && f < |pages|
      ensures forall g :: 0 <= g < |pages| ==> pages[g].id == old(pages)[g].id
      ensures busyMap == old(busyMap) - {pages[f].id} && busy == Without(old(busy), f) && free == [f] + old(free)
      ensures forall x :: ContentOf(x) == old(ContentOf(x))
    {
      hide Split, Indexed, Coherent;
      BusyFrame(pages, busy, free, busyMap, f);
      ForcePage(f);
      Released(|pages|, busy, free, f);
      Evicted(pages, busy, Without(busy, f), f, busyMap, disk);
      free := [f] + free;
      busyMap := busyMap - {pages[f].id};
      busy := Without(busy, f);
    }

    /** flush_file: nothing of the file stays in the cache, so the disk holds its content; other files' pages stay. */
    method FlushFile(fd: int)
      requires Valid()
      modifies this
      ensures Valid() && |pages| == old(|pages|)
      ensures forall x :: x in busyMap <==> x in old(busyMap) && x.fd != fd
      ensures forall x :: x in busyMap ==> busyMap[x] == old(busyMap)[x]
      ensures forall x :: ContentOf(x) == old(ContentOf(x))
      ensures forall x: PageID :: x.fd == fd ==> OnDisk(disk, x) == old(ContentOf(x))
    {
      hide Split, Coherent, Indexed, Content, OnDisk;
      var it := 0;
      while it < |busy|
        invariant Valid() && |pages| == old(|pages|) && it <= |busy|
        invariant forall x :: x in busyMap ==> x in old(busyMap) && busyMap[x] == old(busyMap)[x]
        invariant forall x :: x in old(busyMap) && x.fd != fd ==> x in busyMap
        invariant forall x :: ContentOf(x) == old(ContentOf(x))
        invariant forall k :: 0 <= k < it ==> busy[k] < |pages| && pages[busy[k]].id.fd != fd
        decreases |busy| - it
      {
        var f := busy[it];
        assert f in busy;
        BusyFrame(pages, busy, free, busyMap, f);
        if pages[f].id.fd == fd {
          WithoutAt(pages, busy, it);
          FlushPage(f);
        } else {
          it := it + 1;
        }
      }
      NoneLeft(pages, busy, free, busyMap, fd);
      OnDiskOnly(pages, busyMap, disk, fd);
    }

    /** flush_all: the cache is empty afterwards, with every frame free again. */
    method FlushAll()
      requires Valid()
      modifies this
      ensures Valid() && busy == [] && busyMap == map[] && |free| == |pages| == old(|pages|)
      ensures forall x :: ContentOf(x) == old(ContentOf(x)) == OnDisk(disk, x)
    {
      for i := 0 to |busy|
        invariant Valid() && |pages| == old(|pages|) && busy == old(busy) && free == old(free)
        invariant busyMap == old(busyMap)
        invariant forall x :: ContentOf(x) == old(ContentOf(x))
        invariant forall k :: 0 <= k < i ==> busy[k] < |pages| && !pages[busy[k]].isDirty
      {
        ForcePage(busy[i]);
      }
      AllOut(pages, busy, free, busyMap, disk);
      free := free + busy;
      busy := [];
      busyMap := map[];
    }

    /** write_page past the cache, for a page that is not in it: the first bytes of the page on disk are replaced. */
    method WriteThrough(id: PageID, buf: Bytes)
      requires Valid() && id !in busyMap
      modifies this`disk
      ensures Valid() && ContentOf(id) == Patched(old(ContentOf(id)), buf)
      ensures forall x :: x != id ==> ContentOf(x) == old(ContentOf(x))
    {
      disk := disk[id := Patched(OnDisk(disk, id), buf)];
      OtherDisk(pages, busy, busyMap, old(disk), disk);
    }

    /** read_page past the cache, for a page that is not in it. */
    method ReadThrough(id: PageID, n: nat) returns (buf: Bytes)
      requires Valid() && id !in busyMap && n <= |ContentOf(id)|
      ensures buf == ContentOf(id)[..n]
    {
      buf := OnDisk(disk, id)[..n];
    }

    /** What opening a closed file under another descriptor does to the disk, page identifiers carrying descriptors. */
    method Rename(fd: int, fd': int)
      requires Valid() && forall x :: x in busyMap ==> x.fd != fd && x.fd != fd'
      modifies this`disk
      ensures Valid()
      ensures forall x: PageID :: x.fd == fd' ==> ContentOf(x) == old(ContentOf(PageID(fd, x.page)))
      ensures forall x: PageID :: x.fd != fd && x.fd != fd' ==> ContentOf(x) == old(ContentOf(x))
    {
      disk := Reopened(disk, fd, fd');
      forall x: PageID ensures x.fd == fd' ==> OnDisk(disk, x) == OnDisk(old(disk), PageID(fd, x.page))
        ensures x.fd != fd && x.fd != fd' ==> OnDisk(disk, x) == OnDisk(old(disk), x)
      {
        ReopenedAt(old(disk), fd, fd', x);
      }
      OtherDisk(pages, busy, busyMap, old(disk), disk);
    }
  }

  /** The page after a write to its first bytes. */
  function Patched(page: Bytes, buf: Bytes): (r: Bytes)
    ensures |r| == (if |page| > |buf| then |page| else |buf|) && r[..|buf|] == buf
    ensures forall k :: |buf| <= k < |page| ==> r[k] == page[k]
  {
    buf + if |page| > |buf| then page[|buf|..] else []
  }

  /** A disk that differs from another at pages outside the cache only goes with the cache as well. */
  lemma OtherDisk(pages: seq<Page>, busy: seq<nat>, busyMap: map<PageID, nat>, disk: Disk, disk': Disk)
    requires Indexed(pages, busy, busyMap) && Coherent(pages, busy, disk)
    requires forall x :: x in busyMap ==> OnDisk(disk', x) == OnDisk(disk, x)
    ensures Coherent(pages, busy, disk')
  {
    forall f | f in busy ensures CoherentAt(pages, disk', f) { assert CoherentAt(pages, disk, f); }
  }

  function IndexOf(fs: seq<nat>, f: nat): (i: nat)
    requires f in fs
    ensures i < |fs| && fs[i] == f
  {
    if fs[0] == f then 0 else 1 + IndexOf(fs[1..], f)
  }

  lemma RecentDistinct(pages: seq<Page>, busy: seq<nat>, free: seq<nat>, busyMap: map<PageID, nat>)
    requires Split(|pages|, busy, free) && Indexed(pages, busy, busyMap)
    ensures NoDup(IdsOf(pages, busy)) && |IdsOf(pages, busy)| <= |pages|
    ensures forall id :: id in IdsOf(pages, busy) <==> id in busyMap
  {
    NoDupParts(busy, free);
    var ids := IdsOf(pages, busy);
    forall i | 0 <= i < |busy| ensures busy[i] in busy && busyMap[pages[busy[i]].id] == busy[i] { }
    forall id | id in busyMap ensures id in ids {
      assert ids[IndexOf(busy, busyMap[id])] == id;
    }
  }

  lemma AllFree(n: nat, free: seq<nat>)
    requires |free| == n && forall i :: 0 <= i < n ==> free[i] == i
    ensures Split(n, [], free)
  {
    assert [] + free == free;
    forall f: nat | f < n ensures f in free { assert free[f] == f; }
  }

  lemma Forced(pages: seq<Page>, pages': seq<Page>, busy: seq<nat>, busyMap: map<PageID, nat>, disk: Disk,
               disk': Disk, f: nat)
    requires Indexed(pages, busy, busyMap) && Coherent(pages, busy, disk) && f in busy
    requires pages' == pages[f := pages[f].(isDirty := false)] && disk' == disk[pages[f].id := pages[f].buf]
    ensures Indexed(pages', busy, busyMap) && Coherent(pages', busy, disk')
  {
    forall g | g in busy ensures CoherentAt(pages', disk', g) {
      assert CoherentAt(pages, disk, g);
      if g != f { assert pages[g].id != pages[f].id; }
    }
  }

  lemma {:induction false} SplitFront(n: nat, busy: seq<nat>, free: seq<nat>, f: nat)
    requires Split(n, busy, free) && f in busy
    ensures Split(n, [f] + Without(busy, f), free)
  {
    NoDupParts(busy, free);
    WithoutNoDup(busy, f);
    NoDupConcat([f], Without(busy, f));
    NoDupConcat([f] + Without(busy, f), free);
  }

  lemma {:induction false} IdsWithout(pages: seq<Page>, busy: seq<nat>, f: nat)
    requires f < |pages| && forall g :: g in busy ==> g < |pages| && (pages[g].id == pages[f].id <==> g == f)
    ensures IdsOf(pages, Without(busy, f)) == Without(IdsOf(pages, busy), pages[f].id)
  {
    if busy != [] {
      var g := busy[0];
      assert g in busy;
      forall h | h in busy[1..] ensures h < |pages| && (pages[h].id == pages[f].id <==> h == f) { assert h in busy; }
      IdsWithout(pages, busy[1..], f);
      assert IdsOf(pages, busy)[1..] == IdsOf(pages, busy[1..]);
      if g != f { assert IdsOf(pages, [g] + Without(busy[1..], f)) == [pages[g].id]
        + IdsOf(pages, Without(busy[1..], f)); }
    }
  }

  lemma {:induction false} Moved(pages: seq<Page>, busy: seq<nat>, free: seq<nat>, busyMap: map<PageID, nat>, f: nat)
    requires Split(|pages|, busy, free) && Indexed(pages, busy, busyMap) && f in busy
    ensures var busy' := [f] + Without(busy, f);
            && Split(|pages|, busy', free) && Indexed(pages, busy', busyMap)
            && IdsOf(pages, busy') == [pages[f].id] + Without(IdsOf(pages, busy), pages[f].id)
  {
    var busy' := [f] + Without(busy, f);
    SameMembers(busy, f);
    IdsWithout(pages, busy, f);
    SplitFront(|pages|, busy, free, f);
    hide Split, IdsOf;
    FrontIds(pages, f, Without(busy, f));
  }

  lemma {:induction false} SameMembers(busy: seq<nat>, f: nat)
    requires f in busy
    ensures forall g :: g in [f] + Without(busy, f) <==> g in busy
  {
  }

  lemma FrontIds(pages: seq<Page>, f: nat, rest: seq<nat>)
    requires f < |pages|
    ensures IdsOf(pages, [f] + rest) == [pages[f].id] + IdsOf(pages, rest)
  {
  }

  lemma BusyWithin(pages: seq<Page>, busy: seq<nat>, busyMap: map<PageID, nat>)
    requires Indexed(pages, busy, busyMap)
    ensures forall i :: 0 <= i < |busy| ==> busy[i] < |pages|
  {
    forall i | 0 <= i < |busy| ensures busy[i] < |pages| { assert busy[i] in busy; }
  }

  lemma LastOut(n: nat, busy: seq<nat>)
    requires n > 0 && Split(n, busy, [])
    ensures |busy| == n && busy[|busy| - 1] < n
    ensures busy[|busy| - 1] !in busy[..|busy| - 1] && Split(n, [busy[|busy| - 1]] + busy[..|busy| - 1], [])
    ensures forall g :: g in busy <==> g in busy[..|busy| - 1] || g == busy[|busy| - 1]
  {
    var f, busy' := busy[|busy| - 1], busy[..|busy| - 1];
    assert busy + [] == busy == busy' + [f];
    assert f in busy;
    NoDupParts(busy', [f]);
    assert f in [f];
    NoDupConcat([f], busy');
    assert [f] + busy' + [] == [f] + busy';
    forall g: nat ensures g in [f] + busy' || g in [] <==> g < n { assert g in busy || g in [] <==> g < n; }
  }

  /** Dropping a page whose copy on disk is up to date changes no content. */
  lemma Evicted(pages: seq<Page>, busy: seq<nat>, busy': seq<nat>, f: nat, busyMap: map<PageID, nat>, disk: Disk)
    requires Indexed(pages, busy, busyMap) && Coherent(pages, busy, disk)
    requires f < |pages| && f in busy && f !in busy' && forall g :: g in busy <==> g in busy' || g == f
    requires OnDisk(disk, pages[f].id) == pages[f].buf
    ensures Indexed(pages, busy', busyMap - {pages[f].id}) && Coherent(pages, busy', disk)
    ensures forall id :: Content(pages, busyMap - {pages[f].id}, disk, id) == Content(pages, busyMap, disk, id)
  {
  }

  lemma Granted(n: nat, busy: seq<nat>, free: seq<nat>)
    requires Split(n, busy, free) && free != []
    ensures free[0] < n && free[0] !in busy && free[0] !in free[1..] && Split(n, [free[0]] + busy, free[1..])
    ensures |busy| <= n - 1
  {
    var f := free[0];
    assert f in free;
    NoDupParts(busy, free);
    NoDupHead(free);
    NoDupConcat([f], busy);
    NoDupConcat([f] + busy, free[1..]);
    assert free == [f] + free[1..];
  }

  lemma CoherentFront(pages: seq<Page>, busy: seq<nat>, disk: Disk, f: nat)
    requires Coherent(pages, busy, disk)
    ensures forall g :: g in [f] + busy && g != f ==> CoherentAt(pages, disk, g)
    ensures f < |pages| && pages[f].buf == OnDisk(disk, pages[f].id) ==> CoherentAt(pages, disk, f)
  {
  }

  /** Marking a page dirty excuses it from agreeing with the disk. */
  lemma Marked(pages: seq<Page>, pages': seq<Page>, busy: seq<nat>, busyMap: map<PageID, nat>, disk: Disk, f: nat)
    requires Indexed(pages, busy, busyMap) && f in busy
    requires forall g :: g in busy && g != f ==> CoherentAt(pages, disk, g)
    requires |pages'| == |pages| && pages' == pages[f := pages'[f]] && pages'[f].id == pages[f].id && pages'[f].isDirty
    ensures Indexed(pages', busy, busyMap) && Coherent(pages', busy, disk) && IdsOf(pages', busy) == IdsOf(pages, busy)
    ensures forall x :: x != pages[f].id ==> Content(pages', busyMap, disk, x) == Content(pages, busyMap, disk, x)
    ensures Content(pages', busyMap, disk, pages[f].id) == pages'[f].buf
  {
    forall g | g in busy ensures CoherentAt(pages', disk, g) {
      if g != f { assert CoherentAt(pages, disk, g); }
    }
    forall i | 0 <= i < |busy| ensures busy[i] < |pages| { assert busy[i] in busy; }
  }

  lemma BusyFrame(pages: seq<Page>, busy: seq<nat>, free: seq<nat>, busyMap: map<PageID, nat>, f: nat)
    requires Indexed(pages, busy, busyMap) && Split(|pages|, busy, free) && f in busy
    ensures f < |pages| && pages[f].id in busyMap && busyMap[pages[f].id] == f && NoDup(busy)
  {
    NoDupParts(busy, free);
  }

  lemma {:induction false} Released(n: nat, busy: seq<nat>, free: seq<nat>, f: nat)
    requires Split(n, busy, free) && f in busy
    ensures Split(n, Without(busy, f), [f] + free) && f !in Without(busy, f)
    ensures forall g :: g in busy <==> g in Without(busy, f) || g == f
  {
    NoDupParts(busy, free);
    WithoutNoDup(busy, f);
    NoDupConcat([f], free);
    NoDupConcat(Without(busy, f), [f] + free);
  }

  lemma {:induction false} WithoutAt(pages: seq<Page>, busy: seq<nat>, i: nat)
    requires NoDup(busy) && i < |busy|
    ensures Without(busy, busy[i]) == busy[..i] + busy[i + 1..]
  {
    var f := busy[i];
    assert busy == busy[..i] + [f] + busy[i + 1..];
    WithoutConcat(busy[..i] + [f], busy[i + 1..], f);
    WithoutConcat(busy[..i], [f], f);
    NoDupParts(busy[..i] + [f], busy[i + 1..]);
    NoDupParts(busy[..i], [f]);
    assert f in [f] && f in busy[..i] + [f];
    WithoutNoDup(busy[..i], f);
    WithoutNoDup(busy[i + 1..], f);
  }

  lemma OnDiskOnly(pages: seq<Page>, busyMap: map<PageID, nat>, disk: Disk, fd: int)
    requires forall x :: x in busyMap ==> x.fd != fd
    ensures forall x: PageID :: x.fd == fd ==> OnDisk(disk, x) == Content(pages, busyMap, disk, x)
  {
  }

  lemma NoneLeft(pages: seq<Page>, busy: seq<nat>, free: seq<nat>, busyMap: map<PageID, nat>, fd: int)
    requires Indexed(pages, busy, busyMap)
    requires forall k :: 0 <= k < |busy| ==> busy[k] < |pages| && pages[busy[k]].id.fd != fd
    ensures forall x :: x in busyMap ==> x.fd != fd
  {
    forall x | x in busyMap ensures x.fd != fd {
      var k := IndexOf(busy, busyMap[x]);
      assert pages[busy[k]].id == x;
    }
  }

  lemma AllOut(pages: seq<Page>, busy: seq<nat>, free: seq<nat>, busyMap: map<PageID, nat>, disk: Disk)
    requires Split(|pages|, busy, free) && Indexed(pages, busy, busyMap) && Coherent(pages, busy, disk)
    requires forall k :: 0 <= k < |busy| ==> busy[k] < |pages| && !pages[busy[k]].isDirty
    ensures Split(|pages|, [], free + busy) && Indexed(pages, [], map[]) && Coherent(pages, [], disk)
    ensures forall x :: Content(pages, map[], disk, x) == Content(pages, busyMap, disk, x)
  {
    NoDupParts(busy, free);
    NoDupConcat(free, busy);
    assert [] + (free + busy) == free + busy;
    forall x | x in busyMap ensures OnDisk(disk, x) == Content(pages, busyMap, disk, x) {
      var k := IndexOf(busy, busyMap[x]);
      assert CoherentAt(pages, disk, busy[k]);
    }
  }

  /** A page put into a free frame: the others stay as they were. */
  lemma Placed(pages: seq<Page>, busy: seq<nat>, busyMap: map<PageID, nat>, disk: Disk, f: nat, id: PageID, buf: Bytes)
    requires Indexed(pages, busy, busyMap) && Coherent(pages, busy, disk) && f < |pages| && f !in busy && id !in busyMap
    ensures var pages' := pages[f := Page(id, buf, false)];
            && Indexed(pages', [f] + busy, busyMap[id := f]) && Coherent(pages', busy, disk)
            && IdsOf(pages', [f] + busy) == [id] + IdsOf(pages, busy)
            && (forall x :: x != id ==> Content(pages', busyMap[id := f], disk, x) == Content(pages, busyMap, disk, x))
  {
    var pages' := pages[f := Page(id, buf, false)];
    forall i | 0 <= i < |busy| ensures busy[i] != f && busy[i] < |pages| { assert busy[i] in busy; }
    assert IdsOf(pages', [f] + busy) == [id] + IdsOf(pages, busy);
    forall g | g in busy ensures CoherentAt(pages', disk, g) { assert CoherentAt(pages, disk, g); }
  }

  /** Any run of requests on a new cache: the busy list is the LRU order, and every page reads as on disk. */
  method RunRequests(n: nat, disk: Disk, trace: seq<PageID>) returns (cache: PagerCache)
    requires n > 0
    ensures fresh(cache) && cache.Valid() && cache.Recent() == RunTouch(trace, n)
    ensures forall x :: cache.ContentOf(x) == OnDisk(disk, x)
  {
    hide PagerCache.Valid, PagerCache.Recent, OnDisk;
    cache := new PagerCache(n, disk);
    for i := 0 to |trace|
      invariant fresh(cache) && cache.Valid() && |cache.pages| == n && cache.Recent() == RunTouch(trace[..i], n)
      invariant forall x :: cache.ContentOf(x) == OnDisk(disk, x)
    {
      assert trace[..i + 1][..i] == trace[..i];
      var f := cache.FetchPage(trace[i]);
    }
    assert trace[..|trace|] == trace;
  }

  // ----- runs of every operation -----

  datatype CacheOp =
    | Fetch(id: PageID)
    | Create(id: PageID)
    | Write(id: PageID, buf: Bytes)
    | Flush(id: PageID)
    | FlushOf(fd: int)
    | FlushEverything

  type Contents = imap<PageID, Bytes>

  /** What an operation does to the contents of the pages: a write sets one page, a creation may leave anything in
      the page it creates, and nothing else changes any page. */
  ghost predicate CacheStep(op: CacheOp, was: Contents, now: Contents) {
    match op
    case Write(id, buf) => now == was[id := buf]
    case Create(id) => id in now && now == was[id := now[id]]
    case _ => now == was
  }

  ghost predicate CacheRun(ops: seq<CacheOp>, states: seq<Contents>) {
    |states| == |ops| + 1 && forall i :: 0 <= i < |ops| ==> CacheStep(ops[i], states[i], states[i + 1])
  }

  /** One operation as a client performs it: a page is fetched before it is written to. */
  method ApplyCacheOp(cache: PagerCache, op: CacheOp)
    requires cache.Valid()
    modifies cache
    ensures cache.Valid() && CacheStep(op, old(cache.AllContents()), cache.AllContents())
  {
    hide Split, Indexed, Coherent;
    match op {
      case Fetch(id) => var f := cache.FetchPage(id);
      case Create(id) => var f := cache.CreatePage(id);
      case Write(id, buf) =>
        var f := cache.FetchPage(id);
        cache.WritePage(f, buf);
      case Flush(id) =>
        if id in cache.busyMap {
          CachedFrame(cache, id);
          cache.FlushPage(cache.busyMap[id]);
        }
      case FlushOf(fd) => cache.FlushFile(fd);
      case FlushEverything => cache.FlushAll();
    }
  }

  lemma CachedFrame(cache: PagerCache, id: PageID)
    requires cache.Valid() && id in cache.busyMap
    ensures cache.busyMap[id] in cache.busy
  {
  }

  /** Any run of fetches, creations, writes and flushes changes the contents as its writes and creations say. */
  method RunCache(cache: PagerCache, ops: seq<CacheOp>) returns (ghost states: seq<Contents>)
    requires cache.Valid()
    modifies cache
    ensures cache.Valid() && CacheRun(ops, states)
    ensures states[0] == old(cache.AllContents()) && states[|ops|] == cache.AllContents()
  {
    hide CacheStep;
    states := [cache.AllContents()];
    for i := 0 to |ops|
      invariant cache.Valid() && |states| == i + 1 && states[0] == old(cache.AllContents())
      invariant states[i] == cache.AllContents()
      invariant forall k :: 0 <= k < i ==> CacheStep(ops[k], states[k], states[k + 1])
    {
      ApplyCacheOp(cache, ops[i]);
      states := states + [cache.AllContents()];
    }
  }

  /** A page that is neither written nor created in a run keeps its content. */
  lemma {:induction false} UntouchedKept(ops: seq<CacheOp>, states: seq<Contents>, id: PageID, n: nat)
    requires CacheRun(ops, states) && n <= |ops| && id in states[0]
    requires forall i :: 0 <= i < n ==> ops[i] != Create(id) && !(ops[i].Write? && ops[i].id == id)
    ensures id in states[n] && states[n][id] == states[0][id]
  {
    if n > 0 {
      UntouchedKept(ops, states, id, n - 1);
      assert CacheStep(ops[n - 1], states[n - 1], states[n - 1 + 1]);
    }
  }

  /** The last write to a page is what it reads, whatever is fetched, evicted or flushed afterwards. */
  lemma LastWriteRead(ops: seq<CacheOp>, states: seq<Contents>, id: PageID, buf: Bytes, k: nat)
    requires CacheRun(ops, states) && k < |ops| && ops[k] == Write(id, buf)
    requires forall i :: k < i < |ops| ==> ops[i] != Create(id) && !(ops[i].Write? && ops[i].id == id)
    ensures id in states[|ops|] && states[|ops|][id] == buf
  {
    assert CacheStep(ops[k], states[k], states[k + 1]);
    var rest, after := ops[k + 1..], states[k + 1..];
    forall i | 0 <= i < |rest| ensures CacheStep(rest[i], after[i], after[i + 1]) {
      assert CacheStep(ops[k + 1 + i], states[k + 1 + i], states[k + 1 + i + 1]);
    }
    UntouchedKept(rest, after, id, |rest|);
  }

  // ----- closing and opening files -----

  /** The disk as seen after the file open under one descriptor has been opened under another. */
  function Reopened(disk: Disk, fd: int, fd': int): Disk {
    (map x | x in disk && x.fd != fd && x.fd != fd' :: disk[x]) + FileAs(disk, fd, fd')
  }

  function FileAs(disk: Disk, fd: int, fd': int): Disk {
    map x | x in disk && x.fd == fd :: PageID(fd', x.page) := disk[x]
  }

  lemma ReopenedAt(disk: Disk, fd: int, fd': int, x: PageID)
    ensures x.fd == fd' ==> OnDisk(Reopened(disk, fd, fd'), x) == OnDisk(disk, PageID(fd, x.page))
    ensures x.fd != fd && x.fd != fd' ==> OnDisk(Reopened(disk, fd, fd'), x) == OnDisk(disk, x)
  {
    if x.fd == fd' {
      var y := PageID(fd, x.page);
      assert x == PageID(fd', y.page);
      assert y in disk <==> x in FileAs(disk, fd, fd');
    }
  }

  /** close_file, and open_file for the same path later: the file's pages leave the cache for the disk, and read the
      same under the new descriptor; other files stay as they are, in the cache or not. */
  method CloseAndReopen(cache: PagerCache, fd: int, fd': int)
    requires cache.Valid() && forall x :: x in cache.busyMap && x.fd == fd' ==> fd' == fd
    modifies cache
    ensures cache.Valid() && |cache.pages| == old(|cache.pages|)
    ensures forall x :: x in cache.busyMap <==> x in old(cache.busyMap) && x.fd != fd && x.fd != fd'
    ensures forall x: PageID :: x.fd == fd' ==> cache.ContentOf(x) == old(cache.ContentOf(PageID(fd, x.page)))
    ensures forall x: PageID :: x.fd != fd && x.fd != fd' ==> cache.ContentOf(x) == old(cache.ContentOf(x))
  {
    hide PagerCache.Valid, PagerCache.ContentOf, OnDisk;
    cache.FlushFile(fd);
    cache.Rename(fd, fd');
  }

  /** The pager shuts down and another process starts one: every page reads as before. */
  method Restart(cache: PagerCache, n: nat) returns (other: PagerCache)
    requires cache.Valid() && n > 0
    modifies cache
    ensures cache.Valid() && fresh(other) && other.Valid()
    ensures forall x :: other.ContentOf(x) == old(cache.ContentOf(x))
  {
    cache.FlushAll();
    other := new PagerCache(n, cache.disk);
  }

  /** Requests on a cache in use: a frame handed out for a page stays with that page until as many other distinct
      pages have been requested as there are frames. */
  method KeepsFrame(cache: PagerCache, id: PageID, f: nat, trace: seq<PageID>)
    requires cache.Valid() && cache.Recent() != [] && cache.Recent()[0] == id && id in cache.busyMap
    requires cache.busyMap[id] == f
    requires |Recency([id] + trace)| <= |cache.pages|
    modifies cache
    ensures cache.Valid() && |cache.pages| == old(|cache.pages|)
    ensures cache.Recent() == TouchAll(old(cache.Recent()), trace, |cache.pages|)
    ensures forall x :: cache.ContentOf(x) == old(cache.ContentOf(x))
    ensures f < |cache.pages| && cache.pages[f].id == id && id in cache.busyMap && cache.busyMap[id] == f
  {
    hide PagerCache.Valid, PagerCache.ContentOf, PagerCache.Recent, Touch, StartsWith, Recency;
    ghost var all := [id] + trace;
    FirstTouched(cache.Recent(), all, id);
    for i := 0 to |trace|
      invariant cache.Valid() && |cache.pages| == old(|cache.pages|) && id in cache.busyMap && cache.busyMap[id] == f
      invariant cache.Recent() == TouchAll(old(cache.Recent()), trace[..i], |cache.pages|)
      invariant forall x :: cache.ContentOf(x) == old(cache.ContentOf(x))
      invariant StartsWith(cache.Recent(), all[..i + 1])
    {
      assert all[i + 1] == trace[i] && trace[..i + 1][..i] == trace[..i];
      KeepOne(all, i + 1, cache.Recent(), |cache.pages|);
      var g := cache.FetchPage(trace[i]);
      InRecent(cache, id);
    }
    assert trace[..|trace|] == trace;
    FrameOf(cache, id);
  }

  lemma FirstTouched(recent: seq<PageID>, all: seq<PageID>, id: PageID)
    requires recent != [] && recent[0] == id && all != [] && all[0] == id
    ensures StartsWith(recent, all[..1])
  {
    assert all[..1] == [id];
    assert Recency([id]) == [id];
  }

  lemma FrameOf(cache: PagerCache, id: PageID)
    requires cache.Valid() && id in cache.busyMap
    ensures cache.busyMap[id] < |cache.pages| && cache.pages[cache.busyMap[id]].id == id
  {
  }

  lemma InRecent(cache: PagerCache, id: PageID)
    requires cache.Valid() && id in cache.Recent()
    ensures id in cache.busyMap
  {
    RecentDistinct(cache.pages, cache.busy, cache.free, cache.busyMap);
  }
}
