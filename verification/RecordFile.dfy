/** The record file: pages of fixed-size slots under a bitmap, with a chain of the pages that have room. */
module RecordFile {
  import opened Common
  import opened Seqs
  import Bitmap

  const FIRST_RECORD_PAGE := 1

  datatype RmHeader = RmHeader(recordSize: nat, numPages: int, perPage: nat, firstFree: int, bitmapSize: nat)

  datatype RmPage = RmPage(nextFree: int, numRecords: int, bitmap: Bitmap.Bits, slots: seq<Bytes>)

  type RmPages = map<int, RmPage>

  predicate InRange(hdr: RmHeader, rid: RecordID) {
    FIRST_RECORD_PAGE <= rid.page < hdr.numPages && 0 <= rid.slot < hdr.perPage
  }

  /** A page agrees with the file header, and its record count with its bitmap. */
  ghost predicate PageOk(hdr: RmHeader, pages: RmPages, p: int) {
    && p in pages && hdr.perPage <= hdr.bitmapSize * Bitmap.WIDTH
    && |pages[p].bitmap| == hdr.bitmapSize && |pages[p].slots| == hdr.perPage
    && pages[p].numRecords == Bitmap.Count(pages[p].bitmap, hdr.perPage)
  }

  function FreeLink(p: RmPage): int {
    p.nextFree
  }

  /** Every page is sound, and the chain from first_free visits each page with room exactly once. */
  ghost predicate FileOk(hdr: RmHeader, pages: RmPages, free: seq<int>) {
    var isFile :=
      && hdr.perPage > 0 && hdr.numPages >= FIRST_RECORD_PAGE
      && (forall p :: FIRST_RECORD_PAGE <= p < hdr.numPages ==> PageOk(hdr, pages, p))
      && FreeChain(pages, FreeLink, hdr.firstFree, free) && NoDup(free)
      && (forall p :: p in free <==>
          FIRST_RECORD_PAGE <= p < hdr.numPages && p in pages && pages[p].numRecords < hdr.perPage);
    isFile
  }

  ghost predicate Live(hdr: RmHeader, pages: RmPages, rid: RecordID) {
    InRange(hdr, rid) && PageOk(hdr, pages, rid.page) && Bitmap.Test(pages[rid.page].bitmap, rid.slot)
  }

  /** The records of the file. */
  ghost function Records(hdr: RmHeader, pages: RmPages): map<RecordID, Bytes> {
    map p: int, s: int | FIRST_RECORD_PAGE <= p < hdr.numPages && 0 <= s < hdr.perPage
      && Live(hdr, pages, RecordID(p, s))
      :: RecordID(p, s) := pages[p].slots[s]
  }

  lemma RecordsAt(hdr: RmHeader, pages: RmPages, rid: RecordID)
    ensures rid in Records(hdr, pages) <==> Live(hdr, pages, rid)
    ensures Live(hdr, pages, rid) ==> Records(hdr, pages)[rid] == pages[rid.page].slots[rid.slot]
  {
    var r := RecordID(rid.page, rid.slot);
    assert r == rid;
  }

  // ----- single-page changes -----

  /** One page is replaced by a sound one; the others and the header fields that matter stay. */
  lemma RecordsUpdate(hdr: RmHeader, hdr': RmHeader, pages: RmPages, pages': RmPages, rid: RecordID)
    requires hdr' == hdr.(firstFree := hdr'.firstFree) && InRange(hdr, rid)
    requires PageOk(hdr, pages, rid.page) && PageOk(hdr', pages', rid.page)
    requires pages' == pages[rid.page := pages'[rid.page]]
    requires forall s :: 0 <= s < hdr.perPage && s != rid.slot ==>
      pages'[rid.page].slots[s] == pages[rid.page].slots[s]
      && (Bitmap.Test(pages'[rid.page].bitmap, s) <==> Bitmap.Test(pages[rid.page].bitmap, s))
    ensures Records(hdr', pages') == if Live(hdr', pages', rid)
      then Records(hdr, pages)[rid := pages'[rid.page].slots[rid.slot]]
                                     else Records(hdr, pages) - {rid}
  {
    var was, now := Records(hdr, pages), Records(hdr', pages');
    forall r | r != rid ensures (r in now <==> r in was) && (r in was ==> now[r] == was[r]) {
      OtherRecord(hdr, hdr', pages, pages', rid, r);
    }
    RecordsAt(hdr', pages', rid);
    DiffersAt(was, now, rid);
  }

  lemma DiffersAt<K, V>(was: map<K, V>, now: map<K, V>, key: K)
    requires forall k :: k != key ==> (k in now <==> k in was)
    requires forall k :: k != key && k in was ==> now[k] == was[k]
    ensures key in now ==> now == was[key := now[key]]
    ensures key !in now ==> now == was - {key}
  {
    if key in now {
      assert now.Keys == was[key := now[key]].Keys;
    } else {
      assert now.Keys == (was - {key}).Keys;
    }
  }

  lemma OtherRecord(hdr: RmHeader, hdr': RmHeader, pages: RmPages, pages': RmPages, rid: RecordID, r: RecordID)
    requires hdr' == hdr.(firstFree := hdr'.firstFree) && InRange(hdr, rid) && r != rid
    requires PageOk(hdr, pages, rid.page) && PageOk(hdr', pages', rid.page)
    requires pages' == pages[rid.page := pages'[rid.page]]
    requires forall s :: 0 <= s < hdr.perPage && s != rid.slot ==>
      pages'[rid.page].slots[s] == pages[rid.page].slots[s]
      && (Bitmap.Test(pages'[rid.page].bitmap, s) <==> Bitmap.Test(pages[rid.page].bitmap, s))
    ensures r in Records(hdr', pages') <==> r in Records(hdr, pages)
    ensures r in Records(hdr, pages) ==> Records(hdr', pages')[r] == Records(hdr, pages)[r]
  {
    RecordsAt(hdr, pages, r);
    RecordsAt(hdr', pages', r);
    assert Live(hdr', pages', r) <==> Live(hdr, pages, r);
  }

  lemma RecordsNewPage(hdr: RmHeader, hdr': RmHeader, pages: RmPages, pages': RmPages, p: int)
    requires p == hdr.numPages >= FIRST_RECORD_PAGE
    requires hdr' == hdr.(numPages := hdr.numPages + 1, firstFree := p) && p in pages'
    requires pages' == pages[p := pages'[p]] && pages'[p].bitmap == Bitmap.Cleared(hdr.bitmapSize)
    ensures Records(hdr', pages') == Records(hdr, pages)
  {
    forall r ensures (r in Records(hdr', pages') <==> r in Records(hdr, pages))
      && (r in Records(hdr, pages) ==> Records(hdr', pages')[r] == Records(hdr, pages)[r])
    {
      RecordsAt(hdr, pages, r);
      RecordsAt(hdr', pages', r);
      if r.page != p { assert Live(hdr', pages', r) <==> Live(hdr, pages, r); }
    }
  }

  lemma NewPageOk(hdr: RmHeader, hdr': RmHeader, pages: RmPages, pages': RmPages, free: seq<int>, p: int)
    requires FileOk(hdr, pages, free) && hdr.firstFree == NO_PAGE && p == hdr.numPages
    requires hdr' == hdr.(numPages := hdr.numPages + 1, firstFree := p) && hdr.perPage <= hdr.bitmapSize * Bitmap.WIDTH
    requires p in pages' && pages' == pages[p := pages'[p]]
    requires pages'[p].bitmap == Bitmap.Cleared(hdr.bitmapSize) && |pages'[p].slots| == hdr.perPage
    requires pages'[p].numRecords == 0 && pages'[p].nextFree == NO_PAGE
    ensures FileOk(hdr', pages', [p])
  {
    Bitmap.CountCleared(hdr.bitmapSize, hdr.perPage);
    ChainHead(hdr, pages, free);
    forall x | FIRST_RECORD_PAGE <= x < hdr'.numPages ensures PageOk(hdr', pages', x) {
      if x != p { assert PageOk(hdr, pages, x); }
    }
    assert FreeChain(pages', FreeLink, NO_PAGE, [p][1..]);
    forall x
      ensures x in [p] <==>
        FIRST_RECORD_PAGE <= x < hdr'.numPages && x in pages' && pages'[x].numRecords < hdr'.perPage
    {
      if FIRST_RECORD_PAGE <= x < hdr.numPages { assert x !in free; }
    }
  }

  /** The first page of the chain takes a record, and leaves the chain when that fills it. */
  lemma InsertOk(hdr: RmHeader, hdr': RmHeader, pages: RmPages, pages': RmPages, free: seq<int>, p: int, s: nat)
    returns (free': seq<int>)
    requires FileOk(hdr, pages, free) && free != [] && p == hdr.firstFree && s < hdr.perPage
    requires PageOk(hdr, pages, p) && !Bitmap.Test(pages[p].bitmap, s) && p in pages'
    requires pages' == pages[p := pages'[p]] && pages'[p].nextFree == pages[p].nextFree
    requires pages'[p].bitmap == Bitmap.WithBit(pages[p].bitmap, s) && |pages'[p].slots| == hdr.perPage
    requires pages'[p].numRecords == pages[p].numRecords + 1
    requires hdr' == if pages'[p].numRecords == hdr.perPage then hdr.(firstFree := pages[p].nextFree) else hdr
    ensures FileOk(hdr', pages', free') && PageOk(hdr', pages', p)
  {
    Bitmap.CountWithBit(pages[p].bitmap, hdr.perPage, s);
    Bitmap.CountBounds(pages'[p].bitmap, hdr.perPage);
    NoDupHead(free);
    free' := if pages'[p].numRecords == hdr.perPage then free[1..] else free;
    forall x | FIRST_RECORD_PAGE <= x < hdr'.numPages ensures PageOk(hdr', pages', x) {
      assert PageOk(hdr, pages, x);
    }
    FreeChainFrame(pages, pages', FreeLink, hdr.firstFree, free);
    forall x ensures x in free' <==>
      FIRST_RECORD_PAGE <= x < hdr'.numPages && x in pages' && pages'[x].numRecords < hdr'.perPage {
      assert x in free <==> x == p || x in free[1..];
    }
  }

  /** A page loses a record, and joins the chain when it had been full. */
  lemma DeleteOk(hdr: RmHeader, hdr': RmHeader, pages: RmPages, pages': RmPages, free: seq<int>, p: int, s: nat)
    returns (free': seq<int>)
    requires FileOk(hdr, pages, free) && FIRST_RECORD_PAGE <= p < hdr.numPages && s < hdr.perPage
    requires PageOk(hdr, pages, p) && Bitmap.Test(pages[p].bitmap, s) && p in pages'
    requires pages' == pages[p := pages'[p]]
    requires pages'[p].nextFree == if pages[p].numRecords == hdr.perPage then hdr.firstFree else pages[p].nextFree
    requires pages'[p].bitmap == Bitmap.WithoutBit(pages[p].bitmap, s) && |pages'[p].slots| == hdr.perPage
    requires pages'[p].numRecords == pages[p].numRecords - 1
    requires hdr' == if pages[p].numRecords == hdr.perPage then hdr.(firstFree := p) else hdr
    ensures FileOk(hdr', pages', free') && PageOk(hdr', pages', p)
  {
    Bitmap.CountWithoutBit(pages[p].bitmap, hdr.perPage, s);
    Bitmap.CountBounds(pages[p].bitmap, hdr.perPage);
    var full := pages[p].numRecords == hdr.perPage;
    free' := if full then [p] + free else free;
    forall x | FIRST_RECORD_PAGE <= x < hdr'.numPages ensures PageOk(hdr', pages', x) {
      assert PageOk(hdr, pages, x);
    }
    assert full ==> p !in free;
    FreeChainFrame(pages, pages', FreeLink, hdr.firstFree, free);
    if full {
      NoDupConcat([p], free);
      assert ([p] + free)[1..] == free;
    }
    forall x ensures x in free' <==>
      FIRST_RECORD_PAGE <= x < hdr'.numPages && x in pages' && pages'[x].numRecords < hdr'.perPage {
      assert x in free' <==> x in free || (full && x == p);
    }
  }

  lemma ChainHead(hdr: RmHeader, pages: RmPages, free: seq<int>)
    requires FileOk(hdr, pages, free)
    ensures hdr.firstFree == NO_PAGE <==> free == []
    ensures free != [] ==> FIRST_RECORD_PAGE <= hdr.firstFree < hdr.numPages && PageOk(hdr, pages, hdr.firstFree)
    ensures free != [] ==> hdr.firstFree in pages && pages[hdr.firstFree].numRecords < hdr.perPage
  {
    if free != [] { var h := free[0]; assert h in free; }
  }

  class RecordFile {
    var hdr: RmHeader
    var pages: RmPages
    ghost var free: seq<int>

    ghost predicate Valid()
      reads this
    {
      FileOk(hdr, pages, free) && hdr.perPage <= hdr.bitmapSize * Bitmap.WIDTH
    }

    ghost function Contents(): map<RecordID, Bytes>
      reads this
    {
      Records(hdr, pages)
    }

    /** A new record file has no record page yet. */
    constructor (recordSize: nat, perPage: nat, bitmapSize: nat)
      requires 0 < perPage <= bitmapSize * Bitmap.WIDTH
      ensures Valid() && Contents() == map[] && hdr == RmHeader(recordSize, 1, perPage, -1, bitmapSize)
    {
      hdr := RmHeader(recordSize, FIRST_RECORD_PAGE, perPage, NO_PAGE, bitmapSize);
      pages := map[];
      free := [];
    }

    /** The handle that open_file makes of the header and the pages of a record file. */
    constructor Open(hdr: RmHeader, pages: RmPages, ghost free: seq<int>)
      requires FileOk(hdr, pages, free) && hdr.perPage <= hdr.bitmapSize * Bitmap.WIDTH
      ensures Valid() && this.hdr == hdr && this.pages == pages
    {
      this.hdr, this.pages, this.free := hdr, pages, free;
    }

    predicate IsRecord(rid: RecordID)
      reads this
      requires Valid() && InRange(hdr, rid)
      ensures IsRecord(rid) <==> rid in Contents()
    {
      assert PageOk(hdr, pages, rid.page);
      RecordsAt(hdr, pages, rid);
      Bitmap.Test(pages[rid.page].bitmap, rid.slot)
    }

    /** The record, or none (RecordNotFoundError). */
    function GetRecord(rid: RecordID): (r: Option<Bytes>)
      reads this
      requires Valid() && InRange(hdr, rid)
      ensures r == if rid in Contents() then Some(Contents()[rid]) else None
    {
      assert PageOk(hdr, pages, rid.page);
      RecordsAt(hdr, pages, rid);
      if !Bitmap.Test(pages[rid.page].bitmap, rid.slot) then None else Some(pages[rid.page].slots[rid.slot])
    }

    /** The first page with room, allocated when there is none. */
    method CreatePage() returns (p: int)
      requires Valid()
      modifies this
      ensures Valid() && Contents() == old(Contents()) && free != [] && p == hdr.firstFree
      ensures hdr.perPage == old(hdr).perPage && hdr.recordSize == old(hdr).recordSize
    {
      ChainHead(hdr, pages, free);
      if hdr.firstFree == NO_PAGE {
        p := hdr.numPages;
        var raw: seq<Bytes> := seq(hdr.perPage, _ => []);
        pages := pages[p := RmPage(NO_PAGE, 0, Bitmap.Cleared(hdr.bitmapSize), raw)];
        hdr := hdr.(numPages := hdr.numPages + 1, firstFree := p);
        NewPageOk(old(hdr), hdr, old(pages), pages, free, p);
        RecordsNewPage(old(hdr), hdr, old(pages), pages, p);
        free := [p];
      } else {
        p := hdr.firstFree;
      }
    }

    /** Stores a record under a record id that was not in use. */
    method InsertRecord(buf: Bytes) returns (rid: RecordID)
      requires Valid()
      modifies this
      ensures Valid() && rid !in old(Contents()) && Contents() == old(Contents())[rid := buf] && InRange(hdr, rid)
      ensures hdr.recordSize == old(hdr).recordSize
    {
      hide FileOk, Records, PageOk;
      var p := CreatePage();
      ChainHead(hdr, pages, free);
      ghost var was, wasHdr := pages, hdr;
      var page := pages[p];
      Bitmap.CountBounds(page.bitmap, hdr.perPage);
      var slot := Bitmap.NextBit(false, page.bitmap, hdr.perPage, -1);
      rid := RecordID(p, slot);
      RecordsAt(hdr, pages, rid);
      page := page.(bitmap := Bitmap.WithBit(page.bitmap, slot), numRecords := page.numRecords + 1,
                    slots := page.slots[slot := buf]);
      pages := pages[p := page];
      if page.numRecords == hdr.perPage {
        hdr := hdr.(firstFree := page.nextFree);
      }
      free := InsertOk(wasHdr, hdr, was, pages, free, p, slot);
      InsertRecords(wasHdr, hdr, was, pages, rid, buf);
    }

    /** Removes a record; found is false (RecordNotFoundError) and nothing changes when there is none. */
    method DeleteRecord(rid: RecordID) returns (found: bool)
      requires Valid() && InRange(hdr, rid)
      modifies this
      ensures Valid() && hdr == old(hdr).(firstFree := hdr.firstFree)
      ensures found == (rid in old(Contents())) && Contents() == old(Contents()) - {rid}
      ensures !found ==> unchanged(this)
    {
      assert PageOk(hdr, pages, rid.page);
      RecordsAt(hdr, pages, rid);
      var p, page := rid.page, pages[rid.page];
      if !Bitmap.Test(page.bitmap, rid.slot) {
        assert Contents() - {rid} == Contents();
        return false;
      }
      if page.numRecords == hdr.perPage {
        page := page.(nextFree := hdr.firstFree);
        hdr := hdr.(firstFree := p);
      }
      page := page.(bitmap := Bitmap.WithoutBit(page.bitmap, rid.slot), numRecords := page.numRecords - 1);
      pages := pages[p := page];
      free := DeleteOk(old(hdr), hdr, old(pages), pages, free, p, rid.slot);
      DeleteRecords(old(hdr), hdr, old(pages), pages, rid);
      found := true;
    }

    /** Overwrites a record; found is false (RecordNotFoundError) and nothing changes when there is none. */
    method UpdateRecord(rid: RecordID, buf: Bytes) returns (found: bool)
      requires Valid() && InRange(hdr, rid)
      modifies this
      ensures Valid() && hdr == old(hdr)
      ensures found == (rid in old(Contents())) && (!found ==> unchanged(this))
      ensures Contents() == if found then old(Contents())[rid := buf] else old(Contents())
    {
      assert PageOk(hdr, pages, rid.page);
      RecordsAt(hdr, pages, rid);
      var page := pages[rid.page];
      if !Bitmap.Test(page.bitmap, rid.slot) {
        return false;
      }
      pages := pages[rid.page := page.(slots := page.slots[rid.slot := buf])];
      UpdateOk(hdr, old(pages), pages, free, rid, buf);
      found := true;
    }
  }

  lemma InsertRecords(hdr: RmHeader, hdr': RmHeader, pages: RmPages, pages': RmPages, rid: RecordID, buf: Bytes)
    requires hdr' == hdr.(firstFree := hdr'.firstFree) && InRange(hdr, rid)
    requires PageOk(hdr, pages, rid.page) && PageOk(hdr', pages', rid.page)
    requires pages' == pages[rid.page := pages'[rid.page]]
    requires pages'[rid.page].bitmap == Bitmap.WithBit(pages[rid.page].bitmap, rid.slot)
    requires pages'[rid.page].slots == pages[rid.page].slots[rid.slot := buf]
    ensures Records(hdr', pages') == Records(hdr, pages)[rid := buf]
  {
    forall s: nat | s < hdr.perPage
      ensures Bitmap.Test(pages'[rid.page].bitmap, s) <==> s == rid.slot || Bitmap.Test(pages[rid.page].bitmap, s)
    {
      Bitmap.TestWithBit(pages[rid.page].bitmap, rid.slot, s);
    }
    RecordsUpdate(hdr, hdr', pages, pages', rid);
  }

  lemma DeleteRecords(hdr: RmHeader, hdr': RmHeader, pages: RmPages, pages': RmPages, rid: RecordID)
    requires hdr' == hdr.(firstFree := hdr'.firstFree) && InRange(hdr, rid)
    requires PageOk(hdr, pages, rid.page) && PageOk(hdr', pages', rid.page)
    requires pages' == pages[rid.page := pages'[rid.page]]
    requires pages'[rid.page].bitmap == Bitmap.WithoutBit(pages[rid.page].bitmap, rid.slot)
    requires pages'[rid.page].slots == pages[rid.page].slots
    ensures Records(hdr', pages') == Records(hdr, pages) - {rid}
  {
    forall s: nat | s < hdr.perPage
      ensures Bitmap.Test(pages'[rid.page].bitmap, s) <==> s != rid.slot && Bitmap.Test(pages[rid.page].bitmap, s)
    {
      Bitmap.TestWithoutBit(pages[rid.page].bitmap, rid.slot, s);
    }
    RecordsUpdate(hdr, hdr', pages, pages', rid);
  }

  lemma UpdateOk(hdr: RmHeader, pages: RmPages, pages': RmPages, free: seq<int>, rid: RecordID, buf: Bytes)
    requires FileOk(hdr, pages, free) && InRange(hdr, rid) && PageOk(hdr, pages, rid.page)
    requires Live(hdr, pages, rid)
    requires pages' == pages[rid.page := pages[rid.page].(slots := pages[rid.page].slots[rid.slot := buf])]
    ensures FileOk(hdr, pages', free) && Records(hdr, pages') == Records(hdr, pages)[rid := buf]
  {
    forall x | FIRST_RECORD_PAGE <= x < hdr.numPages ensures PageOk(hdr, pages', x) { assert PageOk(hdr, pages, x); }
    FreeChainFrame(pages, pages', FreeLink, hdr.firstFree, free);
    RecordsUpdate(hdr, hdr, pages, pages', rid);
  }

  // ----- iteration -----

  /** Page-major order of record ids. */
  predicate Precedes(a: RecordID, b: RecordID) {
    a.page < b.page || (a.page == b.page && a.slot < b.slot)
  }

  class RecordIterator {
    const file: RecordFile
    var rid: RecordID

    predicate IsEnd()
      reads this
    {
      rid.page == NO_PAGE
    }

    /** Starts before the first slot of the first record page and moves to the first record. */
    constructor (file: RecordFile)
      requires file.Valid()
      ensures this.file == file
      ensures IsEnd() ==> file.Contents() == map[]
      ensures !IsEnd() ==> rid in file.Contents() && InRange(file.hdr, rid)
      ensures !IsEnd() ==> forall r :: r in file.Contents() ==> r == rid || Precedes(rid, r)
    {
      this.file := file;
      rid := RecordID(FIRST_RECORD_PAGE, -1);
      new;
      forall r | r in file.Contents() ensures Precedes(rid, r) { RecordsAt(file.hdr, file.pages, r); }
      Next();
    }

    /** Moves to the next record in page and slot order, or to the end when there is none. */
    method Next()
      requires file.Valid() && !IsEnd() && FIRST_RECORD_PAGE <= rid.page && -1 <= rid.slot < file.hdr.perPage
      modifies this
      ensures IsEnd() ==> forall r :: r in file.Contents() ==> !Precedes(old(rid), r)
      ensures !IsEnd() ==> rid in file.Contents() && Precedes(old(rid), rid) && InRange(file.hdr, rid)
      ensures !IsEnd() ==> forall r :: r in file.Contents() && Precedes(old(rid), r) ==> r == rid || Precedes(rid, r)
    {
      ghost var hdr, pages := file.hdr, file.pages;
      while rid.page < file.hdr.numPages
        invariant FIRST_RECORD_PAGE <= rid.page && -1 <= rid.slot < hdr.perPage
        invariant rid == old(rid) || (old(rid).page < rid.page && rid.slot == -1)
        invariant forall r :: r in file.Contents() && Precedes(old(rid), r) ==> Precedes(rid, r)
        decreases file.hdr.numPages - rid.page
      {
        assert PageOk(hdr, pages, rid.page);
        var from := rid;
        var slot := Bitmap.NextBit(true, file.pages[rid.page].bitmap, file.hdr.perPage, rid.slot);
        NextOnPage(hdr, pages, from, slot);
        if slot < file.hdr.perPage {
          rid := RecordID(rid.page, slot);
          return;
        }
        rid := RecordID(rid.page + 1, -1);
      }
      forall r | r in file.Contents() ensures !Precedes(old(rid), r) {
        RecordsAt(hdr, pages, r);
      }
      rid := RecordID(NO_PAGE, rid.slot);
    }
  }

  lemma NextOnPage(hdr: RmHeader, pages: RmPages, from: RecordID, slot: nat)
    requires FIRST_RECORD_PAGE <= from.page < hdr.numPages && PageOk(hdr, pages, from.page)
    requires from.slot < slot <= hdr.perPage && -1 <= from.slot
    requires slot < hdr.perPage ==> Bitmap.Test(pages[from.page].bitmap, slot)
    requires forall k :: from.slot < k < slot ==> !Bitmap.Test(pages[from.page].bitmap, k)
    ensures slot < hdr.perPage ==> RecordID(from.page, slot) in Records(hdr, pages)
    ensures forall r :: r in Records(hdr, pages) && Precedes(from, r) ==>
      if slot < hdr.perPage then r == RecordID(from.page, slot) || Precedes(RecordID(from.page, slot), r)
      else Precedes(RecordID(from.page + 1, -1), r)
  {
    RecordsAt(hdr, pages, RecordID(from.page, slot));
    forall r | r in Records(hdr, pages) && Precedes(from, r)
      ensures if slot < hdr.perPage then r == RecordID(from.page, slot) || Precedes(RecordID(from.page, slot), r)
              else Precedes(RecordID(from.page + 1, -1), r)
    {
      RecordsAt(hdr, pages, r);
    }
  }

  /** rids lists exactly the given records, each once, in page and slot order. */
  ghost predicate ListsInOrder(rids: seq<RecordID>, recs: map<RecordID, Bytes>) {
    && (forall i, j :: 0 <= i < j < |rids| ==> Precedes(rids[i], rids[j]))
    && (forall r :: r in rids <==> r in recs)
  }

  /** A full scan yields every record once, in page and slot order. */
  method ScanFile(file: RecordFile) returns (rids: seq<RecordID>)
    requires file.Valid()
    ensures ListsInOrder(rids, file.Contents())
    ensures forall r :: r in rids ==> InRange(file.hdr, r)
  {
    rids := [];
    var scan := new RecordIterator(file);
    ghost var recs := file.Contents();
    while !scan.IsEnd()
      invariant scan.file == file && file.Valid() && file.Contents() == recs && fresh(scan)
      invariant forall i, j :: 0 <= i < j < |rids| ==> Precedes(rids[i], rids[j])
      invariant forall r :: r in rids ==> r in recs && InRange(file.hdr, r)
      invariant scan.IsEnd() ==> forall r :: r in recs ==> r in rids
      invariant !scan.IsEnd() ==> scan.rid in recs && InRange(file.hdr, scan.rid)
      invariant !scan.IsEnd() ==> forall i :: 0 <= i < |rids| ==> Precedes(rids[i], scan.rid)
      invariant !scan.IsEnd() ==> forall r :: r in recs ==> r in rids || r == scan.rid || Precedes(scan.rid, r)
      decreases if scan.IsEnd() then 0 else 1, file.hdr.numPages - scan.rid.page, file.hdr.perPage - scan.rid.slot
    {
      ghost var was := rids;
      rids := rids + [scan.rid];
      forall r | r in rids ensures r in was || r == scan.rid { }
      assert forall r :: r in was ==> r in rids;
      assert scan.rid in rids;
      scan.Next();
    }
  }
}
