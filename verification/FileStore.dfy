/** Index and record files in the page cache and on disk: creating, closing and opening them. */
module FileStore {
  import opened Common
  import opened Seqs
  import opened KeyOrder
  import opened IndexPages
  import opened IndexInsert
  import opened IndexHandler
  import opened Rows
  import opened TableIndexes
  import opened Tables
  import opened Layout
  import opened PageImages
  import opened Lru
  import opened Pager
  import RecordFile

  /** What every page reads, in the cache or on disk. */
  type Image = imap<PageID, Bytes>

  const FILE_HEADER_PAGE := 0

  // ----- index files -----

  /** The file holds the header and exactly the pages of the index, as their handles read them. */
  ghost predicate IndexBacked(image: Image, fd: int, pages: Pages, h: FileHeader) {
    && (forall p :: p in pages <==> LEAF_HEADER_PAGE <= p < h.hdr.numPages)
    && (forall p :: p in pages ==> NodeBacked(image, fd, p, pages[p], h))
  }

  ghost predicate NodeBacked(image: Image, fd: int, p: int, n: Node, h: FileHeader) {
    PageID(fd, p) in image && DecodeNode(image[PageID(fd, p)], h) == n
  }

  /** The header that an index on a column of this type and width has in its file. */
  function HeaderOf(hdr: IndexHeader, ty: ColumnType, colLen: nat): FileHeader {
    FileHeader(hdr, ty, colLen, INDEX_PAGE_HEADER, RidOffset(colLen, 0))
  }

  /** Changing a node in its frame: the page is fetched, or created for a node that is new, and marked dirty. */
  method StoreNode(cache: PagerCache, fd: int, ghost pages: Pages, p: int, n: Node, h: FileHeader, ghost h': FileHeader)
    requires cache.Valid() && IndexBacked(cache.AllContents(), fd, pages, h)
    requires LEAF_HEADER_PAGE <= p <= h.hdr.numPages && Standard(h) && NodeFits(n, h)
    requires h' == h.(hdr := h'.hdr) && h'.hdr.numPages == h.hdr.numPages + if p == h.hdr.numPages then 1 else 0
    modifies cache
    ensures cache.Valid() && IndexBacked(cache.AllContents(), fd, pages[p := n], h')
    ensures forall x :: x != PageID(fd, p) ==> cache.ContentOf(x) == old(cache.ContentOf(x))
  {
    hide PagerCache.Valid, PagerCache.ContentOf, DecodeNode, EncodeNode, Standard, NodeFits;
    var f;
    if p == h.hdr.numPages {
      f := cache.CreatePage(PageID(fd, p));
    } else {
      f := cache.FetchPage(PageID(fd, p));
    }
    NodeRoundTrip(n, h);
    cache.WritePage(f, EncodeNode(n, h));
    ghost var image, image', pages' := old(cache.AllContents()), cache.AllContents(), pages[p := n];
    forall q | q in pages' ensures NodeBacked(image', fd, q, pages'[q], h') {
      if q != p { assert NodeBacked(image, fd, q, pages[q], h); }
      SameLayout(image'[PageID(fd, q)], h, h');
    }
  }

  /** Reading a node depends on the layout in the header only. */
  lemma SameLayout(a: Bytes, h: FileHeader, h': FileHeader)
    requires h' == h.(hdr := h'.hdr)
    ensures DecodeNode(a, h') == DecodeNode(a, h)
  {
    assert DecodeNode(a, h').keys == DecodeNode(a, h).keys;
    assert DecodeNode(a, h').rids == DecodeNode(a, h).rids;
  }

  /** The first bytes of the header page are the header. */
  ghost predicate HeaderBacked(image: Image, fd: int, h: FileHeader) {
    var id := PageID(fd, FILE_HEADER_PAGE);
    id in image && |image[id]| >= INDEX_FILE_HEADER && DecodeHeader(image[id][..INDEX_FILE_HEADER]) == h
  }

  lemma OrderFits(colLen: nat)
    requires colLen <= MAX_COL_LEN
    ensures 2 < BtreeOrder(colLen) <= PAGE_SIZE && RidOffset(colLen, 0) <= PAGE_SIZE
  {
    IndexPageFits(colLen);
    assert RidOffset(colLen, 0) + RID_SIZE <= PAGE_SIZE;
  }

  /** create_index writes the header, the leaf header page and the empty root, all past the cache, to a new file. */
  method CreateIndexFile(cache: PagerCache, fd: int, ty: ColumnType, colLen: nat) returns (h: FileHeader)
    requires cache.Valid() && colLen <= MAX_COL_LEN
    requires forall x: PageID :: x.fd == fd ==> x !in cache.busyMap && cache.ContentOf(x) == []
    modifies cache
    ensures cache.Valid() && cache.busyMap == old(cache.busyMap) && Standard(h) && HeaderFits(h)
    ensures h.hdr == NewHeader(BtreeOrder(colLen)) && h.ty == ty && h.colLen == colLen
    ensures HeaderBacked(cache.AllContents(), fd, h) && IndexBacked(cache.AllContents(), fd, NewPages(), h)
    ensures forall x: PageID :: x.fd != fd ==> cache.ContentOf(x) == old(cache.ContentOf(x))
  {
    hide PagerCache.Valid, PagerCache.ContentOf, DecodeNode, DecodeHeader, BtreeOrder, RidOffset;
    OrderFits(colLen);
    h := HeaderOf(NewHeader(BtreeOrder(colLen)), ty, colLen);
    HeaderRoundTrip(h);
    var pages := NewPages();
    var leafHeader, root := pages[LEAF_HEADER_PAGE], pages[INIT_ROOT_PAGE];
    NodeRoundTrip(leafHeader, h);
    NodeRoundTrip(root, h);
    cache.WriteThrough(PageID(fd, FILE_HEADER_PAGE), EncodeHeader(h));
    assert EncodeHeader(h) + [] == EncodeHeader(h) == EncodeHeader(h)[..INDEX_FILE_HEADER];
    cache.WriteThrough(PageID(fd, LEAF_HEADER_PAGE), EncodeNode(leafHeader, h));
    assert EncodeNode(leafHeader, h) + [] == EncodeNode(leafHeader, h);
    cache.WriteThrough(PageID(fd, INIT_ROOT_PAGE), EncodeNode(root, h));
    assert EncodeNode(root, h) + [] == EncodeNode(root, h);
  }

  /** get_node. */
  method FetchNode(cache: PagerCache, fd: int, p: int, h: FileHeader) returns (n: Node)
    requires cache.Valid()
    modifies cache
    ensures cache.Valid() && n == DecodeNode(cache.ContentOf(PageID(fd, p)), h)
    ensures cache.AllContents() == old(cache.AllContents())
  {
    hide PagerCache.Valid, PagerCache.ContentOf, DecodeNode;
    var f := cache.FetchPage(PageID(fd, p));
    n := DecodeNode(cache.pages[f].buf, h);
  }

  /** The header and the pages as open_index and the node handles read them. */
  method ReadIndexFile(cache: PagerCache, fd: int, ghost h: FileHeader, ghost pages: Pages)
    returns (h': FileHeader, pages': Pages)
    requires cache.Valid() && PageID(fd, FILE_HEADER_PAGE) !in cache.busyMap
    requires HeaderBacked(cache.AllContents(), fd, h) && IndexBacked(cache.AllContents(), fd, pages, h)
    requires h.hdr.numPages >= LEAF_HEADER_PAGE
    modifies cache
    ensures cache.Valid() && h' == h && pages' == pages && cache.AllContents() == old(cache.AllContents())
  {
    hide PagerCache.Valid, PagerCache.ContentOf, DecodeNode, DecodeHeader;
    var raw := cache.ReadThrough(PageID(fd, FILE_HEADER_PAGE), INDEX_FILE_HEADER);
    h' := DecodeHeader(raw);
    pages' := map[];
    ghost var image := cache.AllContents();
    for p := LEAF_HEADER_PAGE to h'.hdr.numPages
      invariant cache.Valid() && cache.AllContents() == image
      invariant forall q :: q in pages' <==> LEAF_HEADER_PAGE <= q < p
      invariant forall q :: q in pages' ==> pages'[q] == pages[q]
    {
      var n := FetchNode(cache, fd, p, h');
      assert NodeBacked(image, fd, p, pages[p], h);
      assert image[PageID(fd, p)] == cache.ContentOf(PageID(fd, p));
      pages' := pages'[p := n];
    }
  }

  /** close_index, and the opening of the file under another descriptor. */
  method MoveIndexFile(cache: PagerCache, fd: int, fd': int, h: FileHeader, ghost pages: Pages)
    requires cache.Valid() && HeaderFits(h) && IndexBacked(cache.AllContents(), fd, pages, h)
    requires PageID(fd, FILE_HEADER_PAGE) !in cache.busyMap
    requires forall x :: x in cache.busyMap && x.fd == fd' ==> fd' == fd
    modifies cache
    ensures cache.Valid() && PageID(fd', FILE_HEADER_PAGE) !in cache.busyMap
    ensures HeaderBacked(cache.AllContents(), fd', h) && IndexBacked(cache.AllContents(), fd', pages, h)
    ensures forall x: PageID :: x.fd != fd && x.fd != fd' ==> cache.ContentOf(x) == old(cache.ContentOf(x))
  {
    hide PagerCache.Valid, PagerCache.ContentOf, DecodeNode, DecodeHeader;
    ghost var image := cache.AllContents();
    HeaderRoundTrip(h);
    cache.WriteThrough(PageID(fd, FILE_HEADER_PAGE), EncodeHeader(h));
    ghost var header := cache.ContentOf(PageID(fd, FILE_HEADER_PAGE));
    assert header[..INDEX_FILE_HEADER] == EncodeHeader(h);
    CloseAndReopen(cache, fd, fd');
    ghost var image' := cache.AllContents();
    forall p | p in pages ensures NodeBacked(image', fd', p, pages[p], h) {
      assert NodeBacked(image, fd, p, pages[p], h);
      assert image'[PageID(fd', p)] == image[PageID(fd, p)];
    }
  }

  /** The handle on what the file holds. */
  method OpenIndex(cache: PagerCache, fd: int, ghost ih: IndexHandle, ghost h: FileHeader) returns (ih': IndexHandle)
    requires cache.Valid() && PageID(fd, FILE_HEADER_PAGE) !in cache.busyMap && ih.Valid() && h.hdr == ih.hdr
    requires ih.ord == ColumnOrd(h.ty, h.colLen)
    requires HeaderBacked(cache.AllContents(), fd, h) && IndexBacked(cache.AllContents(), fd, ih.pages, h)
    modifies cache
    ensures cache.Valid() && cache.AllContents() == old(cache.AllContents())
    ensures fresh(ih') && ih'.Valid() && ih'.ord == ih.ord && ih'.hdr == ih.hdr && ih'.pages == ih.pages
    ensures ih'.Contents() == ih.Contents()
  {
    hide PagerCache.Valid, PagerCache.ContentOf, DecodeNode, DecodeHeader, HeaderBacked, IndexBacked, Lawful, Sorted;
    assert h.hdr.numPages >= LEAF_HEADER_PAGE;
    var h', pages := ReadIndexFile(cache, fd, h, ih.pages);
    ih' := new IndexHandle.Open(ColumnOrd(h'.ty, h'.colLen), h'.hdr, pages, ih.sh);
  }

  /** close_index and open_index: the header goes to disk past the cache, the nodes by way of it; the file comes back
      under another descriptor with the same tree, and so with the same entries in the same order. */
  method ReopenIndex(cache: PagerCache, fd: int, fd': int, ih: IndexHandle, col: Column, ghost recs: Records)
    returns (ih': IndexHandle)
    requires cache.Valid() && IndexAgrees(ih, col, recs)
    requires HeaderFits(HeaderOf(ih.hdr, col.ty, col.len))
    requires IndexBacked(cache.AllContents(), fd, ih.pages, HeaderOf(ih.hdr, col.ty, col.len))
    requires PageID(fd, FILE_HEADER_PAGE) !in cache.busyMap
    requires forall x :: x in cache.busyMap && x.fd == fd' ==> fd' == fd
    modifies cache
    ensures cache.Valid() && fresh(ih') && IndexAgrees(ih', col, recs)
    ensures ih'.hdr == ih.hdr && ih'.pages == ih.pages && ih'.Contents() == ih.Contents()
    ensures IndexBacked(cache.AllContents(), fd', ih'.pages, HeaderOf(ih.hdr, col.ty, col.len))
    ensures forall x: PageID :: x.fd != fd && x.fd != fd' ==> cache.ContentOf(x) == old(cache.ContentOf(x))
  {
    hide PagerCache.Valid, PagerCache.ContentOf, IndexBacked, HeaderBacked, HeaderFits, RidOffset, Mirrors,
         IndexHandle.Valid;
    var h := HeaderOf(ih.hdr, col.ty, col.len);
    MoveIndexFile(cache, fd, fd', h, ih.pages);
    ih' := OpenIndex(cache, fd', ih, h);
    forall x: PageID | x.fd != fd && x.fd != fd' ensures cache.ContentOf(x) == old(cache.ContentOf(x)) {
      assert cache.AllContents()[x] == cache.ContentOf(x);
    }
  }

  // ----- record files -----

  /** The file holds the pages of the record file with their records. */
  ghost predicate RecordsBacked(image: Image, fd: int, hdr: RecordFile.RmHeader, pages: RecordFile.RmPages) {
    forall p :: RecordFile.FIRST_RECORD_PAGE <= p < hdr.numPages ==>
      p in pages && PageBacked(image, fd, hdr, p, pages[p])
  }

  ghost predicate PageBacked(image: Image, fd: int, hdr: RecordFile.RmHeader, p: int, page: RecordFile.RmPage) {
    PageID(fd, p) in image && Alike(page, DecodeRecordPage(image[PageID(fd, p)], hdr), hdr)
  }

  ghost predicate RmHeaderBacked(image: Image, fd: int, hdr: RecordFile.RmHeader) {
    var id := PageID(fd, FILE_HEADER_PAGE);
    id in image && |image[id]| >= RM_FILE_HEADER && DecodeRmHeader(image[id][..RM_FILE_HEADER]) == hdr
  }

  ghost predicate AllAlike(hdr: RecordFile.RmHeader, pages: RecordFile.RmPages, pages': RecordFile.RmPages) {
    forall p :: RecordFile.FIRST_RECORD_PAGE <= p < hdr.numPages ==>
      p in pages && p in pages' && Alike(pages[p], pages'[p], hdr)
  }

  /** Pages that are alike make up the same file, whatever lies in their unused slots. */
  lemma AlikeFile(hdr: RecordFile.RmHeader, pages: RecordFile.RmPages, pages': RecordFile.RmPages, free: seq<int>)
    requires RecordFile.FileOk(hdr, pages, free) && AllAlike(hdr, pages, pages')
    ensures RecordFile.FileOk(hdr, pages', free)
    ensures RecordFile.Records(hdr, pages') == RecordFile.Records(hdr, pages)
  {
    FreeChainFrame(pages, pages', RecordFile.FreeLink, hdr.firstFree, free);
    forall p | RecordFile.FIRST_RECORD_PAGE <= p < hdr.numPages
      ensures RecordFile.PageOk(hdr, pages, p) && RecordFile.PageOk(hdr, pages', p)
    {
      assert Alike(pages[p], pages'[p], hdr);
    }
    AlikeRecords(hdr, pages, pages');
  }

  lemma AlikeRecords(hdr: RecordFile.RmHeader, pages: RecordFile.RmPages, pages': RecordFile.RmPages)
    requires AllAlike(hdr, pages, pages')
    requires forall p :: RecordFile.FIRST_RECORD_PAGE <= p < hdr.numPages ==>
      RecordFile.PageOk(hdr, pages, p) && RecordFile.PageOk(hdr, pages', p)
    ensures RecordFile.Records(hdr, pages') == RecordFile.Records(hdr, pages)
  {
    hide RecordFile.Records, RecordFile.PageOk;
    var was, now := RecordFile.Records(hdr, pages), RecordFile.Records(hdr, pages');
    forall r ensures SameAt(was, now, r) {
      RecordFile.RecordsAt(hdr, pages, r);
      RecordFile.RecordsAt(hdr, pages', r);
      if RecordFile.InRange(hdr, r) { assert Alike(pages[r.page], pages'[r.page], hdr); }
    }
    SameMap(was, now);
  }

  ghost predicate SameAt<K, V>(a: map<K, V>, b: map<K, V>, k: K) {
    (k in a <==> k in b) && (k in a ==> a[k] == b[k])
  }

  lemma SameMap<K, V>(a: map<K, V>, b: map<K, V>)
    requires forall k :: SameAt(a, b, k)
    ensures a == b
  {
    forall k ensures k in a <==> k in b { assert SameAt(a, b, k); }
    forall k | k in a ensures a[k] == b[k] { assert SameAt(a, b, k); }
  }

  // ----- closing and opening a record file -----

  /** Changing a record page in its frame. */
  method StoreRecordPage(cache: PagerCache, fd: int, ghost pages: RecordFile.RmPages, p: int, page: RecordFile.RmPage,
                         hdr: RecordFile.RmHeader, ghost hdr': RecordFile.RmHeader)
    requires cache.Valid() && RecordsBacked(cache.AllContents(), fd, hdr, pages)
    requires RecordFile.FIRST_RECORD_PAGE <= p <= hdr.numPages && PageFits(page, hdr)
    requires hdr' == hdr.(firstFree := hdr'.firstFree, numPages := hdr'.numPages)
    requires hdr'.numPages == hdr.numPages + if p == hdr.numPages then 1 else 0
    modifies cache
    ensures cache.Valid() && RecordsBacked(cache.AllContents(), fd, hdr', pages[p := page])
    ensures forall x :: x != PageID(fd, p) ==> cache.ContentOf(x) == old(cache.ContentOf(x))
  {
    hide PagerCache.Valid, PagerCache.ContentOf, DecodeRecordPage, EncodeRecordPage, PageFits, Alike;
    var f;
    if p == hdr.numPages {
      f := cache.CreatePage(PageID(fd, p));
    } else {
      f := cache.FetchPage(PageID(fd, p));
    }
    RecordPageRoundTrip(page, hdr);
    RoomForBitmap(page, hdr);
    cache.WritePage(f, EncodeRecordPage(page, hdr));
    ghost var image, image', pages' := old(cache.AllContents()), cache.AllContents(), pages[p := page];
    forall q | RecordFile.FIRST_RECORD_PAGE <= q < hdr'.numPages
      ensures q in pages' && PageBacked(image', fd, hdr', q, pages'[q])
    {
      if q != p { assert PageBacked(image, fd, hdr, q, pages[q]); }
      SameSlots(image'[PageID(fd, q)], pages'[q], hdr, hdr');
    }
  }

  lemma RoomForBitmap(page: RecordFile.RmPage, hdr: RecordFile.RmHeader)
    requires PageFits(page, hdr)
    ensures IsInt(page.nextFree) && IsInt(page.numRecords) && RM_PAGE_HEADER + |page.bitmap| <= PAGE_SIZE
  {
  }

  /** Reading a record page depends on the layout in the header only. */
  lemma SameSlots(a: Bytes, page: RecordFile.RmPage, hdr: RecordFile.RmHeader, hdr': RecordFile.RmHeader)
    requires hdr' == hdr.(firstFree := hdr'.firstFree, numPages := hdr'.numPages)
    ensures Alike(page, DecodeRecordPage(a, hdr'), hdr') <==> Alike(page, DecodeRecordPage(a, hdr), hdr)
  {
    assert DecodeRecordPage(a, hdr').slots == DecodeRecordPage(a, hdr).slots;
  }

  /** close_file, and the opening of the file under another descriptor. */
  method MoveRecordFile(cache: PagerCache, fd: int, fd': int, hdr: RecordFile.RmHeader,
                        ghost pages: RecordFile.RmPages)
    requires cache.Valid() && RmHeaderFits(hdr) && RecordsBacked(cache.AllContents(), fd, hdr, pages)
    requires PageID(fd, FILE_HEADER_PAGE) !in cache.busyMap
    requires forall x :: x in cache.busyMap && x.fd == fd' ==> fd' == fd
    modifies cache
    ensures cache.Valid() && RmHeaderBacked(cache.AllContents(), fd', hdr)
    ensures RecordsBacked(cache.AllContents(), fd', hdr, pages) && PageID(fd', FILE_HEADER_PAGE) !in cache.busyMap
    ensures forall x: PageID :: x.fd != fd && x.fd != fd' ==> cache.ContentOf(x) == old(cache.ContentOf(x))
  {
    hide PagerCache.Valid, PagerCache.ContentOf, DecodeRecordPage, DecodeRmHeader, Alike;
    ghost var image := cache.AllContents();
    RmHeaderRoundTrip(hdr);
    cache.WriteThrough(PageID(fd, FILE_HEADER_PAGE), EncodeRmHeader(hdr));
    ghost var header := cache.ContentOf(PageID(fd, FILE_HEADER_PAGE));
    assert header[..RM_FILE_HEADER] == EncodeRmHeader(hdr);
    CloseAndReopen(cache, fd, fd');
    ghost var image' := cache.AllContents();
    forall p | RecordFile.FIRST_RECORD_PAGE <= p < hdr.numPages
      ensures p in pages && PageBacked(image', fd', hdr, p, pages[p])
    {
      assert PageBacked(image, fd, hdr, p, pages[p]);
      assert image'[PageID(fd', p)] == image[PageID(fd, p)];
    }
  }

  /** The header and the pages as open_file and the page handles read them. */
  method ReadRecordFile(cache: PagerCache, fd: int, ghost hdr: RecordFile.RmHeader, ghost pages: RecordFile.RmPages)
    returns (hdr': RecordFile.RmHeader, pages': RecordFile.RmPages)
    requires cache.Valid() && PageID(fd, FILE_HEADER_PAGE) !in cache.busyMap
    requires RmHeaderBacked(cache.AllContents(), fd, hdr) && RecordsBacked(cache.AllContents(), fd, hdr, pages)
    requires hdr.numPages >= RecordFile.FIRST_RECORD_PAGE
    modifies cache
    ensures cache.Valid() && hdr' == hdr && cache.AllContents() == old(cache.AllContents())
    ensures AllAlike(hdr, pages, pages')
  {
    hide PagerCache.Valid, PagerCache.ContentOf, DecodeRecordPage, DecodeRmHeader, Alike;
    var raw := cache.ReadThrough(PageID(fd, FILE_HEADER_PAGE), RM_FILE_HEADER);
    hdr' := DecodeRmHeader(raw);
    pages' := map[];
    ghost var image := cache.AllContents();
    for p := RecordFile.FIRST_RECORD_PAGE to hdr'.numPages
      invariant cache.Valid() && cache.AllContents() == image
      invariant forall q :: RecordFile.FIRST_RECORD_PAGE <= q < p ==>
        q in pages && q in pages' && Alike(pages[q], pages'[q], hdr)
    {
      var page := FetchRecordPage(cache, fd, p, hdr');
      assert PageBacked(image, fd, hdr, p, pages[p]);
      assert image[PageID(fd, p)] == cache.ContentOf(PageID(fd, p));
      pages' := pages'[p := page];
    }
  }

  /** RM_FileHandle::fetch_page. */
  method FetchRecordPage(cache: PagerCache, fd: int, p: int, hdr: RecordFile.RmHeader) returns (page: RecordFile.RmPage)
    requires cache.Valid()
    modifies cache
    ensures cache.Valid() && page == DecodeRecordPage(cache.ContentOf(PageID(fd, p)), hdr)
    ensures cache.AllContents() == old(cache.AllContents())
  {
    hide PagerCache.Valid, PagerCache.ContentOf, DecodeRecordPage;
    var f := cache.FetchPage(PageID(fd, p));
    page := DecodeRecordPage(cache.pages[f].buf, hdr);
  }

  /** close_file and open_file: the record file comes back under another descriptor with the same records. */
  method ReopenRecords(cache: PagerCache, fd: int, fd': int, file: RecordFile.RecordFile)
    returns (file': RecordFile.RecordFile)
    requires cache.Valid() && file.Valid() && RmHeaderFits(file.hdr)
    requires RecordsBacked(cache.AllContents(), fd, file.hdr, file.pages)
    requires PageID(fd, FILE_HEADER_PAGE) !in cache.busyMap
    requires forall x :: x in cache.busyMap && x.fd == fd' ==> fd' == fd
    modifies cache
    ensures cache.Valid() && fresh(file') && file'.Valid() && file'.hdr == file.hdr
    ensures file'.Contents() == file.Contents()
    ensures forall x: PageID :: x.fd != fd && x.fd != fd' ==> cache.ContentOf(x) == old(cache.ContentOf(x))
  {
    hide PagerCache.Valid, PagerCache.ContentOf, Alike, RmHeaderBacked, RecordsBacked, RmHeaderFits,
         RecordFile.Records;
    MoveRecordFile(cache, fd, fd', file.hdr, file.pages);
    ghost var image := cache.AllContents();
    var hdr, pages := ReadRecordFile(cache, fd', file.hdr, file.pages);
    AlikeFile(file.hdr, file.pages, pages, file.free);
    file' := new RecordFile.RecordFile.Open(hdr, pages, file.free);
    forall x: PageID | x.fd != fd && x.fd != fd' ensures cache.ContentOf(x) == old(cache.ContentOf(x)) {
      assert cache.AllContents()[x] == cache.ContentOf(x) && image[x] == cache.ContentOf(x);
    }
  }
}
