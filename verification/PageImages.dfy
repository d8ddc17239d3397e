/** The bytes of index and record pages: what is written into a page is what is read back. */
module PageImages {
  import opened Common
  import opened KeyOrder
  import opened IndexPages
  import opened Rows
  import opened Layout
  import RecordFile
  import Bitmap

  // ----- the parts of a page -----

  predicate IsInt(x: int) {
    -0x8000_0000 <= x < 0x8000_0000
  }

  predicate AllInts(xs: seq<int>) {
    forall k :: 0 <= k < |xs| ==> IsInt(xs[k])
  }

  /** Ints one after the other. */
  function Words(xs: seq<int>): Bytes
    requires AllInts(xs)
  {
    IntsBytes(seq(|xs|, k requires 0 <= k < |xs| && IsInt(xs[k]) => xs[k] as int32))
  }

  lemma WordsStored(xs: seq<int>, rest: Bytes)
    requires AllInts(xs)
    ensures |Words(xs)| == INT_SIZE * |xs|
    ensures forall k :: 0 <= k < |xs| ==> IntAt(Words(xs) + rest, k) == xs[k]
  {
    var fields := seq(|xs|, k requires 0 <= k < |xs| && IsInt(xs[k]) => xs[k] as int32);
    IntsRoundTrip(fields);
    forall k | 0 <= k < |xs| ensures IntAt(Words(xs) + rest, k) == xs[k] { IntsStored(fields, rest, k); }
  }

  /** n bytes from a position on; none when the area is too short. */
  function Slice(a: Bytes, at: nat, n: nat): Bytes {
    if at + n <= |a| then a[at..at + n] else []
  }

  lemma SliceOfPart(head: Bytes, part: Bytes, tail: Bytes, at: nat, n: nat)
    requires at + n <= |part|
    ensures Slice(head + part + tail, |head| + at, n) == part[at..at + n]
  {
  }

  function Flat(chunks: seq<Bytes>): Bytes {
    if chunks == [] then [] else chunks[0] + Flat(chunks[1..])
  }

  /** Chunks of one width lie at multiples of it. */
  lemma {:induction false} ChunkAt(chunks: seq<Bytes>, w: nat, i: nat)
    requires i < |chunks| && forall k :: 0 <= k < |chunks| ==> |chunks[k]| == w
    ensures i * w + w <= |Flat(chunks)| && Flat(chunks)[i * w..i * w + w] == chunks[i]
  {
    if i > 0 {
      ChunkAt(chunks[1..], w, i - 1);
      Successor(i - 1, w);
      assert Flat(chunks)[w..] == Flat(chunks[1..]);
    }
  }

  lemma {:induction false} FlatLength(chunks: seq<Bytes>, w: nat)
    requires forall k :: 0 <= k < |chunks| ==> |chunks[k]| == w
    ensures |Flat(chunks)| == |chunks| * w
  {
    if chunks != [] {
      FlatLength(chunks[1..], w);
      Successor(|chunks| - 1, w);
    }
  }

  /** Filled up to n bytes. */
  function Padded(a: Bytes, n: int): Bytes {
    a + Zeros(if |a| <= n then n - |a| else 0)
  }

  /** An array of chunks somewhere in a page is read chunk by chunk. */
  lemma {:induction false} ArrayRead(head: Bytes, chunks: seq<Bytes>, room: int, tail: Bytes, w: nat, i: nat)
    requires i < |chunks| && forall k :: 0 <= k < |chunks| ==> |chunks[k]| == w
    ensures Slice(head + Padded(Flat(chunks), room) + tail, |head| + i * w, w) == chunks[i]
  {
    ChunkAt(chunks, w, i);
    var at := i * w;
    SliceOfPart(head, Padded(Flat(chunks), room), tail, at, w);
    assert Padded(Flat(chunks), room)[at..at + w] == Flat(chunks)[at..at + w];
  }

  lemma {:induction false} ArrayOf(head: Bytes, chunks: seq<Bytes>, room: int, tail: Bytes, w: nat)
    requires forall k :: 0 <= k < |chunks| ==> |chunks[k]| == w
    ensures var a := head + Padded(Flat(chunks), room) + tail;
            forall i: nat :: i < |chunks| ==> Slice(a, |head| + i * w, w) == chunks[i]
  {
    var a := head + Padded(Flat(chunks), room) + tail;
    forall i: nat | i < |chunks| ensures Slice(a, |head| + i * w, w) == chunks[i] {
      ArrayRead(head, chunks, room, tail, w, i);
    }
  }

  function Counted(x: int): nat {
    if x < 0 then 0 else x
  }

  // ----- index pages -----

  const INDEX_FILE_HEADER := 40

  /** IndexFileHeader. */
  datatype FileHeader = FileHeader(hdr: IndexHeader, ty: ColumnType, colLen: nat, keyOffset: nat, ridOffset: nat)

  /** The layout that create_index computes. */
  predicate Standard(h: FileHeader) {
    && h.colLen <= MAX_COL_LEN && h.hdr.order == BtreeOrder(h.colLen)
    && h.keyOffset == INDEX_PAGE_HEADER && h.ridOffset == RidOffset(h.colLen, 0)
  }

  predicate HeaderFits(h: FileHeader) {
    && IsInt(h.hdr.firstFree) && IsInt(h.hdr.numPages) && IsInt(h.hdr.rootPage) && IsInt(h.hdr.order)
    && IsInt(h.hdr.firstLeaf) && IsInt(h.hdr.lastLeaf) && IsInt(h.colLen) && IsInt(h.keyOffset) && IsInt(h.ridOffset)
  }

  function TypeWord(ty: ColumnType): int {
    match ty
    case INT => 0
    case FLOAT => 1
    case STRING => 2
    case DATETIME => 3
  }

  function TypeOfWord(x: int): ColumnType {
    if x == 0 then INT else if x == 1 then FLOAT else if x == 2 then STRING else DATETIME
  }

  function EncodeHeader(h: FileHeader): Bytes
    requires HeaderFits(h)
  {
    Words([h.hdr.firstFree, h.hdr.numPages, h.hdr.rootPage, TypeWord(h.ty), h.colLen, h.hdr.order, h.keyOffset,
           h.ridOffset, h.hdr.firstLeaf, h.hdr.lastLeaf])
  }

  function DecodeHeader(a: Bytes): FileHeader {
    FileHeader(IndexHeader(IntAt(a, 0), IntAt(a, 1), IntAt(a, 2), IntAt(a, 5), IntAt(a, 8), IntAt(a, 9)),
               TypeOfWord(IntAt(a, 3)), Counted(IntAt(a, 4)), Counted(IntAt(a, 6)), Counted(IntAt(a, 7)))
  }

  lemma HeaderRoundTrip(h: FileHeader)
    requires HeaderFits(h)
    ensures |EncodeHeader(h)| == INDEX_FILE_HEADER && DecodeHeader(EncodeHeader(h)) == h
  {
    var a := EncodeHeader(h);
    assert a + [] == a;
    WordsStored([h.hdr.firstFree, h.hdr.numPages, h.hdr.rootPage, TypeWord(h.ty), h.colLen, h.hdr.order, h.keyOffset,
                 h.ridOffset, h.hdr.firstLeaf, h.hdr.lastLeaf], []);
  }

  /** The ten ints of the header, in this order. */
  lemma HeaderLayout(h: FileHeader)
    requires HeaderFits(h)
    ensures var a := EncodeHeader(h);
            && IntAt(a, 0) == h.hdr.firstFree && IntAt(a, 1) == h.hdr.numPages && IntAt(a, 2) == h.hdr.rootPage
            && IntAt(a, 3) == (match h.ty case INT => 0 case FLOAT => 1 case STRING => 2 case DATETIME => 3)
            && IntAt(a, 4) == h.colLen && IntAt(a, 5) == h.hdr.order && IntAt(a, 6) == h.keyOffset
            && IntAt(a, 7) == h.ridOffset && IntAt(a, 8) == h.hdr.firstLeaf && IntAt(a, 9) == h.hdr.lastLeaf
  {
    var a := EncodeHeader(h);
    assert a + [] == a;
    WordsStored([h.hdr.firstFree, h.hdr.numPages, h.hdr.rootPage, TypeWord(h.ty), h.colLen, h.hdr.order, h.keyOffset,
                 h.ridOffset, h.hdr.firstLeaf, h.hdr.lastLeaf], []);
  }

  predicate RidFits(r: RecordID) {
    IsInt(r.page) && IsInt(r.slot)
  }

  /** A record id in a page. */
  function RidBytes(r: RecordID): (a: Bytes)
    requires RidFits(r)
    ensures |a| == RID_SIZE && RidOf(a) == r
  {
    var xs := [r.page, r.slot];
    WordsStored(xs, []);
    assert Words(xs) + [] == Words(xs);
    Words(xs)
  }

  function RidOf(a: Bytes): RecordID {
    RecordID(IntAt(a, 0), IntAt(a, 1))
  }

  function RidChunks(rids: seq<RecordID>): (r: seq<Bytes>)
    requires forall i :: 0 <= i < |rids| ==> RidFits(rids[i])
    ensures |r| == |rids| && forall i :: 0 <= i < |r| ==> |r[i]| == RID_SIZE && RidOf(r[i]) == rids[i]
  {
    seq(|rids|, i requires 0 <= i < |rids| && RidFits(rids[i]) => RidBytes(rids[i]))
  }

  /** The node is one that a page of the file has room for. */
  predicate NodeFits(n: Node, h: FileHeader) {
    && IsInt(n.nextFree) && IsInt(n.parent) && IsInt(n.prevLeaf) && IsInt(n.nextLeaf)
    && |n.keys| <= h.hdr.order + 1 && |n.rids| <= h.hdr.order + 1
    && (forall i :: 0 <= i < |n.keys| ==> |n.keys[i]| == h.colLen)
    && (forall i :: 0 <= i < |n.rids| ==> RidFits(n.rids[i]))
  }

  /** The seven words of IndexPageHeader. */
  function NodeWords(n: Node): seq<int> {
    [n.nextFree, n.parent, |n.keys|, |n.rids|, if n.isLeaf then 1 else 0, n.prevLeaf, n.nextLeaf]
  }

  lemma NodeWordsFit(n: Node, h: FileHeader)
    requires NodeFits(n, h) && Standard(h)
    ensures AllInts(NodeWords(n))
  {
  }

  /** The page of a node: its header, the array of keys and the array of record ids. */
  function EncodeNode(n: Node, h: FileHeader): Bytes
    requires NodeFits(n, h) && Standard(h)
  {
    NodeWordsFit(n, h);
    Words(NodeWords(n)) + Padded(Flat(n.keys), h.ridOffset - h.keyOffset)
      + Padded(Flat(RidChunks(n.rids)), PAGE_SIZE - h.ridOffset)
  }

  /** What an IndexNodeHandle reads in a page. */
  function DecodeNode(a: Bytes, h: FileHeader): Node {
    Node(IntAt(a, 0), IntAt(a, 1), ByteAt(a, 16) != 0, IntAt(a, 5), IntAt(a, 6),
         seq(Counted(IntAt(a, 2)), i requires i >= 0 => Slice(a, h.keyOffset + i * h.colLen, h.colLen)),
         seq(Counted(IntAt(a, 3)), i requires i >= 0 => RidOf(Slice(a, h.ridOffset + i * RID_SIZE, RID_SIZE))))
  }

  /** The first byte of a stored 0 or 1 tells which it is. */
  lemma FlagByte(a: Bytes, k: nat)
    requires 4 * k + 4 <= |a| && IntAt(a, k) in {0, 1}
    ensures ByteAt(a, 4 * k) == IntAt(a, k)
  {
    assert ByteAt(a[4 * k..], 0) == ByteAt(a, 4 * k);
  }

  /** Both arrays have the room they need. */
  lemma ArraysFit(n: Node, h: FileHeader)
    requires NodeFits(n, h) && Standard(h)
    ensures |Flat(n.keys)| <= h.ridOffset - h.keyOffset
    ensures |Flat(RidChunks(n.rids))| <= PAGE_SIZE - h.ridOffset
  {
    hide NodeFits, RidFits;
    NodeSizes(n, h);
    FlatLength(n.keys, h.colLen);
    FlatLength(RidChunks(n.rids), RID_SIZE);
    IndexPageFits(h.colLen);
    Scale(|n.keys|, h.hdr.order + 1, h.colLen);
    assert RidOffset(h.colLen, h.hdr.order) + RID_SIZE <= PAGE_SIZE;
  }

  lemma NodeSizes(n: Node, h: FileHeader)
    requires NodeFits(n, h)
    ensures |n.keys| <= h.hdr.order + 1 && |n.rids| <= h.hdr.order + 1
    ensures forall i :: 0 <= i < |n.keys| ==> |n.keys[i]| == h.colLen
    ensures forall i :: 0 <= i < |n.rids| ==> RidFits(n.rids[i])
  {
  }

  /** Every node that fits its page is read back as it was written. */
  lemma NodeRoundTrip(n: Node, h: FileHeader)
    requires NodeFits(n, h) && Standard(h)
    ensures |EncodeNode(n, h)| == PAGE_SIZE && DecodeNode(EncodeNode(n, h), h) == n
  {
    hide NodeFits, RidFits, Flat, IntAt, ByteAt, RidOf, RidOffset, RidChunks;
    NodeSizes(n, h);
    NodeWordsFit(n, h);
    ArraysFit(n, h);
    var head, keys := Words(NodeWords(n)), Padded(Flat(n.keys), h.ridOffset - h.keyOffset);
    var rids := Padded(Flat(RidChunks(n.rids)), PAGE_SIZE - h.ridOffset);
    var a := EncodeNode(n, h);
    WordsStored(NodeWords(n), keys + rids);
    assert a == head + (keys + rids) && a == (head + keys) + rids + [];
    FlagByte(a, 4);
    ArrayOf(head, n.keys, h.ridOffset - h.keyOffset, rids, h.colLen);
    ArrayOf(head + keys, RidChunks(n.rids), PAGE_SIZE - h.ridOffset, [], RID_SIZE);
    assert DecodeNode(a, h).keys == n.keys;
    assert DecodeNode(a, h).rids == n.rids;
  }

  /** Where the parts of a node lie in its page: next_free, parent, num_key, num_child, the leaf flag, prev_leaf and
      next_leaf in 28 bytes, then room for the keys, one more than the order says, and then the record ids. */
  lemma NodeLayout(n: Node, h: FileHeader)
    requires NodeFits(n, h) && Standard(h)
    ensures var a := EncodeNode(n, h);
            && IntAt(a, 0) == n.nextFree && IntAt(a, 1) == n.parent
            && IntAt(a, 2) == |n.keys| && IntAt(a, 3) == |n.rids|
            && (ByteAt(a, 16) == if n.isLeaf then 1 else 0) && IntAt(a, 5) == n.prevLeaf && IntAt(a, 6) == n.nextLeaf
    ensures forall i: nat :: i < |n.keys| ==> KeyAt(EncodeNode(n, h), h, i) == n.keys[i]
    ensures forall i: nat :: i < |n.rids| ==>
      RidAt(EncodeNode(n, h), RidPlace(h, i), n.rids[i])
  {
    hide NodeFits, RidFits, Flat, IntAt, ByteAt, RidOf, RidOffset, RidChunks;
    NodeSizes(n, h);
    NodeWordsFit(n, h);
    ArraysFit(n, h);
    RidsStart(h);
    var head, keys := Words(NodeWords(n)), Padded(Flat(n.keys), h.ridOffset - h.keyOffset);
    var rids := Padded(Flat(RidChunks(n.rids)), PAGE_SIZE - h.ridOffset);
    var a := EncodeNode(n, h);
    WordsStored(NodeWords(n), keys + rids);
    assert a == head + (keys + rids) && a == (head + keys) + rids + [];
    FlagByte(a, 4);
    ArrayOf(head, n.keys, h.ridOffset - h.keyOffset, rids, h.colLen);
    ArrayOf(head + keys, RidChunks(n.rids), PAGE_SIZE - h.ridOffset, [], RID_SIZE);
    forall i: nat | i < |n.rids| ensures RidAt(a, RidPlace(h, i), n.rids[i]) {
      RidPlaced(a, h.ridOffset + i * RID_SIZE, n.rids[i]);
    }
  }

  /** The i-th key behind the 28 bytes of the page header. */
  function KeyAt(a: Bytes, h: FileHeader, i: nat): Bytes {
    Slice(a, 28 + i * h.colLen, h.colLen)
  }

  /** The place of the i-th record id, behind room for one key more than the order says. */
  function RidPlace(h: FileHeader, i: nat): int {
    28 + (h.hdr.order + 1) * h.colLen + 8 * i
  }

  lemma RidsStart(h: FileHeader)
    requires Standard(h)
    ensures h.ridOffset == 28 + (h.hdr.order + 1) * h.colLen
  {
  }

  /** The record id is stored there: its page in four bytes, and its slot in the next four. */
  ghost predicate RidAt(a: Bytes, at: int, r: RecordID) {
    0 <= at && at + 8 <= |a| && IntOf(a[at..]) == r.page && IntOf(a[at + 4..]) == r.slot
  }

  lemma RidPlaced(a: Bytes, at: nat, r: RecordID)
    requires at + RID_SIZE <= |a| && RidOf(Slice(a, at, RID_SIZE)) == r
    ensures RidAt(a, at, r)
  {
    var chunk := a[at..at + RID_SIZE];
    assert Word(chunk[4 * 0..]) == Word(a[at..]);
    assert Word(chunk[4 * 1..]) == Word(a[at + 4..]);
  }

  // ----- record pages -----

  const RM_FILE_HEADER := 20

  predicate RmHeaderFits(h: RecordFile.RmHeader) {
    && IsInt(h.recordSize) && IsInt(h.numPages) && IsInt(h.perPage) && IsInt(h.firstFree) && IsInt(h.bitmapSize)
  }

  function EncodeRmHeader(h: RecordFile.RmHeader): Bytes
    requires RmHeaderFits(h)
  {
    Words([h.recordSize, h.numPages, h.perPage, h.firstFree, h.bitmapSize])
  }

  function DecodeRmHeader(a: Bytes): RecordFile.RmHeader {
    RecordFile.RmHeader(Counted(IntAt(a, 0)), IntAt(a, 1), Counted(IntAt(a, 2)), IntAt(a, 3), Counted(IntAt(a, 4)))
  }

  lemma RmHeaderRoundTrip(h: RecordFile.RmHeader)
    requires RmHeaderFits(h)
    ensures |EncodeRmHeader(h)| == RM_FILE_HEADER && DecodeRmHeader(EncodeRmHeader(h)) == h
  {
    var a := EncodeRmHeader(h);
    assert a + [] == a;
    WordsStored([h.recordSize, h.numPages, h.perPage, h.firstFree, h.bitmapSize], []);
  }

  /** The five ints of the header, in this order. */
  lemma RmHeaderLayout(h: RecordFile.RmHeader)
    requires RmHeaderFits(h)
    ensures var a := EncodeRmHeader(h);
            && IntAt(a, 0) == h.recordSize && IntAt(a, 1) == h.numPages && IntAt(a, 2) == h.perPage
            && IntAt(a, 3) == h.firstFree && IntAt(a, 4) == h.bitmapSize
  {
    var a := EncodeRmHeader(h);
    assert a + [] == a;
    WordsStored([h.recordSize, h.numPages, h.perPage, h.firstFree, h.bitmapSize], []);
  }

  function ByteOf(b: bv8): byte {
    b as int as byte
  }

  function BitsOf(b: byte): bv8 {
    b as int as bv8
  }

  function BitmapBytes(bits: Bitmap.Bits): (r: Bytes)
    ensures |r| == |bits|
  {
    seq(|bits|, i requires 0 <= i < |bits| => ByteOf(bits[i]))
  }

  function BytesBitmap(a: Bytes): (r: Bitmap.Bits)
    ensures |r| == |a|
  {
    seq(|a|, i requires 0 <= i < |a| => BitsOf(a[i]))
  }

  lemma BitmapRoundTrip(bits: Bitmap.Bits)
    ensures BytesBitmap(BitmapBytes(bits)) == bits
  {
    forall i | 0 <= i < |bits| ensures BitsOf(ByteOf(bits[i])) == bits[i] { }
  }

  /** The page is one of the file's: as large as the header says, and its records have the record size. */
  ghost predicate PageFits(p: RecordFile.RmPage, h: RecordFile.RmHeader) {
    && IsInt(p.nextFree) && IsInt(p.numRecords)
    && |p.bitmap| == h.bitmapSize && |p.slots| == h.perPage && h.perPage <= h.bitmapSize * Bitmap.WIDTH
    && RM_PAGE_HEADER + h.bitmapSize + h.perPage * h.recordSize <= PAGE_SIZE
    && (forall s :: 0 <= s < h.perPage && Bitmap.Test(p.bitmap, s) ==> |p.slots[s]| == h.recordSize)
  }

  /** The pages have the same records in the same slots; slots without a record may differ. */
  ghost predicate Alike(p: RecordFile.RmPage, q: RecordFile.RmPage, h: RecordFile.RmHeader) {
    && q.nextFree == p.nextFree && q.numRecords == p.numRecords && q.bitmap == p.bitmap
    && |p.slots| == |q.slots| == h.perPage && h.perPage <= |p.bitmap| * Bitmap.WIDTH
    && (forall s :: 0 <= s < h.perPage && Bitmap.Test(p.bitmap, s) ==> q.slots[s] == p.slots[s])
  }

  /** The slots as they lie in the page, whatever is in those without a record. */
  function SlotChunks(slots: seq<Bytes>, recordSize: nat): (r: seq<Bytes>)
    ensures |r| == |slots| && forall s :: 0 <= s < |r| ==> |r[s]| == recordSize
    ensures forall s :: 0 <= s < |r| && |slots[s]| == recordSize ==> r[s] == slots[s]
  {
    seq(|slots|, s requires 0 <= s < |slots| => if |slots[s]| == recordSize then slots[s] else Zeros(recordSize))
  }

  function EncodeRecordPage(p: RecordFile.RmPage, h: RecordFile.RmHeader): Bytes
    requires IsInt(p.nextFree) && IsInt(p.numRecords) && RM_PAGE_HEADER + |p.bitmap| <= PAGE_SIZE
  {
    Words([p.nextFree, p.numRecords]) + BitmapBytes(p.bitmap)
      + Padded(Flat(SlotChunks(p.slots, h.recordSize)), PAGE_SIZE - RM_PAGE_HEADER - |p.bitmap|)
  }

  /** What an RM_PageHandle reads in a page. */
  function DecodeRecordPage(a: Bytes, h: RecordFile.RmHeader): RecordFile.RmPage {
    RecordFile.RmPage(IntAt(a, 0), IntAt(a, 1), BytesBitmap(Slice(a, RM_PAGE_HEADER, h.bitmapSize)),
      seq(h.perPage, s requires s >= 0 => Slice(a, RM_PAGE_HEADER + h.bitmapSize + s * h.recordSize, h.recordSize)))
  }

  lemma SlotsFit(p: RecordFile.RmPage, h: RecordFile.RmHeader)
    requires PageFits(p, h)
    ensures RM_PAGE_HEADER + |p.bitmap| + |Flat(SlotChunks(p.slots, h.recordSize))| <= PAGE_SIZE
  {
    FlatLength(SlotChunks(p.slots, h.recordSize), h.recordSize);
  }

  /** The slots, read from behind the header and the bitmap. */
  lemma SlotsRead(p: RecordFile.RmPage, h: RecordFile.RmHeader, head: Bytes, room: int)
    requires PageFits(p, h) && |head| == RM_PAGE_HEADER + h.bitmapSize
    ensures var q := DecodeRecordPage(head + Padded(Flat(SlotChunks(p.slots, h.recordSize)), room), h);
            forall s :: 0 <= s < h.perPage && Bitmap.Test(p.bitmap, s) ==> q.slots[s] == p.slots[s]
  {
    hide Flat, Bitmap.Test, Padded;
    var slots := SlotChunks(p.slots, h.recordSize);
    ArrayOf(head, slots, room, [], h.recordSize);
    var a := head + Padded(Flat(slots), room);
    assert a == head + Padded(Flat(slots), room) + [];
    forall s: nat | s < h.perPage && Bitmap.Test(p.bitmap, s)
      ensures Slice(a, RM_PAGE_HEADER + h.bitmapSize + s * h.recordSize, h.recordSize) == p.slots[s]
    {
      assert slots[s] == p.slots[s];
    }
  }

  /** Every record page is read back with the records that were written. */
  lemma RecordPageRoundTrip(p: RecordFile.RmPage, h: RecordFile.RmHeader)
    requires PageFits(p, h)
    ensures |EncodeRecordPage(p, h)| == PAGE_SIZE && Alike(p, DecodeRecordPage(EncodeRecordPage(p, h), h), h)
  {
    hide Flat, IntAt, Bitmap.Test, SlotChunks;
    SlotsFit(p, h);
    var head, bits := Words([p.nextFree, p.numRecords]), BitmapBytes(p.bitmap);
    var room := PAGE_SIZE - RM_PAGE_HEADER - |p.bitmap|;
    var rest := Padded(Flat(SlotChunks(p.slots, h.recordSize)), room);
    var a := EncodeRecordPage(p, h);
    WordsStored([p.nextFree, p.numRecords], bits + rest);
    assert a == head + (bits + rest) && a == (head + bits) + rest;
    SliceOfPart(head, bits, rest, 0, h.bitmapSize);
    assert bits[0..h.bitmapSize] == bits;
    BitmapRoundTrip(p.bitmap);
    SlotsRead(p, h, head + bits, room);
  }

  /** Where the parts of a record page lie: next_free and num_records in 8 bytes, then the bitmap. */
  lemma RecordPageLayout(p: RecordFile.RmPage, h: RecordFile.RmHeader)
    requires PageFits(p, h)
    ensures var a := EncodeRecordPage(p, h);
            && IntAt(a, 0) == p.nextFree && IntAt(a, 1) == p.numRecords
            && (forall k :: 0 <= k < h.bitmapSize ==> ByteAt(a, 8 + k) == p.bitmap[k] as int)
  {
    hide Flat, IntAt, Bitmap.Test, SlotChunks;
    SlotsFit(p, h);
    var head, bits := Words([p.nextFree, p.numRecords]), BitmapBytes(p.bitmap);
    var rest := Padded(Flat(SlotChunks(p.slots, h.recordSize)), PAGE_SIZE - RM_PAGE_HEADER - |p.bitmap|);
    var a := EncodeRecordPage(p, h);
    WordsStored([p.nextFree, p.numRecords], bits + rest);
    assert a == head + (bits + rest) && |head| == 8;
    forall k | 0 <= k < h.bitmapSize ensures ByteAt(a, 8 + k) == p.bitmap[k] as int { assert a[8 + k] == bits[k]; }
  }

  /** The s-th slot behind the bitmap. */
  function SlotBytes(a: Bytes, h: RecordFile.RmHeader, s: nat): Bytes {
    Slice(a, 8 + h.bitmapSize + s * h.recordSize, h.recordSize)
  }

  /** Behind the bitmap lie the slots. */
  lemma SlotLayout(p: RecordFile.RmPage, h: RecordFile.RmHeader)
    requires PageFits(p, h)
    ensures var a := EncodeRecordPage(p, h);
            forall s :: 0 <= s < h.perPage && Bitmap.Test(p.bitmap, s) ==> SlotBytes(a, h, s) == p.slots[s]
  {
    hide Flat, IntAt, SlotChunks, Slice, Padded, IntsBytes, BitmapBytes, BytesBitmap, SlotBytes;
    SlotsFit(p, h);
    WordsStored([p.nextFree, p.numRecords], []);
    SlotsRead(p, h, Words([p.nextFree, p.numRecords]) + BitmapBytes(p.bitmap),
      PAGE_SIZE - RM_PAGE_HEADER - |p.bitmap|);
    forall s | 0 <= s < h.perPage && Bitmap.Test(p.bitmap, s)
      ensures SlotBytes(EncodeRecordPage(p, h), h, s) == p.slots[s]
    {
      DecodedSlot(EncodeRecordPage(p, h), h, s);
    }
  }

  lemma DecodedSlot(a: Bytes, h: RecordFile.RmHeader, s: nat)
    requires s < h.perPage
    ensures DecodeRecordPage(a, h).slots[s] == SlotBytes(a, h, s)
  {
  }
}
