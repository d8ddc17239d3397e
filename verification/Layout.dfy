/** How records and index entries are laid out inside a page. */
module Layout {
  import opened IndexPages
  import opened IndexInsert
  import Bitmap

  const PAGE_SIZE := 4096
  const RM_PAGE_HEADER := 8
  const MAX_RECORD_SIZE := 512
  const INDEX_PAGE_HEADER := 28
  const RID_SIZE := 8
  const MAX_COL_LEN := 512

  // ----- multiplication -----

  lemma Scale(a: nat, b: nat, k: nat)
    requires a <= b
    ensures a * k <= b * k
  {
  }

  lemma Successor(i: nat, k: nat)
    ensures (i + 1) * k == i * k + k
  {
  }

  lemma Distribute(q: nat, a: nat, b: nat)
    ensures q * (a + b) == q * a + q * b
  {
  }

  lemma DivideBounds(a: nat, b: nat)
    requires b > 0
    ensures (a / b) * b <= a < (a / b + 1) * b
  {
  }

  lemma QuotientAtLeast(a: nat, b: nat, k: nat)
    requires b > 0 && k * b <= a
    ensures a / b >= k
  {
    var q := a / b;
    if q + 1 <= k { Scale(q + 1, k, b); }
  }

  // ----- record pages -----

  function RecordsPerPage(recordSize: nat): nat {
    (Bitmap.WIDTH * (PAGE_SIZE - 1 - RM_PAGE_HEADER) + 1) / (1 + recordSize * Bitmap.WIDTH)
  }

  function BitmapSize(slots: nat): nat {
    (slots + Bitmap.WIDTH - 1) / Bitmap.WIDTH
  }

  /** The bytes a record page needs for a number of slots. */
  function RecordPageBytes(recordSize: nat, slots: nat): nat {
    RM_PAGE_HEADER + BitmapSize(slots) + slots * recordSize
  }

  lemma SlotsCost(recordSize: nat, slots: nat)
    ensures Bitmap.WIDTH * (slots * recordSize) == slots * (recordSize * Bitmap.WIDTH)
    ensures slots * (1 + recordSize * Bitmap.WIDTH) == slots + slots * (recordSize * Bitmap.WIDTH)
  {
    assert slots * (recordSize * Bitmap.WIDTH) == Bitmap.WIDTH * (slots * recordSize);
  }

  /** The slots of a page fit behind its header and bitmap, and the page could not hold two more. */
  lemma RecordPageFits(recordSize: nat)
    requires 1 <= recordSize <= MAX_RECORD_SIZE
    ensures RecordsPerPage(recordSize) > 0
    ensures 8 + (RecordsPerPage(recordSize) + 7) / 8 + RecordsPerPage(recordSize) * recordSize <= 4096
    ensures RecordPageBytes(recordSize, RecordsPerPage(recordSize)) <= PAGE_SIZE
    ensures RecordPageBytes(recordSize, RecordsPerPage(recordSize) + 2) > PAGE_SIZE
    ensures RecordsPerPage(recordSize) <= BitmapSize(RecordsPerPage(recordSize)) * Bitmap.WIDTH
  {
    var n, cost := RecordsPerPage(recordSize), 1 + recordSize * Bitmap.WIDTH;
    DivideBounds(Bitmap.WIDTH * (PAGE_SIZE - 1 - RM_PAGE_HEADER) + 1, cost);
    QuotientAtLeast(Bitmap.WIDTH * (PAGE_SIZE - 1 - RM_PAGE_HEADER) + 1, cost, 1);
    SlotsCost(recordSize, n);
    SlotsCost(recordSize, n + 1);
    Successor(n + 1, recordSize);
    PageBounds(n, n * recordSize, (n + 1) * recordSize, (n + 2) * recordSize, recordSize);
  }

  /** The rounding of the bitmap size costs less than a byte either way. */
  lemma PageBounds(n: nat, here: nat, next: nat, further: nat, recordSize: nat)
    requires n + Bitmap.WIDTH * here <= Bitmap.WIDTH * (PAGE_SIZE - 1 - RM_PAGE_HEADER) + 1 < n + 1
      + Bitmap.WIDTH * next
    requires further == next + recordSize && recordSize >= 1
    ensures RM_PAGE_HEADER + BitmapSize(n) + here <= PAGE_SIZE
    ensures RM_PAGE_HEADER + BitmapSize(n + 2) + further > PAGE_SIZE
    ensures n <= BitmapSize(n) * Bitmap.WIDTH
  {
  }

  /** Eight times the room for bitmap and slots, plus the one that rounds the bitmap up. */
  const EIGHTHS := Bitmap.WIDTH * (PAGE_SIZE - 1 - RM_PAGE_HEADER) + 1

  /** The slot count is not always the largest possible: a page has room for one more slot exactly when what the
      division leaves over, together with the unused bits of the bitmap, nearly makes up a slot. */
  lemma OneMoreFits(recordSize: nat)
    requires 1 <= recordSize <= MAX_RECORD_SIZE
    ensures var n, cost := RecordsPerPage(recordSize), Bitmap.WIDTH * recordSize;
            RecordPageBytes(recordSize, n + 1) <= PAGE_SIZE <==>
              cost - EIGHTHS % (1 + cost) + (7 - n) % Bitmap.WIDTH <= 6
  {
    var n, cost := RecordsPerPage(recordSize), Bitmap.WIDTH * recordSize;
    QuotientAndRest(EIGHTHS, 1 + cost);
    Distribute(n, 1, cost);
    SlotsCost(recordSize, n);
    SlotsCost(recordSize, n + 1);
    Successor(n, cost);
    RoundUp(n);
  }

  lemma QuotientAndRest(a: nat, b: nat)
    requires b > 0
    ensures a == (a / b) * b + a % b
  {
  }

  lemma RoundUp(n: nat)
    ensures Bitmap.WIDTH * BitmapSize(n + 1) == n + 1 + (7 - n) % Bitmap.WIDTH
  {
  }

  /** It does for the record sizes 3, 4, 9, 68, 77 and 215. */
  lemma RoomForOneMore()
    ensures forall s :: s in {3, 4, 9, 68, 77, 215} ==> RecordPageBytes(s, RecordsPerPage(s) + 1) <= PAGE_SIZE
  {
  }

  // ----- index pages -----

  function BtreeOrder(colLen: nat): int {
    (PAGE_SIZE - INDEX_PAGE_HEADER) / (colLen + RID_SIZE) - 1
  }

  /** Where a key and where a record id of a node are stored in its page. */
  function KeyOffset(colLen: nat, i: nat): nat {
    INDEX_PAGE_HEADER + i * colLen
  }

  function RidOffset(colLen: nat, i: nat): nat {
    INDEX_PAGE_HEADER + (BtreeOrder(colLen) + 1) * colLen + i * RID_SIZE
  }

  /** The order exceeds 2, and a node with one entry too many still fits, but not one with two: behind the header of 28
      bytes the keys end before the record ids of 8 bytes start. */
  lemma IndexPageFits(colLen: nat)
    requires colLen <= 512
    ensures BtreeOrder(colLen) > 2
    ensures 28 + (BtreeOrder(colLen) + 1) * (colLen + 8) <= 4096 < 28 + (BtreeOrder(colLen) + 2) * (colLen + 8)
    ensures forall i: nat :: i <= BtreeOrder(colLen) ==> KeyOffset(colLen, i) + colLen <= RidOffset(colLen, 0)
    ensures forall i: nat :: i <= BtreeOrder(colLen) ==> RidOffset(colLen, i) + RID_SIZE <= PAGE_SIZE
  {
    var q := (PAGE_SIZE - INDEX_PAGE_HEADER) / (colLen + RID_SIZE);
    DivideBounds(PAGE_SIZE - INDEX_PAGE_HEADER, colLen + RID_SIZE);
    QuotientAtLeast(PAGE_SIZE - INDEX_PAGE_HEADER, colLen + RID_SIZE, 7);
    Distribute(q, colLen, RID_SIZE);
    forall i: nat | i <= BtreeOrder(colLen) ensures KeyOffset(colLen, i) + colLen <= RidOffset(colLen, 0) {
      Scale(i + 1, q, colLen);
      Successor(i, colLen);
    }
    RidsFit(colLen, q);
  }

  lemma RidsFit(colLen: nat, q: nat)
    requires q == BtreeOrder(colLen) + 1 && q * colLen + q * RID_SIZE <= PAGE_SIZE - INDEX_PAGE_HEADER
    ensures forall i: nat :: i < q ==> RidOffset(colLen, i) + RID_SIZE <= PAGE_SIZE
  {
    var start := q * colLen;
    forall i: nat | i < q ensures RidOffset(colLen, i) + RID_SIZE <= PAGE_SIZE {
      assert RidOffset(colLen, i) == INDEX_PAGE_HEADER + start + i * RID_SIZE;
    }
  }

  /** No node of a valid index reaches outside its page, not even the one that waits to be split. */
  lemma NodesFit(pages: Pages, hdr: IndexHeader, sh: Shape, colLen: nat, p: int)
    requires colLen <= MAX_COL_LEN && hdr.order == BtreeOrder(colLen)
    requires WellFormed(pages, hdr, sh, {}) || Overfull(pages, hdr, sh, p)
    requires p in sh.ht && p in pages && |pages[p].keys| == |pages[p].rids|
    ensures KeyOffset(colLen, |pages[p].keys|) <= RidOffset(colLen, 0)
    ensures RidOffset(colLen, |pages[p].rids|) <= PAGE_SIZE
  {
    IndexPageFits(colLen);
    assert |pages[p].rids| <= hdr.order + 1 by {
      if WellFormed(pages, hdr, sh, {}) { assert SizeOk(pages, hdr, p); }
    }
    if |pages[p].keys| > 0 {
      var i := |pages[p].keys| - 1;
      assert (i + 1) * colLen == i * colLen + colLen;
    }
  }
}
