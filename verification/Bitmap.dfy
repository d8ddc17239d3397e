/** The slot bitmap of a record page: one bit a slot, the highest bit of each byte first. */
module Bitmap {
  const WIDTH: nat := 8
  const HIGHEST_BIT: bv8 := 0x80

  type Bits = seq<bv8>

  function Mask(pos: nat): bv8 {
    HIGHEST_BIT >> (pos % WIDTH)
  }

  predicate Test(bm: Bits, pos: nat)
    requires pos / WIDTH < |bm|
  {
    (bm[pos / WIDTH] & Mask(pos)) != 0
  }

  function WithBit(bm: Bits, pos: nat): Bits
    requires pos / WIDTH < |bm|
  {
    bm[pos / WIDTH := bm[pos / WIDTH] | Mask(pos)]
  }

  function WithoutBit(bm: Bits, pos: nat): Bits
    requires pos / WIDTH < |bm|
  {
    bm[pos / WIDTH := bm[pos / WIDTH] & !Mask(pos)]
  }

  function Cleared(size: nat): Bits {
    seq(size, _ => 0)
  }

  lemma MaskOf(i: nat)
    requires i < WIDTH
    ensures Mask(i) == [0x80, 0x40, 0x20, 0x10, 0x08, 0x04, 0x02, 0x01][i]
  {
    if i == 0 {} else if i == 1 {} else if i == 2 {} else if i == 3 {}
    else if i == 4 {} else if i == 5 {} else if i == 6 {} else {}
  }

  lemma MasksDistinct(i: nat, j: nat)
    requires i < WIDTH && j < WIDTH
    ensures Mask(i) != 0
    ensures i != j ==> Mask(i) & Mask(j) == 0
  {
    MaskOf(i);
    MaskOf(j);
  }

  lemma SetBits(b: bv8, m: bv8, n: bv8)
    requires m != 0 && m & n == 0
    ensures (b | m) & m != 0 && (b | m) & n == b & n
    ensures (b & !m) & m == 0 && (b & !m) & n == b & n
  {
  }

  lemma SameMaskBits(b: bv8, m: bv8)
    requires m != 0
    ensures (b | m) & m != 0 && (b & !m) & m == 0
  {
  }

  /** Setting a bit makes its test true and leaves every other test alone. */
  lemma TestWithBit(bm: Bits, pos: nat, q: nat)
    requires pos / WIDTH < |bm| && q / WIDTH < |bm|
    ensures Test(WithBit(bm, pos), q) <==> q == pos || Test(bm, q)
  {
    var (i, j) := (pos % WIDTH, q % WIDTH);
    MasksDistinct(i, j);
    assert Mask(pos) == Mask(i) && Mask(q) == Mask(j);
    if pos / WIDTH == q / WIDTH {
      if i != j { SetBits(bm[pos / WIDTH], Mask(i), Mask(j)); } else { SameMaskBits(bm[pos / WIDTH], Mask(i)); }
    }
  }

  /** Resetting a bit makes its test false and leaves every other test alone. */
  lemma TestWithoutBit(bm: Bits, pos: nat, q: nat)
    requires pos / WIDTH < |bm| && q / WIDTH < |bm|
    ensures Test(WithoutBit(bm, pos), q) <==> q != pos && Test(bm, q)
  {
    var (i, j) := (pos % WIDTH, q % WIDTH);
    MasksDistinct(i, j);
    assert Mask(pos) == Mask(i) && Mask(q) == Mask(j);
    if pos / WIDTH == q / WIDTH {
      if i != j { SetBits(bm[pos / WIDTH], Mask(i), Mask(j)); } else { SameMaskBits(bm[pos / WIDTH], Mask(i)); }
    }
  }

  lemma TestCleared(size: nat, q: nat)
    requires q / WIDTH < size
    ensures !Test(Cleared(size), q)
  {
  }

  // ----- the byte buffer -----

  method Init(bm: array<bv8>)
    modifies bm
    ensures bm[..] == Cleared(bm.Length)
  {
    var i := 0;
    while i < bm.Length
      invariant i <= bm.Length && forall k :: 0 <= k < i ==> bm[k] == 0
    {
      bm[i] := 0;
      i := i + 1;
    }
  }

  method Set(bm: array<bv8>, pos: nat)
    requires pos / WIDTH < bm.Length
    modifies bm
    ensures bm[..] == WithBit(old(bm[..]), pos)
  {
    bm[pos / WIDTH] := bm[pos / WIDTH] | Mask(pos);
  }

  method Reset(bm: array<bv8>, pos: nat)
    requires pos / WIDTH < bm.Length
    modifies bm
    ensures bm[..] == WithoutBit(old(bm[..]), pos)
  {
    bm[pos / WIDTH] := bm[pos / WIDTH] & !Mask(pos);
  }

  /** The first position after start whose test answers bit; size when there is none. */
  method NextBit(bit: bool, bm: Bits, size: nat, start: int) returns (pos: nat)
    requires size <= |bm| * WIDTH && -1 <= start < size
    ensures start < pos <= size
    ensures pos < size ==> Test(bm, pos) == bit
    ensures forall k :: start < k < pos ==> Test(bm, k) != bit
  {
    var i := start + 1;
    while i < size
      invariant start < i <= size
      invariant forall k :: start < k < i ==> Test(bm, k) != bit
    {
      if Test(bm, i) == bit {
        return i;
      }
      i := i + 1;
    }
    pos := size;
  }

  // ----- population -----

  /** The number of set bits among the first n. */
  function Count(bm: Bits, n: nat): nat
    requires n <= |bm| * WIDTH
  {
    if n == 0 then 0 else Count(bm, n - 1) + if Test(bm, n - 1) then 1 else 0
  }

  lemma {:induction false} CountBounds(bm: Bits, n: nat)
    requires n <= |bm| * WIDTH
    ensures Count(bm, n) <= n
    ensures Count(bm, n) < n <==> exists k :: 0 <= k < n && !Test(bm, k)
  {
    if n > 0 {
      CountBounds(bm, n - 1);
      if Count(bm, n) < n && Test(bm, n - 1) {
        var k :| 0 <= k < n - 1 && !Test(bm, k);
        assert 0 <= k < n && !Test(bm, k);
      }
    }
  }

  /** Two bitmaps that differ in the test of one position differ by one in the count beyond it. */
  lemma {:induction false} CountOneMore(less: Bits, more: Bits, n: nat, pos: nat)
    requires |less| == |more| && n <= |less| * WIDTH && pos / WIDTH < |less|
    requires !Test(less, pos) && forall q :: 0 <= q < |less| * WIDTH ==> (Test(more, q) <==> q == pos || Test(less, q))
    ensures Count(more, n) == Count(less, n) + if pos < n then 1 else 0
  {
    if n > 0 {
      CountOneMore(less, more, n - 1, pos);
      assert Test(more, n - 1) <==> n - 1 == pos || Test(less, n - 1);
    }
  }

  lemma {:induction false} CountWithBit(bm: Bits, n: nat, pos: nat)
    requires n <= |bm| * WIDTH && pos / WIDTH < |bm| && !Test(bm, pos)
    ensures Count(WithBit(bm, pos), n) == Count(bm, n) + if pos < n then 1 else 0
  {
    forall q | 0 <= q < |bm| * WIDTH ensures Test(WithBit(bm, pos), q) <==> q == pos || Test(bm, q) {
      TestWithBit(bm, pos, q);
    }
    CountOneMore(bm, WithBit(bm, pos), n, pos);
  }

  lemma {:induction false} CountWithoutBit(bm: Bits, n: nat, pos: nat)
    requires n <= |bm| * WIDTH && pos / WIDTH < |bm| && Test(bm, pos)
    ensures Count(WithoutBit(bm, pos), n) + (if pos < n then 1 else 0) == Count(bm, n)
  {
    TestWithoutBit(bm, pos, pos);
    forall q | 0 <= q < |bm| * WIDTH ensures Test(bm, q) <==> q == pos || Test(WithoutBit(bm, pos), q) {
      TestWithoutBit(bm, pos, q);
    }
    CountOneMore(WithoutBit(bm, pos), bm, n, pos);
  }

  lemma {:induction false} CountCleared(size: nat, n: nat)
    requires n <= size * WIDTH
    ensures Count(Cleared(size), n) == 0
  {
    if n > 0 {
      CountCleared(size, n - 1);
      TestCleared(size, n - 1);
    }
  }
}
