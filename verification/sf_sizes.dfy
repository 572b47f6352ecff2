/**
  Sizes and header words of the heap allocator in hw3/src/sfmm.c. A header word is the block
  size with the two status bits of hw3/include/sfmm.h added in; it is stored under a mask.
*/
module SfSizes {

  const TWO64: int := 0x1_0000_0000_0000_0000
  const MIN_BLOCK: int := 32
  const PAGE: int := 4096
  const NULL: int := 0

  /** The stored form of a word: masking twice restores it, whatever the magic number. */
  lemma MaskTwice(word: bv64, magic: bv64)
    ensures (word ^ magic) ^ magic == word
  {
  }

  // ----- block sizes -----

  /** get_aligned_block, in the wrap-around arithmetic of size_t. */
  function AlignedBlock(request: int): int
    requires 0 <= request < TWO64
  {
    var size := (request + 8) % TWO64;
    if size < 32 then 32
    else if size % 16 != 0 then (size + (16 - size % 16)) % TWO64
    else size
  }

  /** The least block size that holds a header and the request, and keeps payloads aligned. */
  ghost predicate IsLeastBlock(size: int, request: int) {
    && size % 16 == 0 && size >= MIN_BLOCK && size - 8 >= request
    && forall s :: s % 16 == 0 && s >= MIN_BLOCK && s - 8 >= request ==> size <= s
  }

  /** The rounding is right exactly below the point where adding the header wraps around. */
  lemma AlignedBlockIsLeast(request: int)
    requires 0 <= request < TWO64
    ensures IsLeastBlock(AlignedBlock(request), request) <==> request <= TWO64 - 24
    ensures TWO64 - 24 == 18_446_744_073_709_551_592
  {
    if request > TWO64 - 24 {
      assert AlignedBlock(request) - 8 < request;
    }
  }

  /** get_free_list_index. */
  function FreeListIndex(size: int): (c: int)
    ensures 0 <= c < 10
  {
    if size == 32 then 0
    else if size > 32 && size <= 64 then 1
    else if size > 64 && size <= 128 then 2
    else if size > 128 && size <= 256 then 3
    else if size > 256 && size <= 512 then 4
    else if size > 512 && size <= 1024 then 5
    else if size > 1024 && size <= 2048 then 6
    else if size > 2048 && size <= 4096 then 7
    else if size > 4096 && size <= 8192 then 8
    else 9
  }

  function Pow2(n: nat): int {
    if n == 0 then 1 else 2 * Pow2(n - 1)
  }

  /** Class 0 is the minimum size M, class c covers (2^(c-1) M, 2^c M], class 9 everything above. */
  lemma FreeListIndexIsSizeClass(size: int, c: int)
    requires size >= MIN_BLOCK && 0 <= c < 10
    ensures FreeListIndex(size) == c
       <==> (c == 0 || Pow2(c - 1) * MIN_BLOCK < size) && (c == 9 || size <= Pow2(c) * MIN_BLOCK)
  {
    assert Pow2(2) == 4;
    assert Pow2(4) == 4 * Pow2(2);
    assert Pow2(6) == 4 * Pow2(4);
    assert Pow2(8) == 4 * Pow2(6);
  }

  lemma FreeListIndexMonotone(s: int, t: int)
    requires MIN_BLOCK <= s <= t
    ensures FreeListIndex(s) <= FreeListIndex(t)
  {
  }

  /** fit_in_quick_list and get_quick_list_index, case by case; -1 when the block is too big. */
  function QuickIndex(size: int): (k: int)
    ensures k == -1 || (0 <= k < 10 && size == MIN_BLOCK + 16 * k)
  {
    if size == 32 then 0
    else if size == 48 then 1
    else if size == 64 then 2
    else if size == 80 then 3
    else if size == 96 then 4
    else if size == 112 then 5
    else if size == 128 then 6
    else if size == 144 then 7
    else if size == 160 then 8
    else if size == 176 then 9
    else -1
  }

  /** Quick lists are for exactly the ten block sizes from 32 to 176. */
  lemma QuickIndexExactly(size: int)
    ensures QuickIndex(size) != -1 <==> size % 16 == 0 && 32 <= size <= 176
    ensures QuickIndex(size) != -1 ==> QuickIndex(size) == (size - 32) / 16
  {
    if size % 16 == 0 && 32 <= size <= 176 {
      assert size == 32 + 16 * ((size - 32) / 16) && 0 <= (size - 32) / 16 <= 9;
    }
  }

  // ----- header words -----

  predicate AllocBit(word: int) {
    (word / 4) % 2 == 1
  }

  predicate PrevBit(word: int) {
    (word / 2) % 2 == 1
  }

  /** The size field: the word with both status bits cleared. */
  function SizeField(word: int): int {
    word - (if AllocBit(word) then 4 else 0) - (if PrevBit(word) then 2 else 0)
  }

  function Or(word: int, alloc: bool, prev: bool): int {
    word + (if alloc && !AllocBit(word) then 4 else 0) + (if prev && !PrevBit(word) then 2 else 0)
  }

  function Header(size: int, alloc: bool, prev: bool): int {
    size + (if alloc then 4 else 0) + (if prev then 2 else 0)
  }

  lemma Quarter(k: int, r: int)
    requires 0 <= r < 8
    ensures (16 * k + r) / 4 == 4 * k + r / 4
  {
  }

  lemma Half(k: int, r: int)
    requires 0 <= r < 8
    ensures (16 * k + r) / 2 == 8 * k + r / 2
  {
  }

  lemma EvenPart(m: int, c: int)
    ensures (2 * m + c) % 2 == c % 2
  {
  }

  lemma HeaderFields(size: int, alloc: bool, prev: bool)
    requires size % 16 == 0
    ensures AllocBit(Header(size, alloc, prev)) == alloc
    ensures PrevBit(Header(size, alloc, prev)) == prev
    ensures SizeField(Header(size, alloc, prev)) == size
  {
    var k := size / 16;
    var r := (if alloc then 4 else 0) + (if prev then 2 else 0);
    var w := Header(size, alloc, prev);
    assert w == 16 * k + r;
    assert AllocBit(w) == alloc by {
      Quarter(k, r);
      EvenPart(2 * k, r / 4);
    }
    assert PrevBit(w) == prev by {
      Half(k, r);
      EvenPart(4 * k, r / 2);
    }
  }

  lemma OrHeader(size: int, alloc: bool, prev: bool, a: bool, p: bool)
    requires size % 16 == 0
    ensures Or(Header(size, alloc, prev), a, p) == Header(size, alloc || a, prev || p)
  {
    hide AllocBit, PrevBit;
    HeaderFields(size, alloc, prev);
  }
}
