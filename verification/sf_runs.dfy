/**
  sf_malloc, sf_free and sf_realloc on the heap of SfHeap, and what every run of them keeps.
*/
module SfRuns {
  import opened Wrappers
  import opened SfSizes
  import opened SfHeap

  // ----- quick lists -----

  /** Marks the live block p as quick and puts it at the front of its quick list. */
  function ToQuick(h: Heap, p: int, count: int): Heap
    requires p in h.bm && |h.quick| == |h.counter| == 10
    requires QuickIndex(h.bm[p].size) != -1
  {
    var k := QuickIndex(h.bm[p].size);
    h.(bm := h.bm[p := h.bm[p].(kind := Quick)],
       quick := Push(h.quick, k, p),
       counter := h.counter[k := h.counter[k] + count])
  }

  /** Pops quick list k; the block becomes live. */
  function FromQuick(h: Heap, k: int, count: int): Heap
    requires 0 <= k < |h.quick| == |h.counter| && h.quick[k] != [] && h.quick[k][0] in h.bm
  {
    var p := h.quick[k][0];
    h.(bm := h.bm[p := h.bm[p].(kind := Live)],
       quick := h.quick[k := h.quick[k][1..]],
       counter := h.counter[k := h.counter[k] - count])
  }

  /** Swapping one allocated kind for the other changes no status bit. */
  lemma RekindTiles(bm: Blocks, lo: int, hi: int, p: int, kind: Kind)
    requires Tiled(bm, lo, hi) && p in bm && bm[p].kind != Free && kind != Free
    ensures Tiled(bm[p := bm[p].(kind := kind)], lo, hi)
  {
    var bm' := bm[p := bm[p].(kind := kind)];
    forall q | q in bm'
      ensures Placed(bm', lo, hi, q)
    {
      assert Placed(bm, lo, hi, q);
    }
    forall q, r | q in bm' && r in bm'
      ensures Apart(bm', q, r)
    {
      assert Apart(bm, q, r);
    }
  }

  lemma RekindKeepsMain(h: Heap, p: int, kind: Kind)
    requires WellFormed(h) && p in h.bm && h.bm[p].kind != Free && kind != Free
    ensures MainOK(h.bm[p := h.bm[p].(kind := kind)], h.main)
  {
    OffIsUnseen(h.bm, h.bm[p := h.bm[p].(kind := kind)], h.main, {}, {});
  }

  lemma ToQuickKeepsHeap(h: Heap, p: int, count: int)
    requires WellFormed(h) && p in h.bm && h.bm[p].kind == Live && 0 <= QuickIndex(h.bm[p].size)
    requires var k := QuickIndex(h.bm[p].size);
             h.counter[k] + count <= 5 && |h.quick[k]| + 1 <= h.counter[k] + count
    ensures WellFormed(ToQuick(h, p, count))
  {
    RekindTiles(h.bm, h.lo, h.hi, p, Quick);
    RekindKeepsMain(h, p, Quick);
    var h' := ToQuick(h, p, count);
    var k0 := QuickIndex(h.bm[p].size);
    assert p in h.quick[k0] <==> OnQuick(h.bm, k0, p);
    forall k, x | 0 <= k < 10
      ensures x in h'.quick[k] <==> OnQuick(h'.bm, k, x)
    {
      assert x in h.quick[k] <==> OnQuick(h.bm, k, x);
    }
    forall x
      ensures !OnQuick(h'.bm, -1, x)
    {
      assert !OnQuick(h.bm, -1, x);
    }
  }

  lemma HeadOfQuick(h: Heap, k: int)
    requires WellFormed(h) && 0 <= k < 10 && h.quick[k] != []
    ensures h.quick[k][0] in h.bm && OnQuick(h.bm, k, h.quick[k][0])
  {
    assert h.quick[k][0] in h.quick[k];
    assert OnQuick(h.bm, k, h.quick[k][0]);
  }

  lemma FromQuickKeepsHeap(h: Heap, k: int, count: int)
    requires WellFormed(h) && 0 <= k < 10 && h.quick[k] != [] && 0 <= count <= 1
    ensures h.quick[k][0] in h.bm
    ensures WellFormed(FromQuick(h, k, count))
  {
    HeadOfQuick(h, k);
    var p := h.quick[k][0];
    RekindTiles(h.bm, h.lo, h.hi, p, Live);
    RekindKeepsMain(h, p, Live);
    var h' := FromQuick(h, k, count);
    forall j, x | 0 <= j < 10
      ensures x in h'.quick[j] <==> OnQuick(h'.bm, j, x)
    {
      assert x in h.quick[j] <==> OnQuick(h.bm, j, x);
    }
    assert forall i :: 0 <= i < |h'.quick[k]| ==> h'.quick[k][i] == h.quick[k][i + 1];
    forall x
      ensures !OnQuick(h'.bm, -1, x)
    {
      assert !OnQuick(h.bm, -1, x);
    }
  }

  // ----- the client's view -----

  /** The live blocks, with their sizes. */
  function Lives(bm: Blocks): map<int, int> {
    map x | x in bm && bm[x].kind == Live :: bm[x].size
  }

  lemma FreeMainLives(h: Heap, p: int)
    requires WellFormed(h) && p in h.bm && h.bm[p].kind == Live
    ensures Lives(FreeMain(h, p).bm) == Lives(h.bm) - {p}
  {
    FreeSparesOthers(h, p);
    var bm' := FreeMain(h, p).bm;
    assert Lives(bm').Keys == Lives(h.bm).Keys - {p};
  }

  // ----- sf_free -----

  lemma FromQuickLives(h: Heap, k: int, count: int)
    requires WellFormed(h) && 0 <= k < 10 && h.quick[k] != []
    ensures h.quick[k][0] in h.bm && h.quick[k][0] !in Lives(h.bm)
    ensures var p := h.quick[k][0];
            Lives(FromQuick(h, k, count).bm) == Lives(h.bm)[p := MIN_BLOCK + 16 * k]
  {
    HeadOfQuick(h, k);
  }

  lemma FlushHeadLives(h: Heap, k: int)
    requires WellFormed(h) && 0 <= k < 10 && h.quick[k] != []
    requires h.quick[k][0] in h.bm && WellFormed(FromQuick(h, k, 0))
    ensures Lives(FreeMain(FromQuick(h, k, 0), h.quick[k][0]).bm) == Lives(h.bm)
  {
    FromQuickLives(h, k, 0);
    FreeMainLives(FromQuick(h, k, 0), h.quick[k][0]);
  }

  /** One turn of the flush: the head of quick list k goes back to the main lists. */
  ghost function FlushHead(h: Heap, k: int): (h': Heap)
    requires WellFormed(h) && 0 <= k < 10 && h.quick[k] != []
    ensures WellFormed(h') && h'.quick == h.quick[k := h.quick[k][1..]] && h'.counter == h.counter
    ensures Lives(h'.bm) == Lives(h.bm)
  {
    FromQuickKeepsHeap(h, k, 0);
    FlushHeadLives(h, k);
    FreeKeepsHeap(FromQuick(h, k, 0), h.quick[k][0]);
    FreeMain(FromQuick(h, k, 0), h.quick[k][0])
  }

  /** Empties quick list k into the main lists, head first, coalescing as it goes. */
  ghost function Flush(h: Heap, k: int): (h': Heap)
    requires WellFormed(h) && 0 <= k < 10
    ensures WellFormed(h') && h'.quick == h.quick[k := []] && h'.counter == h.counter
    ensures Lives(h'.bm) == Lives(h.bm)
    decreases |h.quick[k]|
  {
    if h.quick[k] == [] then h else Flush(FlushHead(h, k), k)
  }

  lemma ToQuickLives(h: Heap, p: int, count: int)
    requires WellFormed(h) && p in h.bm && h.bm[p].kind == Live && 0 <= QuickIndex(h.bm[p].size)
    ensures Lives(ToQuick(h, p, count).bm) == Lives(h.bm) - {p}
  {
  }

  lemma LiveIsBlock(bm: Blocks, bm': Blocks, p: int)
    requires Lives(bm) == Lives(bm') && p in bm && bm[p].kind == Live
    ensures p in bm' && bm'[p].kind == Live && bm'[p].size == bm[p].size
  {
    assert p in Lives(bm);
  }

  ghost function FreeBlock(h: Heap, p: int): (h': Heap)
    requires WellFormed(h) && p in h.bm && h.bm[p].kind == Live
    ensures WellFormed(h')
    ensures Lives(h'.bm) == Lives(h.bm) - {p}
  {
    var k := QuickIndex(h.bm[p].size);
    if k == -1 then
      FreeKeepsHeap(h, p);
      FreeMainLives(h, p);
      FreeMain(h, p)
    else if h.counter[k] < 5 then
      ToQuickKeepsHeap(h, p, 1);
      ToQuickLives(h, p, 1);
      ToQuick(h, p, 1)
    else
      LiveIsBlock(h.bm, Flush(h, k).bm, p);
      ToQuickKeepsHeap(Flush(h, k), p, 0);
      ToQuickLives(Flush(h, k), p, 0);
      ToQuick(Flush(h, k), p, 0)
  }

  // ----- first fit -----

  /** The header word of a block. */
  function Word(b: Blk): int {
    Header(b.size, b.kind != Free, b.prev)
  }

  /** get_from_free_list: the first block whose header word, status bits included, is big enough. */
  function FirstFit(bm: Blocks, s: seq<int>, need: int): Option<int> {
    if s == [] then None
    else if s[0] in bm && Word(bm[s[0]]) >= need then Some(s[0])
    else FirstFit(bm, s[1..], need)
  }

  /** The search of sf_malloc, from the request's own size class upwards. */
  function FindFit(bm: Blocks, main: Lists, c: int, need: int): Option<int>
    requires 0 <= c <= 10 == |main|
    decreases 10 - c
  {
    if c == 10 then None
    else
      match FirstFit(bm, main[c], need)
      case Some(p) => Some(p)
      case None => FindFit(bm, main, c + 1, need)
  }

  /** The status bit in the compared word never changes the answer. */
  lemma WordFits(b: Blk, need: int)
    requires b.kind == Free && b.size % 16 == 0 && need % 16 == 0
    ensures Word(b) >= need <==> b.size >= need
    ensures Word(b) - need < MIN_BLOCK <==> b.size - need < MIN_BLOCK
  {
  }

  lemma {:induction false} FirstFitSound(bm: Blocks, s: seq<int>, need: int)
    ensures match FirstFit(bm, s, need)
            case None => forall x :: x in s && x in bm ==> Word(bm[x]) < need
            case Some(p) => p in s && p in bm && Word(bm[p]) >= need
  {
    if s != [] {
      FirstFitSound(bm, s[1..], need);
      assert forall x :: x in s <==> x == s[0] || x in s[1..];
    }
  }

  lemma {:induction false} FindFitFrom(bm: Blocks, lo: int, hi: int, main: Lists, c: int, need: int)
    requires Tiled(bm, lo, hi) && MainOK(bm, main) && GoodSize(need) && 0 <= c <= 10
    ensures match FindFit(bm, main, c, need)
            case None => forall x :: x in bm && bm[x].kind == Free && bm[x].size >= need ==>
                           FreeListIndex(bm[x].size) < c
            case Some(p) => p in bm && bm[p].kind == Free && bm[p].size >= need
    decreases 10 - c
  {
    if c < 10 {
      FirstFitSound(bm, main[c], need);
      FindFitFrom(bm, lo, hi, main, c + 1, need);
      forall x | x in main[c]
        ensures OnMain(bm, c, x) && (Word(bm[x]) >= need <==> bm[x].size >= need)
      {
        assert OnMain(bm, c, x);
        assert Placed(bm, lo, hi, x);
        WordFits(bm[x], need);
      }
      forall x | OnMain(bm, c, x)
        ensures x in main[c]
      {
      }
    }
  }

  /** The search finds a block exactly when some free block is big enough, whatever its class. */
  lemma FindFitExact(h: Heap, need: int)
    requires WellFormed(h) && GoodSize(need)
    ensures FindFit(h.bm, h.main, FreeListIndex(need), need).Some?
       <==> exists x :: x in h.bm && h.bm[x].kind == Free && h.bm[x].size >= need
    ensures FindFit(h.bm, h.main, FreeListIndex(need), need).Some? ==>
            var p := FindFit(h.bm, h.main, FreeListIndex(need), need).value;
            p in h.bm && h.bm[p].kind == Free && h.bm[p].size >= need
  {
    FindFitFrom(h.bm, h.lo, h.hi, h.main, FreeListIndex(need), need);
    forall x | x in h.bm && h.bm[x].kind == Free && h.bm[x].size >= need
      ensures FreeListIndex(h.bm[x].size) >= FreeListIndex(need)
    {
      FreeListIndexMonotone(need, h.bm[x].size);
    }
  }

  // ----- heap growth -----

  ghost function LastBlock(h: Heap): (p: int)
    requires Tiled(h.bm, h.lo, h.hi)
    ensures IsPrev(h.bm, p, h.hi)
  {
    assert Placed(h.bm, h.lo, h.hi, h.lo);
    PrevOf(h.bm, h.lo, h.hi, h.hi)
  }

  /** The heap with one more page, as an allocated block of its own. */
  ghost function WithPage(h: Heap): Heap
    requires Tiled(h.bm, h.lo, h.hi)
  {
    h.(hi := h.hi + PAGE,
       bm := h.bm[h.hi := Blk(PAGE, Live, h.bm[LastBlock(h)].kind != Free)])
  }

  lemma WithPagePlaced(h: Heap, q: int)
    requires Tiled(h.bm, h.lo, h.hi) && (q in h.bm || q == h.hi)
    ensures Placed(WithPage(h).bm, h.lo, h.hi + PAGE, q)
  {
    var last := LastBlock(h);
    NothingAtEnd(h.bm, h.lo, h.hi);
    assert Placed(h.bm, h.lo, h.hi, last);
    if q != h.hi {
      assert Placed(h.bm, h.lo, h.hi, q);
      if IsPrev(h.bm, q, h.hi) {
        PrevIsUnique(h.bm, h.lo, h.hi, h.hi, q, last);
      }
    }
  }

  lemma WithPageApart(h: Heap, q: int, r: int)
    requires Tiled(h.bm, h.lo, h.hi) && (q in h.bm || q == h.hi) && (r in h.bm || r == h.hi)
    ensures Apart(WithPage(h).bm, q, r)
  {
    NothingAtEnd(h.bm, h.lo, h.hi);
    assert q != h.hi ==> Placed(h.bm, h.lo, h.hi, q);
    assert r != h.hi ==> Placed(h.bm, h.lo, h.hi, r);
    assert q != h.hi && r != h.hi ==> Apart(h.bm, q, r);
  }

  lemma WithPageTiles(h: Heap)
    requires Tiled(h.bm, h.lo, h.hi)
    ensures h.hi !in h.bm
    ensures Tiled(WithPage(h).bm, h.lo, h.hi + PAGE)
  {
    hide Placed, Apart;
    NothingAtEnd(h.bm, h.lo, h.hi);
    var bm' := WithPage(h).bm;
    forall q | q in bm'
      ensures Placed(bm', h.lo, h.hi + PAGE, q)
    {
      WithPagePlaced(h, q);
    }
    forall q, r | q in bm' && r in bm'
      ensures Apart(bm', q, r)
    {
      WithPageApart(h, q, r);
    }
  }

  lemma WithPageKeepsHeap(h: Heap)
    requires WellFormed(h)
    ensures h.hi !in h.bm
    ensures WellFormed(WithPage(h))
  {
    WithPageTiles(h);
    var bm' := WithPage(h).bm;
    OffIsUnseen(h.bm, bm', h.main, {}, {});
    QuickUnseen(h.bm, bm', h.quick, h.counter);
  }

  /** sf_mem_grow and what follows it: the page joins the last block if that is free. */
  ghost function Grow(h: Heap): (h': Heap)
    requires WellFormed(h)
    ensures WellFormed(h') && h'.hi == h.hi + PAGE
    ensures Lives(h'.bm) == Lives(h.bm)
  {
    WithPageKeepsHeap(h);
    FreeKeepsHeap(WithPage(h), h.hi);
    FreeMainLives(WithPage(h), h.hi);
    assert Lives(WithPage(h).bm) == Lives(h.bm)[h.hi := PAGE];
    assert Lives(h.bm)[h.hi := PAGE] - {h.hi} == Lives(h.bm);
    FreeMain(WithPage(h), h.hi)
  }

  lemma GrowEndsFree(h: Heap)
    requires WellFormed(h)
    ensures Grow(h).bm[LastBlock(Grow(h))].kind == Free
    ensures Grow(h).bm[LastBlock(Grow(h))].size >= PAGE
  {
    WithPageKeepsHeap(h);
    FreeKeepsHeap(WithPage(h), h.hi);
    var bm, hi' := WithPage(h).bm, h.hi + PAGE;
    FreeRange(bm, h.lo, hi', h.hi);
    NothingAtEnd(bm, h.lo, hi');
    var a := LowEnd(bm, h.lo, hi', h.hi);
    assert HighEnd(bm, h.hi) == hi';
    var g := Grow(h);
    assert IsPrev(g.bm, a, hi');
    PrevIsUnique(g.bm, h.lo, hi', hi', a, LastBlock(g));
  }

  // ----- sf_malloc -----

  /** ptr is a payload address, NULL if there is none; pages is what sf_mem_grow can still give. */
  datatype Outcome = Outcome(heap: Heap, ptr: int, pages: nat)

  lemma AllocateLives(h: Heap, p: int, need: int)
    requires WellFormed(h) && p in h.bm && h.bm[p].kind == Free && GoodSize(need) && need <= h.bm[p].size
    ensures var bm' := Allocate(h, p, need).bm;
            p in bm' && bm'[p].size >= need && Lives(bm') == Lives(h.bm)[p := bm'[p].size]
    ensures p !in Lives(h.bm) && p > 0
  {
    assert Placed(h.bm, h.lo, h.hi, p);
    if h.bm[p].size - need >= MIN_BLOCK {
      TakeFirstTiles(h.bm, h.lo, h.hi, p, need);
    }
  }

  /** What sf_malloc owes its caller: on success one more live block, big enough for the request. */
  ghost predicate Granted(h: Heap, out: Outcome, request: int) {
    && WellFormed(out.heap)
    && (out.ptr == NULL ==> Lives(out.heap.bm) == Lives(h.bm))
    && (out.ptr != NULL ==>
          var p := out.ptr - 16;
          && p !in Lives(h.bm)
          && p in Lives(out.heap.bm) && Lives(out.heap.bm)[p] - 8 >= request
          && Lives(out.heap.bm) == Lives(h.bm)[p := Lives(out.heap.bm)[p]])
  }

  ghost function Take(h: Heap, p: int, need: int, pages: nat): (out: Outcome)
    requires WellFormed(h) && p in h.bm && h.bm[p].kind == Free && GoodSize(need) && need <= h.bm[p].size
    ensures Granted(h, out, need - 8) && out.ptr == p + 16 && out.ptr != NULL
  {
    AllocateKeepsHeap(h, p, need);
    AllocateLives(h, p, need);
    Outcome(Allocate(h, p, need), p + 16, pages)
  }

  ghost function GrowAndTake(h: Heap, need: int, pages: nat): (out: Outcome)
    requires WellFormed(h) && GoodSize(need)
    ensures Granted(h, out, need - 8)
    decreases pages
  {
    if pages == 0 then Outcome(h, NULL, 0)
    else
      GrowEndsFree(h);
      if Grow(h).bm[LastBlock(Grow(h))].size >= need
        then Take(Grow(h), LastBlock(Grow(h)), need, pages - 1)
        else GrowAndTake(Grow(h), need, pages - 1)
  }

  ghost function TakeQuick(h: Heap, k: int, pages: nat): (out: Outcome)
    requires WellFormed(h) && 0 <= k < 10 && h.quick[k] != []
    ensures Granted(h, out, MIN_BLOCK + 16 * k - 8) && out.ptr != NULL
  {
    FromQuickKeepsHeap(h, k, 1);
    FromQuickLives(h, k, 1);
    assert Placed(h.bm, h.lo, h.hi, h.quick[k][0]);
    Outcome(FromQuick(h, k, 1), h.quick[k][0] + 16, pages)
  }

  /** The main lists: first fit, or growth when nothing fits. */
  ghost function TakeOrGrow(h: Heap, need: int, pages: nat): (out: Outcome)
    requires WellFormed(h) && GoodSize(need)
    ensures Granted(h, out, need - 8)
  {
    FindFitExact(h, need);
    match FindFit(h.bm, h.main, FreeListIndex(need), need)
    case Some(p) => Take(h, p, need, pages)
    case None => GrowAndTake(h, need, pages)
  }

  ghost function Malloc(h: Heap, request: int, pages: nat): (out: Outcome)
    requires WellFormed(h) && 0 <= request < TWO64
    ensures Granted(h, out, request)
    ensures request == 0 ==> out == Outcome(h, NULL, pages)
  {
    if request == 0 || request > TWO64 - 24 then Outcome(h, NULL, pages)
    else
      AlignedBlockIsLeast(request);
      var need := AlignedBlock(request);
      var k := QuickIndex(need);
      if k != -1 && h.quick[k] != [] then TakeQuick(h, k, pages) else TakeOrGrow(h, need, pages)
  }

  // ----- sf_realloc -----

  /** The live block p cut in two live blocks, the first of `need` bytes. */
  function CutLive(h: Heap, p: int, need: int): Heap
    requires p in h.bm
  {
    h.(bm := h.bm[p := Blk(need, Live, h.bm[p].prev)][p + need := Blk(h.bm[p].size - need, Live, true)])
  }

  lemma CutLivePlaced(h: Heap, p: int, need: int, q: int)
    requires WellFormed(h) && p in h.bm && h.bm[p].kind == Live && p + need !in h.bm
    requires GoodSize(need) && h.bm[p].size - need >= MIN_BLOCK
    requires q in h.bm || q == p + need
    ensures Placed(CutLive(h, p, need).bm, h.lo, h.hi, q)
  {
    assert Placed(h.bm, h.lo, h.hi, p);
    assert q in h.bm ==> Placed(h.bm, h.lo, h.hi, q);
    NothingAtEnd(h.bm, h.lo, h.hi);
  }

  lemma CutLiveKeepsHeap(h: Heap, p: int, need: int)
    requires WellFormed(h) && p in h.bm && h.bm[p].kind == Live
    requires GoodSize(need) && h.bm[p].size - need >= MIN_BLOCK
    ensures p + need !in h.bm
    ensures WellFormed(CutLive(h, p, need))
  {
    hide Placed, Apart;
    var bm' := CutLive(h, p, need).bm;
    NothingInside(h.bm, h.lo, h.hi, p, p + need);
    CutApart(h.bm, bm', h.lo, h.hi, p, need);
    forall q | q in bm'
      ensures Placed(bm', h.lo, h.hi, q)
    {
      CutLivePlaced(h, p, need, q);
    }
    OffIsUnseen(h.bm, bm', h.main, {}, {});
    QuickUnseen(h.bm, bm', h.quick, h.counter);
  }

  lemma CutLiveLives(h: Heap, p: int, need: int)
    requires p in h.bm && h.bm[p].kind == Live && p + need !in h.bm && need > 0
    ensures Lives(CutLive(h, p, need).bm) - {p + need} == (Lives(h.bm) - {p})[p := need]
  {
  }

  ghost function Shrink(h: Heap, p: int, need: int): (h': Heap)
    requires WellFormed(h) && p in h.bm && h.bm[p].kind == Live
    requires GoodSize(need) && h.bm[p].size - need >= MIN_BLOCK
    ensures WellFormed(h') && Lives(h'.bm) == (Lives(h.bm) - {p})[p := need]
  {
    CutLiveKeepsHeap(h, p, need);
    FreeKeepsHeap(CutLive(h, p, need), p + need);
    FreeMainLives(CutLive(h, p, need), p + need);
    CutLiveLives(h, p, need);
    FreeMain(CutLive(h, p, need), p + need)
  }

  /** What sf_realloc owes the caller who passes the live block p. */
  ghost predicate Regranted(h: Heap, p: int, out: Outcome, request: int) {
    var l, l' := Lives(h.bm), Lives(out.heap.bm);
    && WellFormed(out.heap)
    && (request == 0 ==> out.ptr == NULL && l' == l - {p})
    && (request != 0 && out.ptr == NULL ==> l' == l)
    && (request != 0 && out.ptr != NULL ==>
          var q := out.ptr - 16;
          && (q == p || q !in l)
          && q in l' && l'[q] - 8 >= request
          && l' == (l - {p})[q := l'[q]])
  }

  /** With the new block granted, the old one is freed. */
  ghost function Release(h: Heap, p: int, out: Outcome, request: int): (h': Heap)
    requires WellFormed(h) && p in Lives(h.bm)
    requires Granted(h, out, request) && out.ptr != NULL
    ensures WellFormed(h') && Lives(h'.bm) == (Lives(h.bm) - {p})[out.ptr - 16 := Lives(out.heap.bm)[out.ptr - 16]]
  {
    hide FreeBlock, WellFormed;
    assert p in Lives(out.heap.bm);
    FreeBlock(out.heap, p)
  }

  /** The request outgrows the block: a new block, and the old one freed if that succeeds. */
  ghost function Move(h: Heap, p: int, request: int, pages: nat): (out: Outcome)
    requires WellFormed(h) && p in Lives(h.bm) && 0 < request < TWO64
    ensures Regranted(h, p, out, request)
  {
    hide Malloc, Release, WellFormed, Lives;
    var out := Malloc(h, request, pages);
    if out.ptr == NULL then out else out.(heap := Release(h, p, out, request))
  }

  /** The request fits the block as it is: return it whole, or split off and free what is left. */
  ghost function KeepInPlace(h: Heap, p: int, need: int): (h': Heap)
    requires WellFormed(h) && p in h.bm && h.bm[p].kind == Live && GoodSize(need) && need <= h.bm[p].size
    ensures WellFormed(h') && p in Lives(h'.bm) && Lives(h'.bm)[p] >= need
    ensures Lives(h'.bm) == (Lives(h.bm) - {p})[p := Lives(h'.bm)[p]]
  {
    assert p in Lives(h.bm);
    assert Lives(h.bm) == (Lives(h.bm) - {p})[p := Lives(h.bm)[p]];
    if h.bm[p].size - need < MIN_BLOCK then h else Shrink(h, p, need)
  }

  ghost function Realloc(h: Heap, p: int, request: int, pages: nat): (out: Outcome)
    requires WellFormed(h) && p in h.bm && h.bm[p].kind == Live && 0 <= request < TWO64
    ensures Regranted(h, p, out, request)
  {
    hide Malloc, FreeBlock, KeepInPlace, Move, WellFormed;
    BlockAboveZero(h, p);
    if request == 0 then Outcome(FreeBlock(h, p), NULL, pages)
    else if request > TWO64 - 24 then Outcome(h, NULL, pages)
    else
      AlignedBlockIsLeast(request);
      var need := AlignedBlock(request);
      if need > h.bm[p].size then Move(h, p, request, pages)
      else Outcome(KeepInPlace(h, p, need), p + 16, pages)
  }

  lemma BlockAboveZero(h: Heap, p: int)
    requires WellFormed(h) && p in h.bm
    ensures p > 0
  {
    assert Placed(h.bm, h.lo, h.hi, p);
  }

  // ----- runs -----

  datatype Op = DoMalloc(request: int) | DoFree(ptr: int) | DoRealloc(ptr: int, request: int)

  /** A heap, the pointers its client holds with the sizes it asked for, and the pages still to be had. */
  datatype State = State(heap: Heap, held: map<int, int>, pages: nat)

  /** The client holds the payloads of exactly the live blocks, and no more of each than there is. */
  ghost predicate Matches(lives: map<int, int>, held: map<int, int>) {
    && (forall p :: p in lives ==> p + 16 in held && 0 <= held[p + 16] <= lives[p] - 8)
    && (forall u :: u in held ==> u - 16 in lives)
  }

  lemma MatchesMore(lives: map<int, int>, held: map<int, int>, p: int, size: int, request: int)
    requires Matches(lives, held) && 0 <= request <= size - 8
    ensures Matches(lives[p := size], held[p + 16 := request])
  {
  }

  lemma MatchesLess(lives: map<int, int>, held: map<int, int>, p: int)
    requires Matches(lives, held)
    ensures Matches(lives - {p}, held - {p + 16})
  {
  }

  ghost predicate Sound(s: State) {
    WellFormed(s.heap) && Matches(Lives(s.heap.bm), s.held)
  }

  /** A client may free or resize only what it holds. */
  predicate Legal(s: State, op: Op) {
    match op
    case DoMalloc(request) => 0 <= request < TWO64
    case DoFree(ptr) => ptr in s.held
    case DoRealloc(ptr, request) => ptr in s.held && 0 <= request < TWO64
  }

  lemma HeldIsLive(s: State, ptr: int)
    requires Sound(s) && ptr in s.held
    ensures ptr - 16 in s.heap.bm && s.heap.bm[ptr - 16].kind == Live
  {
    assert ptr - 16 in Lives(s.heap.bm);
  }

  lemma MallocMatches(h: Heap, held: map<int, int>, out: Outcome, request: int)
    requires Matches(Lives(h.bm), held) && Granted(h, out, request) && 0 <= request
    ensures Matches(Lives(out.heap.bm), if out.ptr == NULL then held else held[out.ptr := request])
  {
    if out.ptr != NULL {
      var p := out.ptr - 16;
      MatchesMore(Lives(h.bm), held, p, Lives(out.heap.bm)[p], request);
    }
  }

  lemma ReallocMatches(h: Heap, held: map<int, int>, ptr: int, out: Outcome, request: int)
    requires Matches(Lives(h.bm), held) && Regranted(h, ptr - 16, out, request) && 0 <= request
    ensures Matches(Lives(out.heap.bm),
                    if request == 0 then held - {ptr}
                    else if out.ptr == NULL then held
                    else (held - {ptr})[out.ptr := request])
  {
    MatchesLess(Lives(h.bm), held, ptr - 16);
    if request != 0 && out.ptr != NULL {
      var q := out.ptr - 16;
      MatchesMore(Lives(h.bm) - {ptr - 16}, held - {ptr}, q, Lives(out.heap.bm)[q], request);
    }
  }

  ghost function StepMalloc(s: State, request: int): (s': State)
    requires Sound(s) && 0 <= request < TWO64
    ensures Sound(s')
  {
    hide Malloc;
    var out := Malloc(s.heap, request, s.pages);
    MallocMatches(s.heap, s.held, out, request);
    State(out.heap, if out.ptr == NULL then s.held else s.held[out.ptr := request], out.pages)
  }

  ghost function StepFree(s: State, ptr: int): (s': State)
    requires Sound(s) && ptr in s.held
    ensures Sound(s')
  {
    hide FreeBlock;
    HeldIsLive(s, ptr);
    MatchesLess(Lives(s.heap.bm), s.held, ptr - 16);
    s.(heap := FreeBlock(s.heap, ptr - 16), held := s.held - {ptr})
  }

  ghost function StepRealloc(s: State, ptr: int, request: int): (s': State)
    requires Sound(s) && ptr in s.held && 0 <= request < TWO64
    ensures Sound(s')
  {
    hide Realloc;
    HeldIsLive(s, ptr);
    var out := Realloc(s.heap, ptr - 16, request, s.pages);
    ReallocMatches(s.heap, s.held, ptr, out, request);
    State(out.heap,
          if request == 0 then s.held - {ptr}
          else if out.ptr == NULL then s.held
          else (s.held - {ptr})[out.ptr := request],
          out.pages)
  }

  ghost function Step(s: State, op: Op): (s': State)
    requires Sound(s) && Legal(s, op)
    ensures Sound(s')
  {
    match op
    case DoMalloc(request) => StepMalloc(s, request)
    case DoFree(ptr) => StepFree(s, ptr)
    case DoRealloc(ptr, request) => StepRealloc(s, ptr, request)
  }

  /** t is reached from s by that sequence of calls. */
  ghost predicate Reaches(s: State, ops: seq<Op>, t: State)
    requires Sound(s)
    decreases |ops|
  {
    if ops == [] then t == s
    else Legal(s, ops[0]) && Reaches(Step(s, ops[0]), ops[1..], t)
  }

  /** The heap right after the first page has been obtained: one free block of 4080 bytes. */
  function FirstHeap(lo: int): Heap {
    Heap(lo, lo + 4080, map[lo := Blk(4080, Free, false)],
         Push(seq(10, _ => []), 7, lo), seq(10, _ => []), seq(10, _ => 0))
  }

  lemma FirstHeapWellFormed(lo: int)
    requires lo > 0 && lo % 16 == 0
    ensures WellFormed(FirstHeap(lo)) && Lives(FirstHeap(lo).bm) == map[]
  {
    var h := FirstHeap(lo);
    assert Placed(h.bm, h.lo, h.hi, lo);
    forall c, x | 0 <= c < 10
      ensures x in h.main[c] <==> OnMain(h.bm, c, x)
    {
      assert FreeListIndex(4080) == 7;
    }
  }

  ghost function FirstState(lo: int, pages: nat): (s: State)
    requires lo > 0 && lo % 16 == 0
    ensures Sound(s)
  {
    FirstHeapWellFormed(lo);
    State(FirstHeap(lo), map[], pages)
  }

  /** Every address of the heap lies in exactly one block. */
  lemma {:induction false} TilesExactly(bm: Blocks, lo: int, hi: int, from: int, x: int) returns (p: int)
    requires Tiled(bm, lo, hi) && from in bm && from <= x < hi
    ensures p in bm && p <= x < p + bm[p].size
    ensures forall q :: q in bm && q <= x < q + bm[q].size ==> q == p
    decreases x - from
  {
    assert Placed(bm, lo, hi, from);
    if x < from + bm[from].size {
      p := from;
      forall q | q in bm && q <= x < q + bm[q].size
        ensures q == p
      {
        assert Apart(bm, q, p) && Apart(bm, p, q);
      }
    } else {
      p := TilesExactly(bm, lo, hi, from + bm[from].size, x);
    }
  }

  /** What a client can rely on after any legal sequence of calls on a fresh heap. */
  ghost predicate ClientSafe(t: State) {
    && (forall u :: u in t.held ==> u % 16 == 0 && t.heap.lo + 16 <= u && u + t.held[u] <= t.heap.hi + 8)
    && (forall u, v :: u in t.held && v in t.held && u < v ==> u + t.held[u] <= v - 8)
  }

  lemma {:induction false} ReachesSound(s: State, ops: seq<Op>, t: State)
    requires Sound(s) && Reaches(s, ops, t)
    ensures Sound(t)
    decreases |ops|
  {
    if ops != [] {
      ReachesSound(Step(s, ops[0]), ops[1..], t);
    }
  }

  lemma SoundIsSafe(t: State)
    requires Sound(t)
    ensures ClientSafe(t)
  {
    forall u | u in t.held
      ensures u % 16 == 0 && t.heap.lo + 16 <= u && u + t.held[u] <= t.heap.hi + 8
    {
      HeldIsLive(t, u);
      assert Placed(t.heap.bm, t.heap.lo, t.heap.hi, u - 16);
      assert u - 16 in Lives(t.heap.bm);
    }
    forall u, v | u in t.held && v in t.held && u < v
      ensures u + t.held[u] <= v - 8
    {
      HeldIsLive(t, u);
      HeldIsLive(t, v);
      assert Apart(t.heap.bm, u - 16, v - 16);
      assert u - 16 in Lives(t.heap.bm);
    }
  }

  /**
    Whatever sequence of calls a client makes on a fresh heap, freeing and resizing only what it
    holds, the heap stays well formed; the regions it holds are aligned, inside the heap, at
    least as long as asked for, and separated by at least a header.
  */
  lemma EveryRunIsSafe(lo: int, pages: nat, ops: seq<Op>, t: State)
    requires lo > 0 && lo % 16 == 0
    requires Reaches(FirstState(lo, pages), ops, t)
    ensures WellFormed(t.heap) && Matches(Lives(t.heap.bm), t.held) && ClientSafe(t)
  {
    hide FirstState;
    ReachesSound(FirstState(lo, pages), ops, t);
    SoundIsSafe(t);
  }
}
