/**
  What sf_malloc, sf_free and sf_realloc of hw3/src/sfmm.c answer, in terms of the sizes of blocks
  alone: when they succeed, which block is given, how it is cut, and where a freed block goes.
*/
module SfAnswers {
  import opened Wrappers
  import opened SfSizes
  import opened SfHeap
  import opened SfRuns
  import opened SfMemory
  import opened SfSteps
  import opened SfDepartures

  // ----- when sf_malloc succeeds -----

  /** The least block that holds the request and its header. */
  predicate Needs(need: int, request: int) {
    need % 16 == 0 && need >= 32 && need - 8 >= request && (need == 32 || need - 24 < request)
  }

  lemma NeedsIsAligned(need: int, request: int)
    requires 0 < request <= TWO64 - 24 && Needs(need, request)
    ensures AlignedBlock(request) == need && GoodSize(need)
  {
    AlignedBlockIsLeast(request);
    var a := AlignedBlock(request);
    assert a <= need;
    if need != 32 {
      SixteensApart(a, need);
    }
  }

  lemma SixteensApart(a: int, b: int)
    requires a % 16 == 0 && b % 16 == 0 && b - 16 < a <= b
    ensures a == b
  {
  }

  /** A block of exactly that size is on its quick list. */
  predicate QuickServes(h: Heap, need: int)
    requires |h.quick| == 10
  {
    need % 16 == 0 && 32 <= need <= 176 && h.quick[(need - 32) / 16] != []
  }

  predicate FitsIn(bm: Blocks, x: int, need: int) {
    x in bm && bm[x].kind == Free && bm[x].size >= need
  }

  ghost predicate SomeFits(h: Heap, need: int) {
    exists x :: FitsIn(h.bm, x, need)
  }

  /** How long the free block is that ends the heap, and where it begins. */
  ghost function LastFree(h: Heap): int
    requires WellFormed(h)
  {
    if h.bm[LastBlock(h)].kind == Free then h.bm[LastBlock(h)].size else 0
  }

  ghost function LastStart(h: Heap): int
    requires WellFormed(h)
  {
    if h.bm[LastBlock(h)].kind == Free then LastBlock(h) else h.hi
  }

  /** One more page makes the free block at the end longer, or begins one. */
  lemma GrowLonger(h: Heap)
    requires WellFormed(h)
    ensures LastFree(Grow(h)) == LastFree(h) + 4096 && LastStart(Grow(h)) == LastStart(h)
    ensures Grow(h).bm[LastBlock(Grow(h))].kind == Free
    ensures forall x :: x in Grow(h).bm && x != LastStart(h) ==> x in h.bm && Grow(h).bm[x] == h.bm[x]
    ensures forall x :: x in h.bm ==> x in Grow(h).bm
  {
    WithPageKeepsHeap(h);
    GrowEndsFree(h);
    var g, last := WithPage(h), LastBlock(h);
    NothingAtEnd(h.bm, h.lo, h.hi);
    NothingAtEnd(g.bm, g.lo, g.hi);
    var a := LowEnd(g.bm, g.lo, g.hi, h.hi);
    assert Placed(h.bm, h.lo, h.hi, last);
    if a != h.hi {
      PrevIsUnique(g.bm, g.lo, g.hi, h.hi, a, last);
    }
    assert HighEnd(g.bm, h.hi) == g.hi;
    FreeRange(g.bm, g.lo, g.hi, h.hi);
    forall x | x in h.bm
      ensures x <= a
    {
      assert Apart(h.bm, last, x) && Apart(h.bm, x, last) && Placed(h.bm, h.lo, h.hi, x);
    }
    var f := Grow(h);
    assert IsPrev(f.bm, a, f.hi);
    PrevIsUnique(f.bm, f.lo, f.hi, f.hi, a, LastBlock(f));
  }

  /** So many pages make a block of the needed size at the end, and one less does not. */
  predicate FewestPages(last: int, need: int, used: int) {
    used > 0 && last + 4096 * used >= need && last + 4096 * (used - 1) < need
  }

  /** The block p of that size is handed out: whole, or cut when what is left makes a block. */
  predicate Handed(h: Heap, p: int, size: int, need: int)
    requires |h.main| == 10
  {
    && p in h.bm && h.bm[p].kind == Live
    && (size - need < 32 ==> h.bm[p].size == size)
    && (size - need >= 32 ==>
          && h.bm[p].size == need
          && p + need in h.bm && h.bm[p + need].kind == Free && h.bm[p + need].size == size - need
          && var c := FreeListIndex(size - need); h.main[c] != [] && h.main[c][0] == p + need)
  }

  /** All blocks but p are as they were, and nothing is new but p and what is cut off it. */
  predicate OthersStay(bm: Blocks, bm': Blocks, p: int, need: int) {
    && (forall x :: x in bm && x != p ==> x in bm' && bm'[x].size == bm[x].size && bm'[x].kind == bm[x].kind)
    && (forall x :: x in bm' && x !in bm ==> x == p || x == p + need)
  }

  lemma TakenIsHanded(h: Heap, p: int, need: int)
    requires WellFormed(h) && p in h.bm && h.bm[p].kind == Free && GoodSize(need) && need <= h.bm[p].size
    ensures Handed(Allocate(h, p, need), p, h.bm[p].size, need)
    ensures OthersStay(h.bm, Allocate(h, p, need).bm, p, need)
  {
    assert Placed(h.bm, h.lo, h.hi, p);
    if h.bm[p].size - need >= MIN_BLOCK {
      NothingInside(h.bm, h.lo, h.hi, p, p + need);
    }
  }

  /** The outcome of a request that only growth can meet, when the heap ends with that free space. */
  predicate Grown(h: Heap, start: int, last: int, need: int, pages: nat, out: Outcome) {
    if last + 4096 * pages < need then out.ptr == NULL && out.pages == 0
    else
      var used := pages - out.pages;
      && out.ptr == start + 16
      && FewestPages(last, need, used) && out.heap.hi == h.hi + 4096 * used
      && |out.heap.main| == 10 && Handed(out.heap, start, last + 4096 * used, need)
      && OthersStay(h.bm, out.heap.bm, start, need)
  }

  lemma GrownLater(h: Heap, g: Heap, start: int, last: int, need: int, pages: nat, out: Outcome)
    requires pages > 0 && g.hi == h.hi + 4096 && last + 4096 < need
    requires forall x :: x in g.bm && x != start ==> x in h.bm && g.bm[x] == h.bm[x]
    requires forall x :: x in h.bm ==> x in g.bm
    requires Grown(g, start, last + 4096, need, pages - 1, out)
    ensures Grown(h, start, last, need, pages, out)
  {
    hide Handed;
  }

  lemma GrownNow(h: Heap, g: Heap, start: int, last: int, need: int, pages: nat, out: Outcome)
    requires pages > 0 && g.hi == h.hi + 4096 && last < need <= last + 4096
    requires forall x :: x in g.bm && x != start ==> x in h.bm && g.bm[x] == h.bm[x]
    requires forall x :: x in h.bm ==> x in g.bm
    requires out.ptr == start + 16 && out.pages == pages - 1 && out.heap.hi == g.hi && |out.heap.main| == 10
    requires Handed(out.heap, start, last + 4096, need) && OthersStay(g.bm, out.heap.bm, start, need)
    ensures Grown(h, start, last, need, pages, out)
  {
    hide Handed;
  }

  lemma GrowAndTakeIs(h: Heap, need: int, pages: nat)
    requires WellFormed(h) && GoodSize(need) && pages > 0
    ensures var g := Grow(h);
            && Tiled(g.bm, g.lo, g.hi)
            && var p := LastBlock(g);
            p in g.bm && g.hi == h.hi + 4096
            && (g.bm[p].size >= need ==>
                  g.bm[p].kind == Free && GrowAndTake(h, need, pages) == Outcome(Allocate(g, p, need), p + 16, pages - 1)
                  && |Allocate(g, p, need).main| == 10 && Allocate(g, p, need).hi == g.hi)
            && (g.bm[p].size < need ==> GrowAndTake(h, need, pages) == GrowAndTake(g, need, pages - 1))
  {
    GrowEndsFree(h);
  }

  lemma GrowthNow(h: Heap, need: int, pages: nat)
    requires WellFormed(h) && GoodSize(need) && pages > 0 && LastFree(h) < need
    requires Grow(h).bm[LastBlock(Grow(h))].size >= need
    ensures Grown(h, LastStart(h), LastFree(h), need, pages, GrowAndTake(h, need, pages))
  {
    GrowLonger(h);
    GrowAndTakeIs(h, need, pages);
    var g := Grow(h);
    var p, out := LastBlock(g), GrowAndTake(h, need, pages);
    TakenIsHanded(g, p, need);
    assert LastFree(g) == g.bm[p].size && LastStart(g) == p;
    hide *;
    GrownNow(h, g, LastStart(h), LastFree(h), need, pages, out);
  }

  lemma {:induction false} GrowthIs(h: Heap, need: int, pages: nat)
    requires WellFormed(h) && GoodSize(need) && LastFree(h) < need
    ensures Grown(h, LastStart(h), LastFree(h), need, pages, GrowAndTake(h, need, pages))
    decreases pages
  {
    hide WellFormed, Handed, OthersStay, Grow, Take, LastFree, LastStart;
    if pages > 0 {
      var g := Grow(h);
      GrowLonger(h);
      GrowAndTakeIs(h, need, pages);
      if g.bm[LastBlock(g)].size >= need {
        GrowthNow(h, need, pages);
      } else {
        EndSize(g);
        GrowthIs(g, need, pages - 1);
        hide *;
        GrownLater(h, g, LastStart(h), LastFree(h), need, pages, GrowAndTake(h, need, pages));
      }
    }
  }

  lemma EndSize(g: Heap)
    requires WellFormed(g) && g.bm[LastBlock(g)].kind == Free
    ensures LastFree(g) == g.bm[LastBlock(g)].size && LastStart(g) == LastBlock(g)
  {
  }

  /** The search takes the first block that fits, on the first list that has one. */
  ghost predicate FirstThatFits(h: Heap, p: int, need: int)
    requires |h.main| == 10
  {
    && FitsIn(h.bm, p, need)
    && forall x {:trigger FitsIn(h.bm, x, need)} :: FitsIn(h.bm, x, need) && x != p ==>
         || FreeListIndex(h.bm[x].size) > FreeListIndex(h.bm[p].size)
         || (FreeListIndex(h.bm[x].size) == FreeListIndex(h.bm[p].size)
             && Precedes(h.main[FreeListIndex(h.bm[p].size)], p, x))
  }

  /** First on one list. */
  lemma {:induction false} FirstFitOrder(bm: Blocks, s: seq<int>, need: int)
    requires need % 16 == 0 && forall i :: 0 <= i < |s| ==> s[i] in bm && bm[s[i]].kind == Free && bm[s[i]].size % 16 == 0
    ensures match FirstFit(bm, s, need)
            case None => forall x :: x in s ==> !FitsIn(bm, x, need)
            case Some(p) => FitsIn(bm, p, need) && p in s
                            && forall x :: x in s && FitsIn(bm, x, need) && x != p ==> Precedes(s, p, x)
  {
    if s != [] {
      WordFits(bm[s[0]], need);
      var t := s[1..];
      assert forall i :: 0 <= i < |t| ==> t[i] == s[i + 1];
      assert forall x :: x in s <==> x == s[0] || x in t;
      if Word(bm[s[0]]) >= need {
        forall x | x in s && x != s[0]
          ensures Precedes(s, s[0], x)
        {
          var j :| 0 <= j < |s| && s[j] == x;
          assert s[0] == s[0] && 0 < j;
        }
      } else {
        FirstFitOrder(bm, t, need);
        if FirstFit(bm, t, need).Some? {
          var p := FirstFit(bm, t, need).value;
          forall x | x in s && FitsIn(bm, x, need) && x != p
            ensures Precedes(s, p, x)
          {
            var i, j :| 0 <= i < j < |t| && t[i] == p && t[j] == x;
            assert s[i + 1] == p && s[j + 1] == x;
          }
        }
      }
    }
  }

  /** First over all lists from c on. */
  lemma {:induction false} FindFitOrder(h: Heap, c: int, need: int)
    requires WellFormed(h) && GoodSize(need) && 0 <= c <= 10
    ensures match FindFit(h.bm, h.main, c, need)
            case None => forall x :: FitsIn(h.bm, x, need) ==> FreeListIndex(h.bm[x].size) < c
            case Some(p) =>
              && FitsIn(h.bm, p, need) && FreeListIndex(h.bm[p].size) >= c
              && forall x :: FitsIn(h.bm, x, need) && x != p && FreeListIndex(h.bm[x].size) >= c ==>
                   || FreeListIndex(h.bm[x].size) > FreeListIndex(h.bm[p].size)
                   || (FreeListIndex(h.bm[x].size) == FreeListIndex(h.bm[p].size)
                       && Precedes(h.main[FreeListIndex(h.bm[p].size)], p, x))
    decreases 10 - c
  {
    if c < 10 {
      ListedFree(h, c);
      FirstFitOrder(h.bm, h.main[c], need);
      forall x | FitsIn(h.bm, x, need) && FreeListIndex(h.bm[x].size) == c
        ensures x in h.main[c]
      {
        assert OnMain(h.bm, c, x);
      }
      hide WellFormed, FreeListIndex, Precedes, FirstFit;
      FindFitOrder(h, c + 1, need);
    }
  }

  /** Popped off quick list k: the list without its head, and the block handed out as it is. */
  predicate Popped(h: Heap, out: Outcome, k: nat)
    requires k < |h.quick| == 10 && h.quick[k] != []
  {
    var p := h.quick[k][0];
    && out.ptr == p + 16 && |out.heap.quick| == 10 && out.heap.quick[k] == h.quick[k][1..]
    && p in out.heap.bm && out.heap.bm[p].kind == Live && out.heap.bm[p].size == 32 + 16 * k
    && OthersStay(h.bm, out.heap.bm, p, 0)
  }

  lemma PopIs(h: Heap, k: nat, pages: nat)
    requires WellFormed(h) && k < 10 && h.quick[k] != []
    ensures Popped(h, TakeQuick(h, k, pages), k)
  {
    HeadOfQuick(h, k);
  }

  lemma TakeIs(h: Heap, p: int, need: int, pages: nat)
    requires WellFormed(h) && p in h.bm && h.bm[p].kind == Free && GoodSize(need) && need <= h.bm[p].size
    ensures var out := Take(h, p, need, pages);
            && out.ptr == p + 16 && out.pages == pages && |out.heap.main| == 10
            && Handed(out.heap, p, h.bm[p].size, need) && OthersStay(h.bm, out.heap.bm, p, need)
  {
    TakenIsHanded(h, p, need);
    AllocateKeepsHeap(h, p, need);
  }

  lemma NothingFits(h: Heap, need: int)
    requires WellFormed(h) && GoodSize(need) && !SomeFits(h, need)
    ensures LastFree(h) < need
  {
    assert !FitsIn(h.bm, LastBlock(h), need);
  }

  lemma FitFound(h: Heap, need: int)
    requires WellFormed(h) && GoodSize(need)
    ensures |h.main| == |h.quick| == 10
    ensures var f := FindFit(h.bm, h.main, FreeListIndex(need), need);
            if SomeFits(h, need) then f.Some? && FirstThatFits(h, f.value, need) else f.None?
  {
    FindFitOrder(h, FreeListIndex(need), need);
    forall x | FitsIn(h.bm, x, need)
      ensures FreeListIndex(h.bm[x].size) >= FreeListIndex(need)
    {
      FreeListIndexMonotone(need, h.bm[x].size);
    }
  }

  lemma MainAnswer(h: Heap, need: int, pages: nat)
    requires WellFormed(h) && GoodSize(need)
    ensures |h.main| == |h.quick| == 10
    ensures var out := TakeOrGrow(h, need, pages);
            if SomeFits(h, need) then
              && out.pages == pages && FirstThatFits(h, out.ptr - 16, need) && |out.heap.main| == 10
              && Handed(out.heap, out.ptr - 16, h.bm[out.ptr - 16].size, need)
              && OthersStay(h.bm, out.heap.bm, out.ptr - 16, need)
            else Grown(h, LastStart(h), LastFree(h), need, pages, out)
  {
    FitFound(h, need);
    if SomeFits(h, need) {
      var p := FindFit(h.bm, h.main, FreeListIndex(need), need).value;
      hide WellFormed, SomeFits, FindFit, Take, Handed, OthersStay, Grown;
      TakeIs(h, p, need, pages);
    } else {
      NothingFits(h, need);
      hide WellFormed, SomeFits, FindFit, GrowAndTake, Handed, OthersStay, Grown;
      GrowthIs(h, need, pages);
    }
  }

  /**
    The answer of sf_malloc: the head of the quick list of its size; or else the first block that fits,
    without a new page; or else, if they suffice, the fewest new pages behind the free space at the end.
  */
  lemma MallocAnswer(h: Heap, request: int, pages: nat, need: int)
    requires WellFormed(h) && 0 < request <= TWO64 - 24 && Needs(need, request)
    ensures |h.main| == |h.quick| == 10
    ensures var out := Malloc(h, request, pages);
            if QuickServes(h, need) then out.pages == pages && Popped(h, out, (need - 32) / 16)
            else if SomeFits(h, need) then
              && out.pages == pages && FirstThatFits(h, out.ptr - 16, need) && |out.heap.main| == 10
              && Handed(out.heap, out.ptr - 16, h.bm[out.ptr - 16].size, need)
              && OthersStay(h.bm, out.heap.bm, out.ptr - 16, need)
            else Grown(h, LastStart(h), LastFree(h), need, pages, out)
  {
    NeedsIsAligned(need, request);
    QuickIndexExactly(need);
    MainAnswer(h, need, pages);
    if QuickServes(h, need) {
      PopIs(h, (need - 32) / 16, pages);
    }
    hide WellFormed, SomeFits, FirstThatFits, TakeOrGrow, TakeQuick, Handed, OthersStay, Grown, Popped;
    hide AlignedBlock, QuickIndex;
  }

  /** When it is NULL, and what it costs in pages. */
  lemma MallocSucceedsExactly(h: Heap, request: int, pages: nat, need: int)
    requires WellFormed(h) && 0 < request <= TWO64 - 24 && Needs(need, request)
    ensures |h.quick| == 10
    ensures var out := Malloc(h, request, pages);
            if QuickServes(h, need) || SomeFits(h, need) then out.ptr != NULL && out.pages == pages
            else
              && (out.ptr == NULL <==> LastFree(h) + 4096 * pages < need)
              && (out.ptr != NULL ==> FewestPages(LastFree(h), need, pages - out.pages))
  {
    MallocAnswer(h, request, pages, need);
    if QuickServes(h, need) {
      HeadOfQuick(h, (need - 32) / 16);
      BlockAboveZero(h, h.quick[(need - 32) / 16][0]);
    }
    AllBlocksAboveZero(h);
    hide WellFormed, SomeFits, Malloc, Handed, OthersStay;
  }

  lemma AllBlocksAboveZero(h: Heap)
    requires WellFormed(h)
    ensures (forall x :: x in h.bm ==> x > 0) && LastStart(h) > 0
  {
    forall x | x in h.bm
      ensures x > 0
    {
      BlockAboveZero(h, x);
    }
    assert Placed(h.bm, h.lo, h.hi, h.lo);
  }

  /** Nothing is given for a request of 0, or for one that no block size can hold. */
  lemma MallocRefuses(h: Heap, request: int, pages: nat)
    requires WellFormed(h) && (request == 0 || TWO64 - 24 < request < TWO64)
    ensures Malloc(h, request, pages) == Outcome(h, NULL, pages)
  {
  }

  /** The very first call finds a page of its own: one free block of 4080 bytes. */
  lemma FirstAnswer(lo: int, request: int, pages: nat)
    requires lo >= LOWEST && lo % 16 == 0 && 0 <= request < TWO64
    ensures WellFormed(FirstHeap(lo)) && FirstMalloc(lo, request, pages) == Malloc(FirstHeap(lo), request, pages)
    ensures FirstHeap(lo).bm == map[lo := Blk(4080, Free, false)] && FirstHeap(lo).hi == lo + 4080
  {
    FirstHeapWellFormed(lo);
    hide Malloc, WellFormed;
  }

  // ----- where a freed block goes -----

  /** A block of 32 to 176 bytes goes to the front of its quick list, emptied first if its counter is five. */
  lemma SmallFreed(h: Heap, p: int)
    requires WellFormed(h) && p in h.bm && h.bm[p].kind == Live && 32 <= h.bm[p].size <= 176
    ensures |h.quick| == |h.counter| == 10
    ensures var k, f := (h.bm[p].size - 32) / 16, FreeBlock(h, p);
            && p in f.bm && f.bm[p].kind == Quick && f.bm[p].size == h.bm[p].size
            && f.quick == h.quick[k := [p] + if h.counter[k] < 5 then h.quick[k] else []]
            && f.counter == h.counter[k := if h.counter[k] < 5 then h.counter[k] + 1 else 5]
            && (h.counter[k] < 5 ==> f.main == h.main && f.bm == h.bm[p := f.bm[p]])
  {
    hide Flush, FreeBlock, QuickIndex;
    BlockBounds(h, p);
    SizeIsRound(h, p);
    QuickIndexExactly(h.bm[p].size);
    hide WellFormed;
    var g, count := FreedSmall(h, p);
    var k, f := (h.bm[p].size - 32) / 16, FreeBlock(h, p);
    assert f.quick == g.quick[k := [p] + g.quick[k]];
    FlushIs(h, k);
  }

  lemma SizeIsRound(h: Heap, p: int)
    requires WellFormed(h) && p in h.bm
    ensures h.bm[p].size % 16 == 0 && |h.quick| == |h.counter| == 10
  {
    assert Placed(h.bm, h.lo, h.hi, p);
  }

  lemma FlushIs(h: Heap, k: int)
    requires WellFormed(h) && 0 <= k < 10
    ensures Flush(h, k).quick == h.quick[k := []]
  {
    hide Flush;
  }

  /** What the flush empties out is free afterwards, by itself or inside a bigger block. */
  lemma FlushedAreFree(h: Heap, p: int, x: int)
    requires WellFormed(h) && p in h.bm && h.bm[p].kind == Live && 32 <= h.bm[p].size <= 176
    requires |h.quick| == |h.counter| == 10 && h.counter[(h.bm[p].size - 32) / 16] == 5
    requires x in h.quick[(h.bm[p].size - 32) / 16]
    ensures x in h.bm && h.bm[x].kind == Quick && x != p
    ensures x !in FreeBlock(h, p).bm || FreeBlock(h, p).bm[x].kind == Free
  {
    var k, f := (h.bm[p].size - 32) / 16, FreeBlock(h, p);
    assert OnQuick(h.bm, k, x);
    SmallFreed(h, p);
    hide FreeBlock;
    assert f.quick[k] == [p];
    assert Lives(f.bm) == Lives(h.bm) - {p} && x !in Lives(h.bm);
    forall j | 0 <= j < 10
      ensures x !in f.quick[j]
    {
      assert j != k ==> !OnQuick(h.bm, j, x);
    }
    assert x in f.bm ==> !OnQuick(f.bm, QuickIndex(f.bm[x].size), x);
    assert x in f.bm && f.bm[x].kind == Live ==> x in Lives(f.bm);
  }

  /** The free neighbours of p, and where they leave off. */
  predicate Joins(bm: Blocks, p: int, a: int, z: int)
    requires p in bm
  {
    var n := p + bm[p].size;
    && (if a == p then forall q :: q in bm && q + bm[q].size == p ==> bm[q].kind != Free
        else a in bm && bm[a].kind == Free && a + bm[a].size == p)
    && z == if n in bm && bm[n].kind == Free then n + bm[n].size else n
  }

  /** One free block [a, z) where p and its free neighbours were, at the front of the list of that size. */
  ghost predicate Joined(h: Heap, f: Heap, p: int, a: int, z: int) {
    && a in h.bm && a in f.bm && f.bm[a] == Blk(z - a, Free, h.bm[a].prev) && |f.main| == 10
    && (forall x :: a < x < z ==> x !in f.bm)
    && (forall x :: (x < a || z < x) && x in h.bm ==> x in f.bm && f.bm[x] == h.bm[x])
    && (z in h.bm ==> z in f.bm && f.bm[z] == h.bm[z].(prev := false))
    && f.bm.Keys <= h.bm.Keys && f.quick == h.quick && f.counter == h.counter && f.lo == h.lo && f.hi == h.hi
    && var c := FreeListIndex(z - a); f.main[c] != [] && f.main[c][0] == a
  }

  lemma ReleasedIsJoined(h: Heap, p: int, a: int, z: int)
    requires WellFormed(h) && p in h.bm && h.bm[p].kind == Live && Joins(h.bm, p, a, z)
    ensures Joined(h, FreeMain(h, p), p, a, z)
  {
    LowEndIs(h, p, a);
    FreeKeepsHeap(h, p);
    FreeRange(h.bm, h.lo, h.hi, p);
    hide WellFormed, LowEnd;
  }

  /**
    Any block of more than 176 bytes makes one free block with its free neighbours; quick lists, and
    all other blocks but for what the next one's header says, stay.
  */
  lemma LargeFreed(h: Heap, p: int, a: int, z: int)
    requires WellFormed(h) && p in h.bm && h.bm[p].kind == Live && h.bm[p].size > 176 && Joins(h.bm, p, a, z)
    ensures Joined(h, FreeBlock(h, p), p, a, z)
  {
    QuickIndexExactly(h.bm[p].size);
    ReleasedIsJoined(h, p, a, z);
    hide Joined, FreeMain, QuickIndex;
  }

  lemma LowEndIs(h: Heap, p: int, a: int)
    requires WellFormed(h) && p in h.bm && h.bm[p].kind == Live && Joins(h.bm, p, a, HighEnd(h.bm, p))
    ensures a == LowEnd(h.bm, h.lo, h.hi, p)
  {
    var b := LowEnd(h.bm, h.lo, h.hi, p);
    assert Placed(h.bm, h.lo, h.hi, p);
    if a != p {
      assert IsPrev(h.bm, a, p) && Placed(h.bm, h.lo, h.hi, a);
      NothingAtEnd(h.bm, h.lo, h.hi);
      PrevIsUnique(h.bm, h.lo, h.hi, p, a, if b == p then a else b);
    }
  }

  // ----- sf_realloc -----

  /** What is left of p after a cut to need bytes is one free block up to z; else nothing has changed. */
  ghost predicate Trimmed(h: Heap, h': Heap, p: int, need: int, z: int)
    requires p in h.bm
  {
    && p in h'.bm && h'.bm[p] == Blk(need, Live, h.bm[p].prev)
    && p + need in h'.bm && h'.bm[p + need] == Blk(z - (p + need), Free, true)
    && (forall x :: p + need < x < z ==> x !in h'.bm)
    && (forall x :: x in h.bm && x != p && (x < p || z < x) ==> x in h'.bm && h'.bm[x] == h.bm[x])
    && (z in h.bm ==> z in h'.bm && h'.bm[z] == h.bm[z].(prev := false))
    && (forall x :: x in h'.bm ==> x in h.bm || x == p + need)
    && |h'.main| == 10 && h'.quick == h.quick && h'.counter == h.counter && h'.hi == h.hi
    && var c := FreeListIndex(z - (p + need)); h'.main[c] != [] && h'.main[c][0] == p + need
  }

  /** Where free space behind p ends. */
  function FreeBehind(bm: Blocks, p: int): int
    requires p in bm
  {
    var n := p + bm[p].size;
    if n in bm && bm[n].kind == Free then n + bm[n].size else n
  }

  lemma CutIsTrimmed(h: Heap, p: int, need: int)
    requires WellFormed(h) && p in h.bm && h.bm[p].kind == Live && GoodSize(need) && h.bm[p].size - need >= 32
    ensures Trimmed(h, Shrink(h, p, need), p, need, FreeBehind(h.bm, p))
  {
    CutLiveKeepsHeap(h, p, need);
    BlockBounds(h, p);
    var c, rest, z := CutLive(h, p, need), p + need, FreeBehind(h.bm, p);
    forall q | q in c.bm && q + c.bm[q].size == rest
      ensures c.bm[q].kind != Free
    {
      assert IsPrev(c.bm, q, rest) && IsPrev(c.bm, p, rest);
      PrevIsUnique(c.bm, c.lo, c.hi, rest, q, p);
    }
    assert Joins(c.bm, rest, rest, z);
    ReleasedIsJoined(c, rest, rest, z);
    if p + h.bm[p].size in h.bm {
      BlockBounds(h, p + h.bm[p].size);
    }
    assert rest !in h.bm && z >= p + h.bm[p].size;
    InsideOf(h, p);
    assert Shrink(h, p, need) == FreeMain(c, rest);
    hide WellFormed, FreeMain, Joins, Shrink, FreeListIndex, FreeBehind;
    TrimmedFrom(h, c, FreeMain(c, rest), p, need, z);
  }

  lemma TrimmedFrom(h: Heap, c: Heap, f: Heap, p: int, need: int, z: int)
    requires p in h.bm && p + need !in h.bm && 0 < need < h.bm[p].size && z >= p + h.bm[p].size
    requires c == CutLive(h, p, need) && Joined(c, f, p + need, p + need, z)
    requires forall x :: p < x < p + h.bm[p].size ==> x !in h.bm
    ensures Trimmed(h, f, p, need, z)
  {
    hide FreeListIndex;
  }

  lemma InsideOf(h: Heap, p: int)
    requires WellFormed(h) && p in h.bm
    ensures forall x :: p < x < p + h.bm[p].size ==> x !in h.bm
  {
    forall x | p < x < p + h.bm[p].size
      ensures x !in h.bm
    {
      NothingInside(h.bm, h.lo, h.hi, p, x);
    }
  }

  /**
    The answer of sf_realloc: cut in place if that leaves 32 bytes or more, unchanged if the block is
    big enough, and otherwise what sf_malloc answers, with the old block freed.
  */
  lemma ReallocAnswer(h: Heap, p: int, request: int, pages: nat, need: int)
    requires WellFormed(h) && p in h.bm && h.bm[p].kind == Live && 0 < request <= TWO64 - 24 && Needs(need, request)
    ensures var out, size := Realloc(h, p, request, pages), h.bm[p].size;
            if size >= need + 32 then
              out.ptr == p + 16 && out.pages == pages && Trimmed(h, out.heap, p, need, FreeBehind(h.bm, p))
            else if size >= need then out == Outcome(h, p + 16, pages)
            else
              var m := Malloc(h, request, pages);
              if m.ptr == NULL then out == m
              else
                && p in m.heap.bm && m.heap.bm[p].kind == Live && WellFormed(m.heap)
                && out == Outcome(FreeBlock(m.heap, p), m.ptr, m.pages)
  {
    NeedsIsAligned(need, request);
    ReallocCases(h, p, request, pages);
    hide Realloc, AlignedBlock;
    if h.bm[p].size >= need {
      KeepInPlaceCases(h, p, need);
      if h.bm[p].size >= need + 32 {
        CutIsTrimmed(h, p, need);
      }
    } else {
      hide Malloc, FreeBlock;
      MoveIs(h, p, request, pages);
    }
  }

  lemma MoveIs(h: Heap, p: int, request: int, pages: nat)
    requires WellFormed(h) && p in h.bm && h.bm[p].kind == Live && 0 < request < TWO64
    ensures p in Lives(h.bm)
    ensures var m := Malloc(h, request, pages);
            if m.ptr == NULL then Move(h, p, request, pages) == m
            else
              && p in m.heap.bm && m.heap.bm[p].kind == Live && WellFormed(m.heap)
              && Move(h, p, request, pages) == Outcome(FreeBlock(m.heap, p), m.ptr, m.pages)
  {
    hide Malloc, FreeBlock;
    MallocLives(h, request, pages, p);
  }

  lemma MallocLives(h: Heap, request: int, pages: nat, p: int)
    requires WellFormed(h) && p in h.bm && h.bm[p].kind == Live && 0 <= request < TWO64
    ensures p in Lives(h.bm)
    ensures var h' := Malloc(h, request, pages).heap; p in h'.bm && h'.bm[p].kind == Live && h'.bm[p].size == h.bm[p].size
  {
    hide Malloc;
    assert p in Lives(h.bm);
    assert p in Lives(Malloc(h, request, pages).heap.bm);
  }

  /** It fails exactly when the block is too small and no other block, nor the heap by growing, can hold the request. */
  lemma ReallocSucceedsExactly(h: Heap, p: int, request: int, pages: nat, need: int)
    requires WellFormed(h) && p in h.bm && h.bm[p].kind == Live && 0 < request <= TWO64 - 24 && Needs(need, request)
    ensures |h.quick| == 10
    ensures Realloc(h, p, request, pages).ptr == NULL
       <==> need > h.bm[p].size && !QuickServes(h, need) && !SomeFits(h, need) && LastFree(h) + 4096 * pages < need
  {
    MallocSucceedsExactly(h, request, pages, need);
    ReallocAnswer(h, p, request, pages, need);
    BlockAboveZero(h, p);
    hide Realloc, Malloc, WellFormed, FreeBlock, Trimmed, SomeFits, LastFree;
  }

  /** A request of 0 frees the block, and one that no block size can hold leaves everything as it is. */
  lemma ReallocEdges(h: Heap, p: int, request: int, pages: nat)
    requires WellFormed(h) && p in h.bm && h.bm[p].kind == Live && 0 <= request < TWO64
    ensures request == 0 ==> Realloc(h, p, request, pages) == Outcome(FreeBlock(h, p), NULL, pages)
    ensures request > TWO64 - 24 ==> Realloc(h, p, request, pages) == Outcome(h, NULL, pages)
  {
  }
}
