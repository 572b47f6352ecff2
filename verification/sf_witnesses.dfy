/**
  Heaps that runs of sf_malloc and sf_free lead to, on which hw3/src/sfmm.c as written goes wrong:
  each is reached from the first page by a short series of calls.
*/
module SfWitnesses {
  import opened Wrappers
  import opened SfSizes
  import opened SfHeap
  import opened SfRuns
  import opened SfDepartures

  // ----- running calls one after the other -----

  lemma {:induction false} ReachesThen(s: State, ops: seq<Op>, t: State, op: Op)
    requires Sound(s) && Reaches(s, ops, t)
    ensures Sound(t)
    ensures Legal(t, op) ==> Reaches(s, ops + [op], Step(t, op))
    decreases |ops|
  {
    hide Sound, Step, Legal;
    ReachesSound(s, ops, t);
    if ops == [] {
      assert ops + [op] == [op];
      assert [op][1..] == [];
    } else {
      ReachesThen(Step(s, ops[0]), ops[1..], t, op);
      assert (ops + [op])[1..] == ops[1..] + [op];
    }
  }

  /** Ten lists of which at most list c is not empty. */
  function Only(c: int, s: seq<int>): (lists: Lists)
    ensures |lists| == 10 && forall i :: 0 <= i < 10 ==> lists[i] == if i == c then s else []
  {
    seq(10, i requires 0 <= i < 10 => if i == c then s else [])
  }

  /** A one-page heap. */
  function OnePage(lo: int, bm: Blocks, c: int, s: seq<int>): Heap {
    Heap(lo, lo + 4080, bm, Only(c, s), Only(0, []), seq(10, _ => 0))
  }

  lemma {:induction false} FindOnly(bm: Blocks, c: int, s: seq<int>, from: int, need: int)
    requires 0 <= from <= c < 10 && s != [] && s[0] in bm && Word(bm[s[0]]) >= need
    ensures FindFit(bm, Only(c, s), from, need) == Some(s[0])
    decreases c - from
  {
    if from < c {
      FindOnly(bm, c, s, from + 1, need);
    }
  }

  lemma OnlyDetached(c: int, s: seq<int>)
    requires 0 <= c < 10 && s != []
    ensures Detach(Only(c, s), c, s[0]) == Only(c, s[1..])
  {
  }

  lemma OnlyPushed(c: int, d: int, s: seq<int>, x: int)
    requires 0 <= c < 10 && 0 <= d < 10 && (c == d || s == [])
    ensures Push(Only(c, s), d, x) == Only(d, [x] + s)
  {
    assert s == [] ==> [x] + s == [x];
  }

  /** A request that the head of the only list in use satisfies. */
  lemma MallocHead(t: State, request: int, c: int, s: seq<int>)
    requires Sound(t) && 0 < request <= TWO64 - 24 && 0 <= c < 10 && s != []
    requires t.heap.main == Only(c, s) && t.heap.quick == Only(0, [])
    requires FreeListIndex(AlignedBlock(request)) <= c
    ensures s[0] in t.heap.bm && t.heap.bm[s[0]].kind == Free && FreeListIndex(t.heap.bm[s[0]].size) == c
    ensures t.heap.bm[s[0]].size >= AlignedBlock(request) ==>
              Step(t, DoMalloc(request))
              == State(Allocate(t.heap, s[0], AlignedBlock(request)), t.held[s[0] + 16 := request], t.pages)
  {
    var h, need := t.heap, AlignedBlock(request);
    assert s[0] in h.main[c];
    assert OnMain(h.bm, c, s[0]);
    BlockBounds(h, s[0]);
    if h.bm[s[0]].size >= need {
      FindOnly(h.bm, c, s, FreeListIndex(need), need);
    }
  }

  /** Splitting it. */
  lemma MallocCut(t: State, request: int, c: int, x: int, d: int)
    requires Sound(t) && 0 < request <= TWO64 - 24 && 0 <= c < 10
    requires t.heap.main == Only(c, [x]) && t.heap.quick == Only(0, [])
    requires FreeListIndex(AlignedBlock(request)) <= c
    requires x in t.heap.bm && t.heap.bm[x].size - AlignedBlock(request) >= MIN_BLOCK
    requires d == FreeListIndex(t.heap.bm[x].size - AlignedBlock(request))
    ensures var need := AlignedBlock(request);
            Step(t, DoMalloc(request))
            == State(t.heap.(bm := TakeFirst(t.heap.bm, x, need), main := Only(d, [x + need])),
                     t.held[x + 16 := request], t.pages)
  {
    hide Sound, Step, AlignedBlock, FreeListIndex, Only, Push, Without;
    MallocHead(t, request, c, [x]);
    OnlyDetached(c, [x]);
    OnlyPushed(c, d, [], x + AlignedBlock(request));
    assert [x][1..] == [];
    assert [x + AlignedBlock(request)] + [] == [x + AlignedBlock(request)];
  }

  /** Taking it whole. */
  lemma MallocWhole(t: State, request: int, c: int, x: int)
    requires Sound(t) && 0 < request <= TWO64 - 24 && 0 <= c < 10
    requires t.heap.main == Only(c, [x]) && t.heap.quick == Only(0, [])
    requires FreeListIndex(AlignedBlock(request)) <= c
    requires x in t.heap.bm && 0 <= t.heap.bm[x].size - AlignedBlock(request) < MIN_BLOCK
    ensures Step(t, DoMalloc(request))
         == State(t.heap.(bm := TakeWhole(t.heap.bm, x), main := Only(c, [])), t.held[x + 16 := request], t.pages)
  {
    hide Sound, Step, AlignedBlock, FreeListIndex, Only, Push, Without;
    MallocHead(t, request, c, [x]);
    OnlyDetached(c, [x]);
    assert [x][1..] == [];
  }

  /** Freeing a block too big for the quick lists that has no free neighbour. */
  lemma FreeAlone(h: Heap, p: int)
    requires WellFormed(h) && p in h.bm && h.bm[p].kind == Live && (p == h.lo || h.bm[p].prev)
    requires p + h.bm[p].size in h.bm && h.bm[p + h.bm[p].size].kind != Free
    ensures FreeMain(h, p) == h.(bm := SetPrev(h.bm[p := h.bm[p].(kind := Free)], p + h.bm[p].size, false),
                                 main := Push(h.main, FreeListIndex(h.bm[p].size), p))
  {
    var n := p + h.bm[p].size;
    BlockBounds(h, p);
    forall q | q in h.bm && p < q < n
      ensures false
    {
      NothingInside(h.bm, h.lo, h.hi, p, q);
    }
    assert Merge(h.bm, p, n) == SetPrev(h.bm[p := h.bm[p].(kind := Free)], n, false);
  }

  lemma FreeStep(t: State, p: int, c: int, s: seq<int>)
    requires Sound(t) && p in t.heap.bm && t.heap.bm[p].kind == Live && (p == t.heap.lo || t.heap.bm[p].prev)
    requires p + t.heap.bm[p].size in t.heap.bm && t.heap.bm[p + t.heap.bm[p].size].kind != Free
    requires QuickIndex(t.heap.bm[p].size) == -1 && 0 <= c < 10 && t.heap.main == Only(c, s)
    requires c == FreeListIndex(t.heap.bm[p].size)
    ensures Legal(t, DoFree(p + 16))
    ensures Step(t, DoFree(p + 16))
         == State(t.heap.(bm := SetPrev(t.heap.bm[p := t.heap.bm[p].(kind := Free)], p + t.heap.bm[p].size, false),
                          main := Only(c, [p] + s)),
                  t.held - {p + 16}, t.pages)
  {
    FreeAlone(t.heap, p);
    OnlyPushed(c, c, s, p);
    assert p in Lives(t.heap.bm);
  }

  // ----- the same inside a run -----

  lemma RunCut(s: State, ops: seq<Op>, t: State, request: int, c: int, x: int, d: int) returns (t': State)
    requires Sound(s) && Reaches(s, ops, t)
    requires 0 < request <= TWO64 - 24 && 0 <= c < 10
    requires t.heap.main == Only(c, [x]) && t.heap.quick == Only(0, [])
    requires FreeListIndex(AlignedBlock(request)) <= c
    requires x in t.heap.bm && t.heap.bm[x].size - AlignedBlock(request) >= MIN_BLOCK
    requires d == FreeListIndex(t.heap.bm[x].size - AlignedBlock(request))
    ensures var need := AlignedBlock(request);
            t'.heap == t.heap.(bm := TakeFirst(t.heap.bm, x, need), main := Only(d, [x + need]))
    ensures Reaches(s, ops + [DoMalloc(request)], t') && t'.pages == t.pages
  {
    hide Sound, Step, AlignedBlock, FreeListIndex, Only, TakeFirst, Reaches;
    ReachesThen(s, ops, t, DoMalloc(request));
    MallocCut(t, request, c, x, d);
    t' := Step(t, DoMalloc(request));
  }

  lemma RunWhole(s: State, ops: seq<Op>, t: State, request: int, c: int, x: int) returns (t': State)
    requires Sound(s) && Reaches(s, ops, t)
    requires 0 < request <= TWO64 - 24 && 0 <= c < 10
    requires t.heap.main == Only(c, [x]) && t.heap.quick == Only(0, [])
    requires FreeListIndex(AlignedBlock(request)) <= c
    requires x in t.heap.bm && 0 <= t.heap.bm[x].size - AlignedBlock(request) < MIN_BLOCK
    ensures t'.heap == t.heap.(bm := TakeWhole(t.heap.bm, x), main := Only(c, []))
    ensures Reaches(s, ops + [DoMalloc(request)], t') && t'.pages == t.pages
  {
    hide Sound, Step, AlignedBlock, FreeListIndex, Only, TakeWhole, Reaches;
    ReachesThen(s, ops, t, DoMalloc(request));
    MallocWhole(t, request, c, x);
    t' := Step(t, DoMalloc(request));
  }

  lemma RunFree(s: State, ops: seq<Op>, t: State, p: int, c: int, l: seq<int>) returns (t': State)
    requires Sound(s) && Reaches(s, ops, t)
    requires p in t.heap.bm && t.heap.bm[p].kind == Live && (p == t.heap.lo || t.heap.bm[p].prev)
    requires p + t.heap.bm[p].size in t.heap.bm && t.heap.bm[p + t.heap.bm[p].size].kind != Free
    requires QuickIndex(t.heap.bm[p].size) == -1 && 0 <= c < 10 && t.heap.main == Only(c, l)
    requires c == FreeListIndex(t.heap.bm[p].size)
    ensures t'.heap == t.heap.(
                         bm := SetPrev(t.heap.bm[p := t.heap.bm[p].(kind := Free)], p + t.heap.bm[p].size, false),
                         main := Only(c, [p] + l))
    ensures Reaches(s, ops + [DoFree(p + 16)], t') && t'.pages == t.pages
  {
    hide Sound, Step, QuickIndex, FreeListIndex, Only, SetPrev, Reaches;
    ReachesThen(s, ops, t, DoFree(p + 16));
    FreeStep(t, p, c, l);
    t' := Step(t, DoFree(p + 16));
  }

  lemma FirstIs(lo: int, pages: nat)
    requires lo > 0 && lo % 16 == 0
    ensures FirstState(lo, pages).heap == OnePage(lo, map[lo := Blk(4080, Free, false)], 7, [lo])
    ensures FirstState(lo, pages).pages == pages
    ensures Reaches(FirstState(lo, pages), [], FirstState(lo, pages))
  {
    var h := FirstHeap(lo);
    assert [lo] + [] == [lo];
    assert forall i :: 0 <= i < 10 ==> h.main[i] == Only(7, [lo])[i];
    assert forall i :: 0 <= i < 10 ==> h.quick[i] == Only(0, [])[i];
    assert h.main == Only(7, [lo]) && h.quick == Only(0, []);
  }

  // ----- one allocated block that fills the page -----

  function FullHeap(lo: int): Heap {
    OnePage(lo, map[lo := Blk(4080, Live, false)], 7, [])
  }

  lemma FullReached(lo: int, pages: nat) returns (t: State)
    requires lo > 0 && lo % 16 == 0
    ensures Reaches(FirstState(lo, pages), [DoMalloc(4072)], t) && t.heap == FullHeap(lo) && t.pages == pages
  {
    hide FirstState, Reaches;
    FirstIs(lo, pages);
    var s := FirstState(lo, pages);
    t := RunWhole(s, [], s, 4072, 7, lo);
    assert [] + [DoMalloc(4072)] == [DoMalloc(4072)];
    NothingAtEnd(s.heap.bm, s.heap.lo, s.heap.hi);
    assert TakeWhole(s.heap.bm, lo) == FullHeap(lo).bm;
  }

  lemma FullFacts(lo: int)
    requires WellFormed(FullHeap(lo))
    ensures var h := FullHeap(lo);
            && h.lo == lo && h.hi == lo + 4080 && lo in h.bm && h.bm[lo] == Blk(4080, Live, false)
            && h.hi !in h.bm && LastBlock(h) == lo && EndsAllocated(h) && h.main[8] == []
  {
    var h := FullHeap(lo);
    NothingAtEnd(h.bm, h.lo, h.hi);
    assert IsPrev(h.bm, LastBlock(h), h.hi);
  }

  /**
    Freeing the block leaves the flag set, and if the row behind it does not read as allocated merges a
    phantom. A page got with the flag set is on no list, and the next allocation takes the sentinel
    instead. What is split off the block is on no list either.
  */
  lemma FullGoesWrong(lo: int, pages: nat, w: int, tail: int) returns (t: State)
    requires 0 < lo < TWO64 - PAGE && lo % 16 == 0 && 0 <= w < TWO64
    ensures Reaches(FirstState(lo, pages), [DoMalloc(4072)], t) && Sound(t) && t.heap == FullHeap(lo)
    ensures lo in t.heap.bm && t.heap.bm[lo] == Blk(4080, Live, false) && EndsAllocated(t.heap)
    ensures !AllocBit(w) ==> FreeWritten(t.heap, w, lo) != FreeDocumented(t.heap, lo)
    ensures WellFormed(FreeMain(t.heap, lo)) && !EndsAllocated(FreeMain(t.heap, lo))
    ensures PageWritten(t.heap, true, tail) != PageDocumented(t.heap)
    ensures Removed(t.heap.bm, t.heap.main[8], Header(PAGE, false, true)) == TookSentinel
    ensures SplitWritten(t.heap, w, lo, 208) != SplitDocumented(t.heap, lo, 208)
  {
    t := FullReached(lo, pages);
    ReachesSound(FirstState(lo, pages), [DoMalloc(4072)], t);
    FullFacts(lo);
    hide FullHeap, WellFormed, Tiled, EndsAllocated, Reaches, FirstState, FreeMain, Removed, AllocBit;
    hide FreeWritten, FreeDocumented, PageWritten, PageDocumented, SplitWritten, SplitDocumented;
    hide TwinsConfused, Shadowed, HighEnd;
    FreeExactly(t.heap, w, lo);
    FlagFreedExact(t.heap, lo, true);
    PageExactly(t.heap, true, tail);
    UnlistedPageMissed(t.heap);
    SplitExactly(t.heap, w, lo, 208);
  }

  /** Taking the fresh page whole, with a row behind it that has a size, leaves the flag clear. */
  lemma FirstGoesWrong(lo: int, pages: nat, w: int)
    requires lo > 0 && lo % 16 == 0 && SizeField(w) != 0
    ensures var h := FirstState(lo, pages).heap;
            && WellFormed(h) && lo in h.bm && !EndsAllocated(h)
            && Malloc(h, 4072, pages).heap == Allocate(h, lo, 4080)
            && !FlagAllocated(h, w, lo, 4080, false) && EndsAllocated(Allocate(h, lo, 4080))
  {
    var s := FirstState(lo, pages);
    var h := s.heap;
    FirstIs(lo, pages);
    MallocHead(s, 4072, 7, [lo]);
    assert IsPrev(h.bm, LastBlock(h), h.hi);
    FindOnly(h.bm, 7, [lo], 7, 4080);
    FlagAllocatedExact(h, w, lo, 4080, false);
  }

  // ----- a free last block whose header tips over a class limit -----

  function EdgeHeap(lo: int): Heap {
    OnePage(lo, map[lo := Blk(2032, Live, false), lo + 2032 := Blk(2048, Free, true)], 6, [lo + 2032])
  }

  lemma EdgeReached(lo: int, pages: nat) returns (t: State)
    requires lo > 0 && lo % 16 == 0
    ensures Reaches(FirstState(lo, pages), [DoMalloc(2024)], t) && t.heap == EdgeHeap(lo) && t.pages == pages
  {
    hide FirstState, Reaches;
    FirstIs(lo, pages);
    var s := FirstState(lo, pages);
    t := RunCut(s, [], s, 2024, 7, lo, 6);
    assert [] + [DoMalloc(2024)] == [DoMalloc(2024)];
    assert TakeFirst(s.heap.bm, lo, 2032) == EdgeHeap(lo).bm;
  }

  lemma EdgeLast(lo: int)
    requires WellFormed(EdgeHeap(lo))
    ensures LastBlock(EdgeHeap(lo)) == lo + 2032 && lo + 2032 in EdgeHeap(lo).bm
    ensures EdgeHeap(lo).bm[lo + 2032] == Blk(2048, Free, true)
  {
    var h := EdgeHeap(lo);
    assert IsPrev(h.bm, LastBlock(h), h.hi);
  }

  /** The last block is alone on its list, and the page is not joined to it. */
  lemma EdgeGoesWrong(lo: int, pages: nat) returns (t: State)
    requires lo > 0 && lo % 16 == 0
    ensures Reaches(FirstState(lo, pages), [DoMalloc(2024)], t) && Sound(t) && t.heap == EdgeHeap(lo)
    ensures LastBlock(t.heap) == lo + 2032 && t.heap.bm[lo + 2032] == Blk(2048, Free, true)
    ensures PageWritten(t.heap, false, Word(Blk(2048, Free, true))) != PageDocumented(t.heap)
  {
    hide Reaches, FirstState;
    t := EdgeReached(lo, pages);
    ReachesSound(FirstState(lo, pages), [DoMalloc(2024)], t);
    EdgeLast(lo);
    hide EdgeHeap, WellFormed, Tiled, Shadowed, PageWritten, PageDocumented;
    PageExactly(t.heap, false, Word(Blk(2048, Free, true)));
  }

  // ----- a quick block before a free last block -----

  function QuickHeap(lo: int): Heap {
    Heap(lo, lo + 4080, map[lo := Blk(32, Quick, false), lo + 32 := Blk(4048, Free, true)],
         Only(7, [lo + 32]), Only(0, [lo]), seq(10, i => if i == 0 then 1 else 0))
  }

  lemma QuickCut(lo: int, pages: nat) returns (t: State)
    requires lo > 0 && lo % 16 == 0
    ensures Reaches(FirstState(lo, pages), [DoMalloc(24)], t)
    ensures t.heap == OnePage(lo, TakeFirst(map[lo := Blk(4080, Free, false)], lo, 32), 7, [lo + 32])
  {
    hide FirstState, Reaches, TakeFirst;
    FirstIs(lo, pages);
    var s := FirstState(lo, pages);
    t := RunCut(s, [], s, 24, 7, lo, 7);
    assert [] + [DoMalloc(24)] == [DoMalloc(24)];
  }

  lemma QuickReached(lo: int, pages: nat) returns (t: State)
    requires lo > 0 && lo % 16 == 0
    ensures Reaches(FirstState(lo, pages), [DoMalloc(24), DoFree(lo + 16)], t) && t.heap == QuickHeap(lo)
  {
    hide *;
    FirstIs(lo, pages);
    var s := FirstState(lo, pages);
    var t1 := QuickCut(lo, pages);
    assert [DoMalloc(24)] + [DoFree(lo + 16)] == [DoMalloc(24), DoFree(lo + 16)];
    ReachesThen(s, [DoMalloc(24)], t1, DoFree(lo + 16));
    QuickStep(lo, t1);
    t := Step(t1, DoFree(lo + 16));
  }

  lemma QuickStep(lo: int, t: State)
    requires lo > 0 && lo % 16 == 0 && Sound(t)
    requires t.heap == OnePage(lo, TakeFirst(map[lo := Blk(4080, Free, false)], lo, 32), 7, [lo + 32])
    ensures Legal(t, DoFree(lo + 16)) && Step(t, DoFree(lo + 16)).heap == QuickHeap(lo)
  {
    var h, q := t.heap, QuickHeap(lo);
    assert lo in Lives(h.bm);
    var f := ToQuick(h, lo, 1);
    assert [lo] + [] == [lo];
    assert f.bm == q.bm && f.quick == q.quick && f.counter == q.counter;
  }

  lemma QuickFacts(lo: int)
    requires WellFormed(QuickHeap(lo))
    ensures var h := QuickHeap(lo);
            && h.hi == lo + 4080 && |h.quick| == 10 && h.quick[0] == [lo]
            && lo in h.bm && h.bm[lo] == Blk(32, Quick, false)
            && lo + 32 in h.bm && h.bm[lo + 32] == Blk(4048, Free, true) && !EndsAllocated(h)
  {
    var h := QuickHeap(lo);
    assert IsPrev(h.bm, LastBlock(h), h.hi);
  }

  /** Popping the quick block raises the flag, though the heap still ends with a free block. */
  lemma QuickGoesWrong(lo: int, pages: nat, w: int) returns (t: State)
    requires lo > 0 && lo % 16 == 0
    ensures Reaches(FirstState(lo, pages), [DoMalloc(24), DoFree(lo + 16)], t) && Sound(t) && t.heap == QuickHeap(lo)
    ensures t.heap.quick[0] == [lo] && lo in t.heap.bm && !EndsAllocated(t.heap)
    ensures WellFormed(FromQuick(t.heap, 0, 1)) && !EndsAllocated(FromQuick(t.heap, 0, 1))
    ensures FlagPopped(t.heap, w, 0, false)
  {
    hide Reaches, FirstState;
    t := QuickReached(lo, pages);
    ReachesSound(FirstState(lo, pages), [DoMalloc(24), DoFree(lo + 16)], t);
    QuickFacts(lo);
    hide QuickHeap, WellFormed, Tiled, EndsAllocated, FromQuick, SizeField;
    FlagPoppedExact(t.heap, w, 0, false);
  }

  // ----- free blocks of one size between allocated ones -----

  /**
    Six blocks fill the page. Of the four of 208 bytes the first, third and fifth can be freed without
    coalescing; the last block is allocated.
  */
  function SixBlocks(lo: int, free1: bool, free3: bool, free5: bool): Blocks {
    map[lo := Blk(208, if free1 then Free else Live, false),
        lo + 208 := Blk(400, Live, !free1),
        lo + 608 := Blk(208, if free3 then Free else Live, true),
        lo + 816 := Blk(208, Live, !free3),
        lo + 1024 := Blk(208, if free5 then Free else Live, true),
        lo + 1232 := Blk(2848, Live, !free5)]
  }

  function CrowdedHeap(lo: int, first: bool): Heap {
    OnePage(lo, SixBlocks(lo, first, true, true), 3, if first then [lo, lo + 1024, lo + 608] else [lo + 1024, lo + 608])
  }

  function Mallocs(): seq<Op> {
    [DoMalloc(200), DoMalloc(392), DoMalloc(200), DoMalloc(200), DoMalloc(200), DoMalloc(2840)]
  }

  function CrowdingOps(lo: int, first: bool): seq<Op> {
    Mallocs() + [DoFree(lo + 608 + 16)] + [DoFree(lo + 1024 + 16)] + if first then [DoFree(lo + 16)] else []
  }

  /** The first blocks of the page, and a free one behind them. */
  function FirstBlocks(lo: int, n: nat): Blocks {
    match n
    case 0 => map[lo := Blk(4080, Free, false)]
    case 1 => map[lo := Blk(208, Live, false), lo + 208 := Blk(3872, Free, true)]
    case 2 => map[lo := Blk(208, Live, false), lo + 208 := Blk(400, Live, true), lo + 608 := Blk(3472, Free, true)]
    case 3 => map[lo := Blk(208, Live, false), lo + 208 := Blk(400, Live, true), lo + 608 := Blk(208, Live, true),
                  lo + 816 := Blk(3264, Free, true)]
    case 4 => map[lo := Blk(208, Live, false), lo + 208 := Blk(400, Live, true), lo + 608 := Blk(208, Live, true),
                  lo + 816 := Blk(208, Live, true), lo + 1024 := Blk(3056, Free, true)]
    case _ => map[lo := Blk(208, Live, false), lo + 208 := Blk(400, Live, true), lo + 608 := Blk(208, Live, true),
                  lo + 816 := Blk(208, Live, true), lo + 1024 := Blk(208, Live, true), lo + 1232 := Blk(2848, Free, true)]
  }

  lemma CutBlocks(lo: int)
    ensures FirstBlocks(lo, 1) == TakeFirst(FirstBlocks(lo, 0), lo, 208)
    ensures FirstBlocks(lo, 2) == TakeFirst(FirstBlocks(lo, 1), lo + 208, 400)
    ensures FirstBlocks(lo, 3) == TakeFirst(FirstBlocks(lo, 2), lo + 608, 208)
    ensures FirstBlocks(lo, 4) == TakeFirst(FirstBlocks(lo, 3), lo + 816, 208)
    ensures FirstBlocks(lo, 5) == TakeFirst(FirstBlocks(lo, 4), lo + 1024, 208)
  {
  }

  lemma WholeBlock(lo: int)
    ensures SixBlocks(lo, false, false, false) == TakeWhole(FirstBlocks(lo, 5), lo + 1232)
  {
  }

  /** Where the free block behind the first n blocks begins, and the request that is cut off it next. */
  function Offset(n: nat): int {
    match n case 0 => 0 case 1 => 208 case 2 => 608 case 3 => 816 case 4 => 1024 case _ => 1232
  }

  function Request(n: nat): int {
    if n == 1 then 392 else 200
  }

  lemma BehindFirst(lo: int, n: nat)
    requires n < 5
    ensures var x, need := lo + Offset(n), AlignedBlock(Request(n));
            && x in FirstBlocks(lo, n)
            && FirstBlocks(lo, n)[x].size - need >= MIN_BLOCK && FreeListIndex(need) <= 7
            && FreeListIndex(FirstBlocks(lo, n)[x].size - need) == 7
            && TakeFirst(FirstBlocks(lo, n), x, need) == FirstBlocks(lo, n + 1) && x + need == lo + Offset(n + 1)
  {
    CutBlocks(lo);
  }

  lemma {:induction false} FirstReached(lo: int, pages: nat, n: nat) returns (t: State)
    requires lo > 0 && lo % 16 == 0 && n <= 5
    ensures Reaches(FirstState(lo, pages), Mallocs()[..n], t)
    ensures t.heap == OnePage(lo, FirstBlocks(lo, n), 7, [lo + Offset(n)])
  {
    hide FirstState, Reaches, TakeFirst, AlignedBlock, FreeListIndex;
    FirstIs(lo, pages);
    if n == 0 {
      t := FirstState(lo, pages);
    } else {
      hide FirstBlocks;
      var t0 := FirstReached(lo, pages, n - 1);
      BehindFirst(lo, n - 1);
      t := RunCut(FirstState(lo, pages), Mallocs()[..n - 1], t0, Request(n - 1), 7, lo + Offset(n - 1), 7);
      assert Mallocs()[..n] == Mallocs()[..n - 1] + [DoMalloc(Request(n - 1))];
    }
  }

  lemma SixReached(lo: int, pages: nat) returns (t: State)
    requires lo > 0 && lo % 16 == 0
    ensures Reaches(FirstState(lo, pages), Mallocs(), t)
    ensures t.heap == OnePage(lo, SixBlocks(lo, false, false, false), 7, [])
  {
    hide FirstState, Reaches, TakeWhole;
    var t0 := FirstReached(lo, pages, 5);
    assert FirstBlocks(lo, 5)[lo + 1232] == Blk(2848, Free, true);
    WholeBlock(lo);
    t := RunWhole(FirstState(lo, pages), Mallocs()[..5], t0, 2840, 7, lo + 1232);
    assert Mallocs() == Mallocs()[..5] + [DoMalloc(2840)];
  }

  lemma FreedBlocks(lo: int)
    ensures SixBlocks(lo, false, true, false)
         == SetPrev(SixBlocks(lo, false, false, false)[lo + 608 := Blk(208, Free, true)], lo + 816, false)
    ensures SixBlocks(lo, false, true, true)
         == SetPrev(SixBlocks(lo, false, true, false)[lo + 1024 := Blk(208, Free, true)], lo + 1232, false)
    ensures SixBlocks(lo, true, true, true)
         == SetPrev(SixBlocks(lo, false, true, true)[lo := Blk(208, Free, false)], lo + 208, false)
  {
  }

  lemma CrowdedReached(lo: int, pages: nat, first: bool) returns (t: State)
    requires lo > 0 && lo % 16 == 0
    ensures Reaches(FirstState(lo, pages), CrowdingOps(lo, first), t) && t.heap == CrowdedHeap(lo, first)
  {
    hide FirstState, Reaches, SetPrev, Mallocs;
    var s := FirstState(lo, pages);
    t := SixReached(lo, pages);
    FreedBlocks(lo);
    assert Only(7, []) == Only(3, []);
    t := RunFree(s, Mallocs(), t, lo + 608, 3, []);
    assert [lo + 608] + [] == [lo + 608];
    t := RunFree(s, Mallocs() + [DoFree(lo + 608 + 16)], t, lo + 1024, 3, [lo + 608]);
    assert [lo + 1024] + [lo + 608] == [lo + 1024, lo + 608];
    if first {
      t := RunFree(s, Mallocs() + [DoFree(lo + 608 + 16)] + [DoFree(lo + 1024 + 16)], t, lo, 3, [lo + 1024, lo + 608]);
      assert [lo] + [lo + 1024, lo + 608] == [lo, lo + 1024, lo + 608];
    } else {
      var ops := Mallocs() + [DoFree(lo + 608 + 16)] + [DoFree(lo + 1024 + 16)];
      assert ops + [] == ops;
    }
  }

  lemma CrowdedFacts(lo: int, first: bool)
    requires WellFormed(CrowdedHeap(lo, first))
    ensures var h := CrowdedHeap(lo, first);
            && h.lo == lo && h.hi == lo + 4080 && lo + 816 in h.bm && h.bm[lo + 816] == Blk(208, Live, false)
            && LowEnd(h.bm, h.lo, h.hi, lo + 816) == lo + 608 && h.bm[lo + 608] == Blk(208, Free, true)
            && lo + 1024 in h.bm && h.bm[lo + 1024] == Blk(208, Free, true)
            && lo + 208 in h.bm && h.bm[lo + 208] == Blk(400, Live, !first)
            && lo in h.bm && h.bm[lo] == Blk(208, if first then Free else Live, false)
            && lo + 1232 in h.bm && h.bm[lo + 1232] == Blk(2848, Live, false)
            && FreeListIndex(208) == 3
            && h.main[3] == if first then [lo, lo + 1024, lo + 608] else [lo + 1024, lo + 608]
  {
    var h := CrowdedHeap(lo, first);
    assert IsPrev(h.bm, lo + 608, lo + 816);
    PrevIsUnique(h.bm, h.lo, h.hi, lo + 816, lo + 608, LowEnd(h.bm, h.lo, h.hi, lo + 816));
  }

  lemma FirstOfThree(bm: Blocks, x: int, y: int, z: int, word: int)
    requires x in bm && y in bm && z in bm && Word(bm[z]) == word
    ensures Removed(bm, [x, y, z], word)
         == Took(if Word(bm[x]) == word then x else if Word(bm[y]) == word then y else z)
  {
    assert [x, y, z][1..] == [y, z];
    assert [y, z][1..] == [z];
    assert FirstEqual(bm, [z], word) == Some(z);
    assert FirstEqual(bm, [y, z], word) == Some(if Word(bm[y]) == word then y else z);
  }

  lemma WithoutThird(x: int, y: int, z: int)
    requires x != z && y != z
    ensures Without([x, y, z], z) == [x, y]
  {
    assert [x, y, z][1..] == [y, z];
    assert [y, z][1..] == [z];
    assert [z][1..] == [];
    assert Without([z], z) == [];
    assert Without([y, z], z) == [y];
  }

  /** With the bit of the fifth block cleared: the third is taken right, and the first for the fifth. */
  lemma CrowdedTaken(h: Heap, lo: int, w: int)
    requires WellFormed(h) && h == CrowdedHeap(lo, true)
    ensures lo + 816 in h.bm && h.bm[lo + 816].kind == Live
    ensures LowerTaken(h, lo + 816) == [Took(lo + 608)] && UpperTaken(h, w, lo + 816) == [Took(lo)]
  {
    CrowdedFacts(lo, true);
    hide CrowdedHeap, WellFormed, Tiled, LowEnd;
    var bm1, s := SetPrev(h.bm, lo + 1024, false), [lo, lo + 1024, lo + 608];
    FirstOfThree(bm1, lo, lo + 1024, lo + 608, Header(208, false, true));
    WithoutThird(lo, lo + 1024, lo + 608);
    assert Removed(bm1, [lo, lo + 1024], Header(208, false, false)) == Took(lo);
  }

  lemma CrowdedFree(h: Heap, lo: int, w: int)
    requires WellFormed(h) && 0 <= w < TWO64 && 0 < lo < TWO64 - PAGE
    requires lo + 816 in h.bm && h.bm[lo + 816].kind == Live && h == CrowdedHeap(lo, true)
    ensures FreeDocumented(h, lo + 816).taken == [Took(lo + 608), Took(lo + 1024)]
    ensures MergedWord(h, w, lo + 816) != FreeDocumented(h, lo + 816).word
  {
    CrowdedFacts(lo, true);
    hide CrowdedHeap, WellFormed, Tiled, AllocBit, SizeField;
    MergedHeaderExact(h, w, lo + 816);
  }

  lemma CrowdedCut(h: Heap, lo: int, w: int)
    requires WellFormed(h) && lo + 208 in h.bm && h.bm[lo + 208] == Blk(400, Live, false)
    requires h == CrowdedHeap(lo, true)
    ensures SplitWritten(h, w, lo + 208, 208).taken == [Took(lo + 1024)]
    ensures SplitDocumented(h, lo + 208, 208).taken == [Took(lo + 608)]
  {
    CrowdedFacts(lo, true);
    hide CrowdedHeap, WellFormed, Tiled, AllocBit, SizeField, SplitDocumented;
    SplitJoins(h, lo + 208, 208);
    FirstOfThree(h.bm, lo, lo + 1024, lo + 608, Header(208, false, true));
  }

  /**
    Between two free blocks of 208 bytes, with a third at the start of the heap, freeing drops a bit and
    unlinks the wrong block; cutting the block before them unlinks another wrong one.
  */
  lemma CrowdedGoesWrong(lo: int, pages: nat, w: int) returns (t: State)
    requires 0 < lo < TWO64 - PAGE && lo % 16 == 0 && 0 <= w < TWO64
    ensures Reaches(FirstState(lo, pages), CrowdingOps(lo, true), t) && Sound(t)
    ensures lo + 816 in t.heap.bm && t.heap.bm[lo + 816] == Blk(208, Live, false)
    ensures UpperTaken(t.heap, w, lo + 816) == [Took(lo)]
    ensures FreeDocumented(t.heap, lo + 816).taken == [Took(lo + 608), Took(lo + 1024)]
    ensures MergedWord(t.heap, w, lo + 816) != FreeDocumented(t.heap, lo + 816).word
    ensures lo + 208 in t.heap.bm && t.heap.bm[lo + 208] == Blk(400, Live, false)
    ensures SplitWritten(t.heap, w, lo + 208, 208).taken == [Took(lo + 1024)]
    ensures SplitDocumented(t.heap, lo + 208, 208).taken == [Took(lo + 608)]
    ensures t.heap == CrowdedHeap(lo, true)
  {
    hide CrowdedHeap, CrowdingOps, WellFormed, Tiled, Reaches, FirstState;
    t := CrowdedReached(lo, pages, true);
    ReachesSound(FirstState(lo, pages), CrowdingOps(lo, true), t);
    CrowdedFacts(lo, true);
    hide *;
    CrowdedTaken(t.heap, lo, w);
    CrowdedFree(t.heap, lo, w);
    CrowdedCut(t.heap, lo, w);
  }

  /** Before the first block is freed: taking the fifth whole leaves the last block's bit clear. */
  lemma CrowdedUnmarked(lo: int, pages: nat) returns (t: State)
    requires lo > 0 && lo % 16 == 0
    ensures Reaches(FirstState(lo, pages), CrowdingOps(lo, false), t) && Sound(t) && t.heap == CrowdedHeap(lo, false)
    ensures lo + 1024 in t.heap.bm && Malloc(t.heap, 200, pages).heap == Allocate(t.heap, lo + 1024, 208)
    ensures MarkedAsWritten(t.heap.bm, lo + 1024, t.heap.hi) != Allocate(t.heap, lo + 1024, 208).bm
  {
    t := CrowdedReached(lo, pages, false);
    ReachesSound(FirstState(lo, pages), CrowdingOps(lo, false), t);
    var h := t.heap;
    CrowdedFacts(lo, false);
    MallocHead(t, 200, 3, [lo + 1024, lo + 608]);
    FindOnly(h.bm, 3, [lo + 1024, lo + 608], 3, 208);
    hide CrowdedHeap, CrowdingOps, Reaches, FirstState;
    MarkedExact(h, lo + 1024);
  }
}
