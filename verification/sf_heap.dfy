/**
  The documented behaviour of the heap in hw3/src/sfmm.c, with headers, footers and link words
  left out: which blocks tile the heap, what their status bits say, and what each list holds.
  Addresses are byte addresses; a block at p is the interval of `size` bytes that begins at p.
*/
module SfHeap {
  import opened SfSizes

  /** Quick blocks sit on a quick list and are still marked allocated in their headers. */
  datatype Kind = Free | Quick | Live

  datatype Blk = Blk(size: int, kind: Kind, prev: bool)

  type Blocks = map<int, Blk>

  type Lists = seq<seq<int>>

  // ----- the blocks tile the heap -----

  /** What is true of the block at p: its shape, and what its successor's header says about it. */
  predicate Placed(bm: Blocks, lo: int, hi: int, p: int)
    requires p in bm
  {
    var b := bm[p];
    var n := p + b.size;
    && lo <= p && p % 16 == 0
    && b.size >= MIN_BLOCK && b.size % 16 == 0
    && n <= hi
    && (n != hi ==>
          && n in bm
          && bm[n].prev == (b.kind != Free)
          && !(b.kind == Free && bm[n].kind == Free))
  }

  predicate Apart(bm: Blocks, p: int, q: int)
    requires p in bm
  {
    p < q ==> p + bm[p].size <= q
  }

  /** The blocks cover [lo, hi) exactly, status bits are right, and no two free blocks touch. */
  ghost predicate Tiled(bm: Blocks, lo: int, hi: int) {
    && 0 < lo && lo % 16 == 0 && hi % 16 == 0
    && lo in bm && !bm[lo].prev
    && (forall p {:trigger Placed(bm, lo, hi, p)} :: p in bm ==> Placed(bm, lo, hi, p))
    && (forall p, q {:trigger Apart(bm, p, q)} :: p in bm && q in bm ==> Apart(bm, p, q))
  }

  lemma NothingInside(bm: Blocks, lo: int, hi: int, p: int, q: int)
    requires Tiled(bm, lo, hi) && p in bm && p < q < p + bm[p].size
    ensures q !in bm
  {
    assert q in bm ==> Apart(bm, p, q);
  }

  lemma NothingAtEnd(bm: Blocks, lo: int, hi: int)
    requires Tiled(bm, lo, hi)
    ensures hi !in bm
  {
    assert hi in bm ==> Placed(bm, lo, hi, hi);
  }

  lemma SuccessorNotFree(bm: Blocks, lo: int, hi: int, p: int)
    requires Tiled(bm, lo, hi) && p in bm && bm[p].kind == Free && p + bm[p].size in bm
    ensures bm[p + bm[p].size].kind != Free
  {
    assert Placed(bm, lo, hi, p);
    NothingAtEnd(bm, lo, hi);
  }

  // ----- the predecessor of a block -----

  predicate IsPrev(bm: Blocks, q: int, p: int) {
    q in bm && q + bm[q].size == p
  }

  /** Walking from block to block reaches every block and the end, so each has a predecessor. */
  lemma {:induction false} WalkReaches(bm: Blocks, lo: int, hi: int, q: int, p: int)
    requires Tiled(bm, lo, hi) && q in bm && (p in bm || p == hi) && q < p
    ensures exists r :: IsPrev(bm, r, p)
    decreases p - q
  {
    assert Placed(bm, lo, hi, q) && (p in bm ==> Placed(bm, lo, hi, p) && Apart(bm, q, p));
    var n := q + bm[q].size;
    if n == p {
      assert IsPrev(bm, q, p);
    } else {
      WalkReaches(bm, lo, hi, n, p);
    }
  }

  ghost function PrevOf(bm: Blocks, lo: int, hi: int, p: int): (q: int)
    requires Tiled(bm, lo, hi) && (p in bm || p == hi) && p != lo
    ensures IsPrev(bm, q, p)
  {
    assert Placed(bm, lo, hi, lo) && (p in bm ==> Placed(bm, lo, hi, p));
    WalkReaches(bm, lo, hi, lo, p);
    var q :| IsPrev(bm, q, p);
    q
  }

  lemma PrevIsUnique(bm: Blocks, lo: int, hi: int, p: int, q: int, r: int)
    requires Tiled(bm, lo, hi) && IsPrev(bm, q, p) && IsPrev(bm, r, p)
    ensures q == r
  {
    assert Apart(bm, q, r) && Apart(bm, r, q) && Placed(bm, lo, hi, q) && Placed(bm, lo, hi, r);
  }

  // ----- the lists -----

  predicate Distinct(s: seq<int>) {
    forall i, j :: 0 <= i < j < |s| ==> s[i] != s[j]
  }

  predicate OnMain(bm: Blocks, c: int, x: int) {
    x in bm && bm[x].kind == Free && FreeListIndex(bm[x].size) == c
  }

  /** Main list c holds, once each, exactly the free blocks of size class c, save those in `off`. */
  ghost predicate MainOff(bm: Blocks, main: Lists, off: set<int>) {
    && |main| == 10
    && (forall c :: 0 <= c < 10 ==> Distinct(main[c]))
    && (forall c, x {:trigger OnMain(bm, c, x)} :: 0 <= c < 10 ==>
          (x in main[c] <==> OnMain(bm, c, x) && x !in off))
  }

  ghost predicate MainOK(bm: Blocks, main: Lists) {
    MainOff(bm, main, {})
  }

  predicate OnQuick(bm: Blocks, k: int, x: int) {
    x in bm && bm[x].kind == Quick && QuickIndex(bm[x].size) == k
  }

  /** Quick list k holds, once each, exactly the quick blocks of size 32 + 16k, at most five. */
  ghost predicate QuickOK(bm: Blocks, quick: Lists, counter: seq<int>) {
    && |quick| == 10 && |counter| == 10
    && (forall k :: 0 <= k < 10 ==> Distinct(quick[k]) && |quick[k]| <= counter[k] <= 5)
    && (forall k, x {:trigger OnQuick(bm, k, x)} :: 0 <= k < 10 ==> (x in quick[k] <==> OnQuick(bm, k, x)))
    && (forall x {:trigger OnQuick(bm, -1, x)} :: !OnQuick(bm, -1, x))
  }

  // ----- list edits -----

  /** The list with the first occurrence of x unlinked. */
  function Without(s: seq<int>, x: int): seq<int> {
    if s == [] then [] else if s[0] == x then s[1..] else [s[0]] + Without(s[1..], x)
  }

  lemma {:induction false} WithoutKeepsRest(s: seq<int>, x: int)
    requires Distinct(s)
    ensures Distinct(Without(s, x))
    ensures forall y :: y in Without(s, x) <==> y in s && y != x
    ensures |Without(s, x)| == if x in s then |s| - 1 else |s|
  {
    if s != [] {
      assert Distinct(s[1..]) by {
        assert forall i :: 0 <= i < |s[1..]| ==> s[1..][i] == s[i + 1];
      }
      WithoutKeepsRest(s[1..], x);
      assert s[0] !in s[1..];
      assert forall y :: y in s <==> y == s[0] || y in s[1..];
      if s[0] != x {
        var t := Without(s[1..], x);
        assert forall i, j :: 0 <= i < j < |[s[0]] + t| ==> ([s[0]] + t)[i] != ([s[0]] + t)[j];
      }
    }
  }

  function Detach(lists: Lists, c: int, x: int): Lists
    requires 0 <= c < |lists|
  {
    lists[c := Without(lists[c], x)]
  }

  function Push(lists: Lists, c: int, x: int): Lists
    requires 0 <= c < |lists|
  {
    lists[c := [x] + lists[c]]
  }

  lemma DetachTakesOff(bm: Blocks, main: Lists, off: set<int>, x: int)
    requires MainOff(bm, main, off) && x in bm && bm[x].kind == Free
    ensures MainOff(bm, Detach(main, FreeListIndex(bm[x].size), x), off + {x})
  {
    var c0 := FreeListIndex(bm[x].size);
    WithoutKeepsRest(main[c0], x);
    forall c, y | 0 <= c < 10
      ensures y in Detach(main, c0, x)[c] <==> OnMain(bm, c, y) && y !in off + {x}
    {
      assert y in main[c] <==> OnMain(bm, c, y) && y !in off;
    }
  }

  lemma PushPutsOn(bm: Blocks, main: Lists, off: set<int>, x: int)
    requires MainOff(bm, main, off) && x in off && x in bm && bm[x].kind == Free
    ensures MainOff(bm, Push(main, FreeListIndex(bm[x].size), x), off - {x})
  {
    var c0 := FreeListIndex(bm[x].size);
    assert x in main[c0] <==> OnMain(bm, c0, x) && x !in off;
    forall c, y | 0 <= c < 10
      ensures y in Push(main, c0, x)[c] <==> OnMain(bm, c, y) && y !in off - {x}
    {
      assert y in main[c] <==> OnMain(bm, c, y) && y !in off;
    }
  }

  /** Blocks off the lists may change at will. */
  lemma OffIsUnseen(bm: Blocks, bm': Blocks, main: Lists, off: set<int>, off': set<int>)
    requires MainOff(bm, main, off)
    requires forall x :: x in bm && bm[x].kind == Free && x !in off
                <==> x in bm' && bm'[x].kind == Free && x !in off'
    requires forall x :: x in bm && bm[x].kind == Free && x !in off ==> bm'[x].size == bm[x].size
    ensures MainOff(bm', main, off')
  {
    forall c, x | 0 <= c < 10
      ensures x in main[c] <==> OnMain(bm', c, x) && x !in off'
    {
      assert x in main[c] <==> OnMain(bm, c, x) && x !in off;
    }
  }

  // ----- the whole heap -----

  datatype Heap = Heap(
    lo: int,                 // first block
    hi: int,                 // just past the last block
    bm: Blocks,              // the blocks by address
    main: Lists,             // the ten segregated free lists
    quick: Lists,            // the ten quick lists
    counter: seq<int>)       // how full the code believes each quick list to be

  ghost predicate WellFormed(h: Heap) {
    Tiled(h.bm, h.lo, h.hi) && MainOK(h.bm, h.main) && QuickOK(h.bm, h.quick, h.counter)
  }

  predicate GoodSize(n: int) {
    n >= MIN_BLOCK && n % 16 == 0
  }

  function SetPrev(bm: Blocks, p: int, prev: bool): Blocks {
    if p in bm then bm[p := bm[p].(prev := prev)] else bm
  }

  // ----- allocation from a main list -----

  /** The free block p becomes live, whole. */
  function TakeWhole(bm: Blocks, p: int): Blocks
    requires p in bm
  {
    SetPrev(bm[p := bm[p].(kind := Live)], p + bm[p].size, true)
  }

  /** The block p is cut: its first `need` bytes live, the rest a free block. */
  function TakeFirst(bm: Blocks, p: int, need: int): Blocks
    requires p in bm
  {
    bm[p := Blk(need, Live, bm[p].prev)][p + need := Blk(bm[p].size - need, Free, true)]
  }

  /** allocate_no_splitting and allocate_splitting: p becomes live, less what can be split off. */
  function Allocate(h: Heap, p: int, need: int): Heap
    requires p in h.bm && |h.main| == 10
  {
    var size := h.bm[p].size;
    var main := Detach(h.main, FreeListIndex(size), p);
    if size - need < MIN_BLOCK then
      h.(bm := TakeWhole(h.bm, p), main := main)
    else
      h.(bm := TakeFirst(h.bm, p, need), main := Push(main, FreeListIndex(size - need), p + need))
  }

  lemma TakeWholeTiles(bm: Blocks, lo: int, hi: int, p: int)
    requires Tiled(bm, lo, hi) && p in bm && bm[p].kind == Free
    ensures Tiled(TakeWhole(bm, p), lo, hi)
  {
    var bm' := TakeWhole(bm, p);
    assert Placed(bm, lo, hi, p);
    forall q | q in bm'
      ensures Placed(bm', lo, hi, q)
    {
      assert Placed(bm, lo, hi, q);
      if IsPrev(bm, q, p + bm[p].size) {
        PrevIsUnique(bm, lo, hi, p + bm[p].size, q, p);
      }
    }
    forall q, r | q in bm' && r in bm'
      ensures Apart(bm', q, r)
    {
      assert Apart(bm, q, r);
    }
  }

  /** Cutting a block in two leaves all blocks apart. */
  lemma CutApart(bm: Blocks, bm': Blocks, lo: int, hi: int, p: int, need: int)
    requires Tiled(bm, lo, hi) && p in bm && 0 < need < bm[p].size
    requires bm'.Keys == bm.Keys + {p + need}
    requires bm'[p].size == need && bm'[p + need].size == bm[p].size - need
    requires forall q :: q in bm && q != p ==> bm'[q].size == bm[q].size
    ensures forall q, r :: q in bm' && r in bm' ==> Apart(bm', q, r)
  {
    NothingInside(bm, lo, hi, p, p + need);
    forall q, r | q in bm' && r in bm'
      ensures Apart(bm', q, r)
    {
      var q0, r0 := if q == p + need then p else q, if r == p + need then p else r;
      assert Apart(bm, q0, r0) && Apart(bm, p, r0) && Apart(bm, p, q0);
    }
  }

  lemma TakeFirstPlaced(bm: Blocks, lo: int, hi: int, p: int, need: int, q: int)
    requires Tiled(bm, lo, hi) && p in bm && bm[p].kind == Free && p + need !in bm
    requires GoodSize(need) && bm[p].size - need >= MIN_BLOCK
    requires q in bm || q == p + need
    ensures Placed(TakeFirst(bm, p, need), lo, hi, q)
  {
    assert Placed(bm, lo, hi, p);
    assert q in bm ==> Placed(bm, lo, hi, q);
    NothingAtEnd(bm, lo, hi);
  }

  lemma TakeFirstTiles(bm: Blocks, lo: int, hi: int, p: int, need: int)
    requires Tiled(bm, lo, hi) && p in bm && bm[p].kind == Free
    requires GoodSize(need) && bm[p].size - need >= MIN_BLOCK
    ensures p + need !in bm
    ensures Tiled(TakeFirst(bm, p, need), lo, hi)
  {
    hide Placed, Apart;
    var bm' := TakeFirst(bm, p, need);
    NothingInside(bm, lo, hi, p, p + need);
    CutApart(bm, bm', lo, hi, p, need);
    forall q | q in bm'
      ensures Placed(bm', lo, hi, q)
    {
      TakeFirstPlaced(bm, lo, hi, p, need, q);
    }
  }

  lemma AllocateKeepsMain(h: Heap, p: int, need: int)
    requires WellFormed(h) && p in h.bm && h.bm[p].kind == Free && GoodSize(need) && need <= h.bm[p].size
    ensures MainOK(Allocate(h, p, need).bm, Allocate(h, p, need).main)
  {
    var bm, size := h.bm, h.bm[p].size;
    var main := Detach(h.main, FreeListIndex(size), p);
    DetachTakesOff(bm, h.main, {}, p);
    assert {} + {p} == {p};
    if size - need < MIN_BLOCK {
      if p + size in bm {
        SuccessorNotFree(bm, h.lo, h.hi, p);
      }
      OffIsUnseen(bm, TakeWhole(bm, p), main, {p}, {});
    } else {
      TakeFirstTiles(bm, h.lo, h.hi, p, need);
      OffIsUnseen(bm, TakeFirst(bm, p, need), main, {p}, {p + need});
      PushPutsOn(TakeFirst(bm, p, need), main, {p + need}, p + need);
      assert {p + need} - {p + need} == {};
    }
  }

  /** Quick lists depend on the quick blocks alone. */
  lemma QuickUnseen(bm: Blocks, bm': Blocks, quick: Lists, counter: seq<int>)
    requires QuickOK(bm, quick, counter)
    requires forall x :: x in bm && bm[x].kind == Quick <==> x in bm' && bm'[x].kind == Quick
    requires forall x :: x in bm && bm[x].kind == Quick ==> bm'[x].size == bm[x].size
    ensures QuickOK(bm', quick, counter)
  {
    forall k, x | -1 <= k < 10
      ensures OnQuick(bm', k, x) == OnQuick(bm, k, x)
    {
    }
  }

  lemma AllocateKeepsHeap(h: Heap, p: int, need: int)
    requires WellFormed(h) && p in h.bm && h.bm[p].kind == Free && GoodSize(need) && need <= h.bm[p].size
    ensures WellFormed(Allocate(h, p, need))
  {
    AllocateKeepsMain(h, p, need);
    var bm' := Allocate(h, p, need).bm;
    if h.bm[p].size - need < MIN_BLOCK {
      TakeWholeTiles(h.bm, h.lo, h.hi, p);
    } else {
      TakeFirstTiles(h.bm, h.lo, h.hi, p, need);
    }
    QuickUnseen(h.bm, bm', h.quick, h.counter);
  }

  // ----- returning a block to the main lists -----

  /** All blocks in [a, z) become one free block. */
  function Merge(bm: Blocks, a: int, z: int): Blocks
    requires a in bm
  {
    map q | q in bm && (q <= a || z <= q) ::
      if q == a then Blk(z - a, Free, bm[a].prev)
      else if q == z then bm[q].(prev := false)
      else bm[q]
  }

  /** [a, z) is a run of whole blocks with no free block at either side. */
  ghost predicate MergeRange(bm: Blocks, lo: int, hi: int, a: int, z: int) {
    && a in bm && (bm[a].prev || a == lo)
    && a + bm[a].size <= z <= hi
    && (z == hi || (z in bm && bm[z].kind != Free))
  }

  lemma MergePlaced(bm: Blocks, lo: int, hi: int, a: int, z: int, q: int)
    requires Tiled(bm, lo, hi) && MergeRange(bm, lo, hi, a, z) && q in bm && (q <= a || z <= q)
    ensures Placed(Merge(bm, a, z), lo, hi, q)
  {
    assert Placed(bm, lo, hi, q) && Placed(bm, lo, hi, a) && Apart(bm, q, a);
    assert z in bm ==> Placed(bm, lo, hi, z);
  }

  lemma MergeTiles(bm: Blocks, lo: int, hi: int, a: int, z: int)
    requires Tiled(bm, lo, hi) && MergeRange(bm, lo, hi, a, z)
    ensures Tiled(Merge(bm, a, z), lo, hi)
  {
    var bm' := Merge(bm, a, z);
    forall q | q in bm'
      ensures Placed(bm', lo, hi, q)
    {
      MergePlaced(bm, lo, hi, a, z, q);
    }
    forall q, r | q in bm' && r in bm'
      ensures Apart(bm', q, r)
    {
      assert Apart(bm, q, r);
    }
    assert Placed(bm, lo, hi, a);
  }

  /** Where the free block that absorbs p begins: at p, or at the block before it if that is free. */
  ghost function LowEnd(bm: Blocks, lo: int, hi: int, p: int): (a: int)
    requires Tiled(bm, lo, hi) && p in bm
    ensures a in bm && (a == p || (IsPrev(bm, a, p) && bm[a].kind == Free))
    ensures a == p <==> p == lo || bm[p].prev
  {
    if p == lo || bm[p].prev then p
    else
      var q := PrevOf(bm, lo, hi, p);
      assert Placed(bm, lo, hi, q);
      NothingAtEnd(bm, lo, hi);
      q
  }

  /** Where it ends: after p, or after the next block if that is free. */
  function HighEnd(bm: Blocks, p: int): int
    requires p in bm
  {
    var n := p + bm[p].size;
    if n in bm && bm[n].kind == Free then n + bm[n].size else n
  }

  lemma FreeRange(bm: Blocks, lo: int, hi: int, p: int)
    requires Tiled(bm, lo, hi) && p in bm && bm[p].kind != Free
    ensures MergeRange(bm, lo, hi, LowEnd(bm, lo, hi, p), HighEnd(bm, p))
    ensures LowEnd(bm, lo, hi, p) <= p < p + bm[p].size <= HighEnd(bm, p)
  {
    var a, n := LowEnd(bm, lo, hi, p), p + bm[p].size;
    assert Placed(bm, lo, hi, p);
    if a != p {
      assert Placed(bm, lo, hi, a);
      if a != lo {
        var q := PrevOf(bm, lo, hi, a);
        assert Placed(bm, lo, hi, q);
        NothingAtEnd(bm, lo, hi);
      }
    }
    if n in bm {
      assert Placed(bm, lo, hi, n);
    }
  }

  /** The free neighbours that p absorbs leave their lists. */
  ghost function Unlisted(bm: Blocks, main: Lists, a: int, p: int, z: int): Lists
    requires p in bm && a in bm && |main| == 10
  {
    var n := p + bm[p].size;
    var main1 := if a == p then main else Detach(main, FreeListIndex(bm[a].size), a);
    if z == n || n !in bm then main1 else Detach(main1, FreeListIndex(bm[n].size), n)
  }

  /** The whole goes to the front of the list of its own class. */
  ghost function FreeLists(bm: Blocks, main: Lists, a: int, p: int, z: int): Lists
    requires p in bm && a in bm && |main| == 10
  {
    Push(Unlisted(bm, main, a, p, z), FreeListIndex(z - a), a)
  }

  /** The main-list path of sf_free: coalesce with free neighbours and insert the result. */
  ghost function FreeMain(h: Heap, p: int): Heap
    requires WellFormed(h) && p in h.bm && h.bm[p].kind == Live
  {
    var a, z := LowEnd(h.bm, h.lo, h.hi, p), HighEnd(h.bm, p);
    h.(bm := Merge(h.bm, a, z), main := FreeLists(h.bm, h.main, a, p, z))
  }

  /** Only p and the block after it can vanish in the merge. */
  lemma MergedAway(bm: Blocks, lo: int, hi: int, p: int, x: int)
    requires Tiled(bm, lo, hi) && p in bm && bm[p].kind != Free && x in bm
    requires LowEnd(bm, lo, hi, p) < x < HighEnd(bm, p)
    ensures x == p || x == p + bm[p].size
  {
    var a, n := LowEnd(bm, lo, hi, p), p + bm[p].size;
    assert Apart(bm, a, x) && Apart(bm, p, x) && Apart(bm, x, p);
    assert n in bm ==> Apart(bm, n, x) && Apart(bm, x, n);
    assert Placed(bm, lo, hi, x);
  }

  lemma UnlistedOff(bm: Blocks, lo: int, hi: int, main: Lists, p: int)
    requires Tiled(bm, lo, hi) && MainOK(bm, main) && p in bm && bm[p].kind == Live
    ensures var a, z := LowEnd(bm, lo, hi, p), HighEnd(bm, p);
            MainOff(Merge(bm, a, z), Unlisted(bm, main, a, p, z), {a})
  {
    var a, n, z := LowEnd(bm, lo, hi, p), p + bm[p].size, HighEnd(bm, p);
    FreeRange(bm, lo, hi, p);
    var bm' := Merge(bm, a, z);
    var main1 := if a == p then main else Detach(main, FreeListIndex(bm[a].size), a);
    var off1: set<int> := if a == p then {} else {a};
    if a != p {
      DetachTakesOff(bm, main, {}, a);
      assert {} + {a} == {a};
    }
    var off2 := if z == n then off1 else off1 + {n};
    if z != n {
      DetachTakesOff(bm, main1, off1, n);
    }
    forall x | x in bm && x !in bm'
      ensures x == p || x == n
    {
      MergedAway(bm, lo, hi, p, x);
    }
    OffIsUnseen(bm, bm', Unlisted(bm, main, a, p, z), off2, {a});
  }

  lemma FreeKeepsMain(bm: Blocks, lo: int, hi: int, main: Lists, p: int)
    requires Tiled(bm, lo, hi) && MainOK(bm, main) && p in bm && bm[p].kind == Live
    ensures var a, z := LowEnd(bm, lo, hi, p), HighEnd(bm, p);
            MainOK(Merge(bm, a, z), FreeLists(bm, main, a, p, z))
  {
    var a, z := LowEnd(bm, lo, hi, p), HighEnd(bm, p);
    UnlistedOff(bm, lo, hi, main, p);
    PushPutsOn(Merge(bm, a, z), Unlisted(bm, main, a, p, z), {a}, a);
    assert {a} - {a} == {};
  }

  lemma FreeKeepsHeap(h: Heap, p: int)
    requires WellFormed(h) && p in h.bm && h.bm[p].kind == Live
    ensures WellFormed(FreeMain(h, p))
  {
    var a, z := LowEnd(h.bm, h.lo, h.hi, p), HighEnd(h.bm, p);
    FreeRange(h.bm, h.lo, h.hi, p);
    MergeTiles(h.bm, h.lo, h.hi, a, z);
    FreeKeepsMain(h.bm, h.lo, h.hi, h.main, p);
    FreeSparesOthers(h, p);
    QuickUnseen(h.bm, Merge(h.bm, a, z), h.quick, h.counter);
  }

  /** Every allocated block but p survives, with its place and size. */
  lemma FreeSparesOthers(h: Heap, p: int)
    requires WellFormed(h) && p in h.bm && h.bm[p].kind == Live
    ensures var bm' := FreeMain(h, p).bm;
            forall x :: x in h.bm && h.bm[x].kind != Free && x != p ==>
              x in bm' && bm'[x].kind == h.bm[x].kind && bm'[x].size == h.bm[x].size
    ensures var bm' := FreeMain(h, p).bm;
            forall x :: x in bm' && bm'[x].kind != Free ==> x in h.bm && x != p && h.bm[x].kind == bm'[x].kind
  {
    var bm, lo, hi := h.bm, h.lo, h.hi;
    var a, n, z := LowEnd(bm, lo, hi, p), p + bm[p].size, HighEnd(bm, p);
    FreeRange(bm, lo, hi, p);
    forall x | x in bm && bm[x].kind != Free && x != p
      ensures x <= a || z <= x
      ensures x != a
    {
      if a < x < z {
        MergedAway(bm, lo, hi, p, x);
      }
    }
  }
}
