/**
  Where hw3/src/sfmm.c departs from its own contract: each routine as it is written, and exactly
  when it does what the documentation (and SfAllocator) does. The row behind the last block is no
  header, but the source reads it as one; its word is the parameter w.
*/
module SfDepartures {
  import opened Wrappers
  import opened SfSizes
  import opened SfHeap
  import opened SfRuns
  import opened SfMemory

  // ----- remove_from_free_list unlinks by header -----

  /** What the removal returns: a block, the sentinel of an empty list, or nothing on the list. */
  datatype Removal = Took(block: int) | TookSentinel | RanPast

  /** The block the source unlinks: the only one, or the first whose header equals the word. */
  function Removed(bm: Blocks, s: seq<int>, word: int): Removal {
    if s == [] then TookSentinel
    else if |s| == 1 then Took(s[0])
    else
      match FirstEqual(bm, s, word)
      case None => RanPast
      case Some(x) => Took(x)
  }

  /** Entries outside the heap are skipped; the callers' lists have none. */
  function FirstEqual(bm: Blocks, s: seq<int>, word: int): Option<int> {
    if s == [] then None
    else if s[0] in bm && Word(bm[s[0]]) == word then Some(s[0])
    else FirstEqual(bm, s[1..], word)
  }

  predicate Precedes(s: seq<int>, x: int, y: int) {
    exists i, j :: 0 <= i < j < |s| && s[i] == x && s[j] == y
  }

  lemma {:induction false} FirstEqualExact(bm: Blocks, s: seq<int>, at: nat)
    requires (forall i :: 0 <= i < |s| ==> s[i] in bm) && Distinct(s) && at < |s|
    ensures FirstEqual(bm, s, Word(bm[s[at]])).Some?
    ensures FirstEqual(bm, s, Word(bm[s[at]])) == Some(s[at])
       <==> forall j :: 0 <= j < at ==> Word(bm[s[j]]) != Word(bm[s[at]])
  {
    var w := Word(bm[s[at]]);
    if at == 0 {
    } else if Word(bm[s[0]]) == w {
      assert s[0] != s[at];
    } else {
      var t := s[1..];
      assert forall i :: 0 <= i < |t| ==> t[i] == s[i + 1];
      FirstEqualExact(bm, t, at - 1);
      if forall j :: 0 <= j < at - 1 ==> Word(bm[t[j]]) != w {
        forall j | 0 <= j < at
          ensures Word(bm[s[j]]) != w
        {
          if j > 0 {
            assert t[j - 1] == s[j];
          }
        }
      } else {
        var j :| 0 <= j < at - 1 && Word(bm[t[j]]) == w;
        assert s[j + 1] == t[j];
      }
    }
  }

  /** A listed block is taken by its own word exactly when no block before it has that word. */
  lemma RemovedExact(bm: Blocks, s: seq<int>, at: nat)
    requires (forall i :: 0 <= i < |s| ==> s[i] in bm) && Distinct(s) && at < |s|
    ensures Removed(bm, s, Word(bm[s[at]])).Took?
    ensures Removed(bm, s, Word(bm[s[at]])) == Took(s[at])
       <==> forall j :: 0 <= j < at ==> Word(bm[s[j]]) != Word(bm[s[at]])
  {
    FirstEqualExact(bm, s, at);
  }

  predicate Differ(b: Blk, b': Blk) {
    b.size != b'.size || b.prev != b'.prev
  }

  lemma ListedFree(h: Heap, c: int)
    requires WellFormed(h) && 0 <= c < 10
    ensures forall i :: 0 <= i < |h.main[c]| ==>
              var x := h.main[c][i];
              x in h.bm && h.bm[x].kind == Free && GoodSize(h.bm[x].size) && FreeListIndex(h.bm[x].size) == c
  {
    forall i | 0 <= i < |h.main[c]|
      ensures var x := h.main[c][i];
              x in h.bm && h.bm[x].kind == Free && GoodSize(h.bm[x].size) && FreeListIndex(h.bm[x].size) == c
    {
      assert OnMain(h.bm, c, h.main[c][i]);
      assert Placed(h.bm, h.lo, h.hi, h.main[c][i]);
    }
  }

  lemma SameWordSameBits(b: Blk, b': Blk)
    requires b.kind == Free && b'.kind == Free && GoodSize(b.size) && GoodSize(b'.size)
    ensures Word(b) == Word(b') <==> !Differ(b, b')
  {
  }

  /**
    Asked for the header of the neighbour x, the source unlinks x exactly when no block before it on
    the list has the same size and the same prev-allocated bit.
  */
  lemma NeighbourUnlinkedExactly(h: Heap, c: int, at: nat)
    requires WellFormed(h) && 0 <= c < 10 && at < |h.main[c]|
    ensures forall i :: 0 <= i < |h.main[c]| ==> h.main[c][i] in h.bm
    ensures Removed(h.bm, h.main[c], Word(h.bm[h.main[c][at]])) == Took(h.main[c][at])
       <==> forall j :: 0 <= j < at ==> Differ(h.bm[h.main[c][j]], h.bm[h.main[c][at]])
  {
    var s := h.main[c];
    ListedFree(h, c);
    forall i | 0 <= i < |s|
      ensures Word(h.bm[s[i]]) == Word(h.bm[s[at]]) <==> !Differ(h.bm[s[i]], h.bm[s[at]])
    {
      SameWordSameBits(h.bm[s[i]], h.bm[s[at]]);
    }
    RemovedExact(h.bm, s, at);
  }

  /** For sf_malloc the header is that of the first fit, so what is unlinked is always that block. */
  lemma {:induction false} FirstFitUnlinked(bm: Blocks, s: seq<int>, need: int)
    requires FirstFit(bm, s, need).Some?
    ensures FirstFit(bm, s, need).value in bm
    ensures Removed(bm, s, Word(bm[FirstFit(bm, s, need).value])) == Took(FirstFit(bm, s, need).value)
    ensures FirstEqual(bm, s, Word(bm[FirstFit(bm, s, need).value])) == FirstFit(bm, s, need)
  {
    FirstFitSound(bm, s, need);
    if !(s[0] in bm && Word(bm[s[0]]) >= need) {
      FirstFitUnlinked(bm, s[1..], need);
    }
  }

  // ----- the row behind the last block -----

  lemma ClearedParts(w: int)
    requires w >= 0
    ensures AllocBit(Cleared(w)) == AllocBit(w) && SizeField(Cleared(w)) == SizeField(w)
  {
    if PrevBit(w) {
      assert w % 4 >= 2;
      assert (w - 2) / 4 == w / 4;
      assert (w - 2) / 2 == w / 2 - 1;
    }
  }

  /** clear_prev_alloc_in_next_block as written: whatever follows the block is taken for a block. */
  function ClearWritten(m: Mem, x: int): Mem
    requires x + 8 in m && x + SizeField(m[x + 8]) + 8 in m
  {
    var n := x + SizeField(m[x + 8]);
    var m1 := m[n + 8 := Cleared(m[n + 8])];
    if AllocBit(m1[n + 8]) then m1 else WithFooter(m1, n)
  }

  /** Memory that ends with the row behind the last block. */
  ghost predicate EndsAt(m: Mem, hi: int) {
    hi in m && hi + 8 in m && forall a :: a in m ==> a % 8 == 0 && a <= hi + 8
  }

  /** Equal but for one row. */
  ghost predicate SameBut(m: Mem, m': Mem, row: int) {
    m[row := 0] == m'[row := 0]
  }

  /**
    For the last block the footer that the source may write for what it takes for its successor stays
    outside the heap's rows exactly when the row reads as allocated, or as a block of eight bytes.
  */
  lemma ClearWrittenExactly(m: Mem, x: int, hi: int)
    requires x + 8 in m && x + SizeField(m[x + 8]) + 8 in m
    ensures x + SizeField(m[x + 8]) != hi ==> ClearWritten(m, x) == ClearedAfter(m, x, hi)
    ensures x + SizeField(m[x + 8]) == hi && EndsAt(m, hi) && hi % 8 == 0 && m[hi] >= MIN_BLOCK && m[hi + 8] >= 0 ==>
              (SameBut(ClearWritten(m, x), ClearedAfter(m, x, hi), hi + 8) <==> !Strays(m[hi + 8]))
  {
    var n := x + SizeField(m[x + 8]);
    if n == hi && EndsAt(m, hi) && hi % 8 == 0 && m[hi] >= MIN_BLOCK && m[hi + 8] >= 0 {
      var w := m[hi + 8];
      ClearedParts(w);
      var m', s := ClearWritten(m, x), SizeField(w);
      if !AllocBit(w) {
        assert m' == m[hi + 8 := Cleared(w)][hi + s := Cleared(w)];
        StrayShows(m, m', hi, w, s);
      }
    }
  }

  /** The footer written for the row behind the last block lands on another row. */
  predicate Strays(w: int) {
    !AllocBit(w) && SizeField(w) != 8
  }

  lemma StrayShows(m: Mem, m': Mem, hi: int, w: int, s: int)
    requires EndsAt(m, hi) && hi % 8 == 0 && m[hi] >= MIN_BLOCK && w >= 0 && !AllocBit(w) && s == SizeField(w)
    requires m' == m[hi + 8 := Cleared(w)][hi + s := Cleared(w)]
    ensures SameBut(m', m, hi + 8) <==> s == 8
  {
    if s == 0 {
      assert Cleared(w) == 0;
      assert m'[hi + 8 := 0][hi] == 0 && m[hi + 8 := 0][hi] != 0;
    } else if s != 8 {
      assert hi + s !in m[hi + 8 := 0] && hi + s in m'[hi + 8 := 0];
    }
  }

  // ----- freeing to the main lists -----

  /**
    The outcome of coalescing and what surrounds it: the block that is kept, the header written to it,
    the blocks unlinked, in order, and whether a footer has gone astray.
  */
  datatype Released = Released(kept: Removal, word: int, taken: seq<Removal>, strayed: bool)

  function AfterRemoval(main: Lists, c: int, r: Removal): Lists
    requires 0 <= c < |main|
  {
    match r
    case Took(x) => main[c := Without(main[c], x)]
    case _ => main
  }

  /** get_next_block_alloc_bit, negated: what stands behind p reads as free. */
  predicate NextReadsFree(bm: Blocks, hi: int, w: int, n: int) {
    if n == hi then !AllocBit(w) else n in bm && bm[n].kind == Free
  }

  /** Its size, and the word by which it is unlinked, its prev-allocated bit already cleared. */
  function NextSize(bm: Blocks, hi: int, w: int, n: int): int {
    if n == hi then SizeField(w) else if n in bm then bm[n].size else 0
  }

  function NextWord(bm: Blocks, hi: int, w: int, n: int): int {
    if n == hi then Cleared(w) else if n in bm then Header(bm[n].size, bm[n].kind != Free, false) else 0
  }

  /** The removal of the block before p, by the word in its footer. */
  ghost function LowerTaken(h: Heap, p: int): seq<Removal>
    requires WellFormed(h) && p in h.bm && h.bm[p].kind == Live
  {
    var a, n := LowEnd(h.bm, h.lo, h.hi, p), p + h.bm[p].size;
    if a == p then [] else [Removed(SetPrev(h.bm, n, false), h.main[FreeListIndex(h.bm[a].size)], Word(h.bm[a]))]
  }

  ghost function UpperTaken(h: Heap, w: int, p: int): seq<Removal>
    requires WellFormed(h) && p in h.bm && h.bm[p].kind == Live
  {
    var a, n := LowEnd(h.bm, h.lo, h.hi, p), p + h.bm[p].size;
    var main1 := if a == p then h.main else AfterRemoval(h.main, FreeListIndex(h.bm[a].size), LowerTaken(h, p)[0]);
    if NextReadsFree(h.bm, h.hi, w, n) then
      [Removed(SetPrev(h.bm, n, false), main1[FreeListIndex(NextSize(h.bm, h.hi, w, n))], NextWord(h.bm, h.hi, w, n))]
    else []
  }

  /** The header written: the sizes added up, with no flag but that of p's own header. */
  ghost function MergedWord(h: Heap, w: int, p: int): int
    requires WellFormed(h) && p in h.bm && h.bm[p].kind == Live
  {
    var a, n := LowEnd(h.bm, h.lo, h.hi, p), p + h.bm[p].size;
    ((if a == p then 0 else h.bm[a].size) + Header(h.bm[p].size, false, h.bm[p].prev)
     + (if NextReadsFree(h.bm, h.hi, w, n) then NextSize(h.bm, h.hi, w, n) else 0)) % TWO64
  }

  /** sf_free of a block that goes to the main lists, as written. */
  ghost function FreeWritten(h: Heap, w: int, p: int): Released
    requires WellFormed(h) && p in h.bm && h.bm[p].kind == Live
  {
    var a, n := LowEnd(h.bm, h.lo, h.hi, p), p + h.bm[p].size;
    Released(if a == p then Took(p) else LowerTaken(h, p)[0],
             MergedWord(h, w, p),
             LowerTaken(h, p) + UpperTaken(h, w, p),
             HighEnd(h.bm, p) == h.hi && Strays(w))
  }

  /** The same as documented. */
  ghost function FreeDocumented(h: Heap, p: int): Released
    requires WellFormed(h) && p in h.bm && h.bm[p].kind == Live
  {
    var a, n, z := LowEnd(h.bm, h.lo, h.hi, p), p + h.bm[p].size, HighEnd(h.bm, p);
    Released(Took(a), Word(FreeMain(h, p).bm[a]),
             (if a == p then [] else [Took(a)]) + (if z == n then [] else [Took(n)]), false)
  }

  function TakenOff(bm: Blocks, main: Lists, taken: seq<Removal>): (m: Lists)
    requires |main| == 10
    ensures |m| == 10
  {
    if taken == [] then main
    else
      var main1 := TakenOff(bm, main, taken[..|taken| - 1]);
      match taken[|taken| - 1]
      case Took(x) => if x in bm then Detach(main1, FreeListIndex(bm[x].size), x) else main1
      case _ => main1
  }

  lemma TakenOffOne(bm: Blocks, main: Lists, x: int)
    requires |main| == 10 && x in bm
    ensures TakenOff(bm, main, [Took(x)]) == Detach(main, FreeListIndex(bm[x].size), x)
  {
    assert [Took(x)][..0] == [];
  }

  lemma TakenOffTwo(bm: Blocks, main: Lists, x: int, y: int)
    requires |main| == 10 && x in bm && y in bm
    ensures TakenOff(bm, main, [Took(x), Took(y)])
         == Detach(Detach(main, FreeListIndex(bm[x].size), x), FreeListIndex(bm[y].size), y)
  {
    TakenOffOne(bm, main, x);
    assert [Took(x), Took(y)][..1] == [Took(x)];
  }

  lemma UnlistedIs(bm: Blocks, main: Lists, a: int, p: int, n: int, z: int)
    requires |main| == 10 && a in bm && p in bm && n == p + bm[p].size && (z != n ==> n in bm)
    ensures var low: seq<Removal>, up: seq<Removal> := if a == p then [] else [Took(a)], if z == n then [] else [Took(n)];
            Unlisted(bm, main, a, p, z) == TakenOff(bm, main, low + up)
  {
    hide Detach, FreeListIndex;
    TakenOffOne(bm, main, a);
    if z != n {
      TakenOffOne(bm, main, n);
      TakenOffTwo(bm, main, a, n);
      assert [] + [Took(n)] == [Took(n)] && [Took(a)] + [Took(n)] == [Took(a), Took(n)];
    } else {
      assert [Took(a)] + [] == [Took(a)];
    }
  }

  lemma BlockBounds(h: Heap, p: int)
    requires WellFormed(h) && p in h.bm
    ensures p > 0 && h.bm[p].size >= MIN_BLOCK && p + h.bm[p].size <= h.hi
    ensures h.hi !in h.bm && |h.main| == 10
  {
    assert Placed(h.bm, h.lo, h.hi, p);
    NothingAtEnd(h.bm, h.lo, h.hi);
  }

  /** What is unlinked and what is kept determine the lists: these are those of FreeMain. */
  lemma DocumentedLists(h: Heap, p: int)
    requires WellFormed(h) && p in h.bm && h.bm[p].kind == Live
    ensures var d, a, z := FreeDocumented(h, p), LowEnd(h.bm, h.lo, h.hi, p), HighEnd(h.bm, p);
            && d.kept == Took(a)
            && FreeMain(h, p).main == Push(TakenOff(h.bm, h.main, d.taken), FreeListIndex(z - a), a)
  {
    BlockBounds(h, p);
    var a, n, z := LowEnd(h.bm, h.lo, h.hi, p), p + h.bm[p].size, HighEnd(h.bm, p);
    DocumentedIs(h, p);
    FreeMainLists(h, p);
    assert z != n ==> n in h.bm;
    hide *;
    UnlistedIs(h.bm, h.main, a, p, n, z);
  }

  lemma DocumentedIs(h: Heap, p: int)
    requires WellFormed(h) && p in h.bm && h.bm[p].kind == Live
    ensures var d, a, n, z := FreeDocumented(h, p), LowEnd(h.bm, h.lo, h.hi, p), p + h.bm[p].size, HighEnd(h.bm, p);
            d.kept == Took(a) && d.taken == (if a == p then [] else [Took(a)]) + (if z == n then [] else [Took(n)])
  {
    hide WellFormed, Tiled, LowEnd, FreeMain, Word;
  }

  lemma FreeMainLists(h: Heap, p: int)
    requires WellFormed(h) && p in h.bm && h.bm[p].kind == Live
    ensures |h.main| == 10
    ensures var a, z := LowEnd(h.bm, h.lo, h.hi, p), HighEnd(h.bm, p);
            FreeMain(h, p).main == Push(Unlisted(h.bm, h.main, a, p, z), FreeListIndex(z - a), a)
  {
    hide LowEnd, Unlisted, Push, FreeListIndex, Merge;
  }

  /** Free blocks follow allocated ones, so all but one at the start of the heap have the bit set. */
  lemma FreePrev(h: Heap, x: int)
    requires WellFormed(h) && x in h.bm && h.bm[x].kind == Free
    ensures h.bm[x].prev <==> x != h.lo
  {
    if x != h.lo {
      var q := PrevOf(h.bm, h.lo, h.hi, x);
      assert Placed(h.bm, h.lo, h.hi, q);
      NothingAtEnd(h.bm, h.lo, h.hi);
    }
  }

  /**
    Two free blocks that coalesce confuses: the one behind p, whose bit it has just cleared, and one of
    the same size at the start of the heap, which has never had it set.
  */
  predicate Twins(h: Heap, n: int) {
    && n in h.bm && h.bm[n].kind == Free && h.lo in h.bm && h.bm[h.lo].kind == Free
    && n != h.lo && h.bm[n].size == h.bm[h.lo].size
  }

  /** The twin that is meant is not the first of the two on their list. */
  ghost predicate TwinsConfused(h: Heap, p: int)
    requires WellFormed(h) && p in h.bm && h.bm[p].kind == Live
  {
    var a, n := LowEnd(h.bm, h.lo, h.hi, p), p + h.bm[p].size;
    && Twins(h, n)
    && var s := h.main[FreeListIndex(h.bm[n].size)];
       if a == h.lo then Precedes(s, n, h.lo) else Precedes(s, h.lo, n)
  }

  /** When sf_free of a block that goes to the main lists does what it should. */
  ghost predicate FreeIsRight(h: Heap, w: int, p: int)
    requires WellFormed(h) && p in h.bm && h.bm[p].kind == Live
  {
    var a, n := LowEnd(h.bm, h.lo, h.hi, p), p + h.bm[p].size;
    && (a == p || a == h.lo)
    && !TwinsConfused(h, p)
    && (n == h.hi ==> AllocBit(w))
    && (n != h.hi && HighEnd(h.bm, p) == h.hi ==> AllocBit(w) || SizeField(w) == 8)
  }

  /** The words of list entries once the bit of n is cleared. */
  lemma ClearedWords(h: Heap, c: int, n: int, x: int, y: int)
    requires WellFormed(h) && 0 <= c < 10 && x in h.main[c] && y in h.main[c]
    ensures x in h.bm && y in h.bm && x in SetPrev(h.bm, n, false) && y in SetPrev(h.bm, n, false)
    ensures var bm1 := SetPrev(h.bm, n, false);
            Word(bm1[x]) == Word(bm1[y])
            <==> h.bm[x].size == h.bm[y].size && ((x == h.lo || x == n) <==> (y == h.lo || y == n))
  {
    var i :| 0 <= i < |h.main[c]| && h.main[c][i] == x;
    var j :| 0 <= j < |h.main[c]| && h.main[c][j] == y;
    ListedFree(h, c);
    FreePrev(h, x);
    FreePrev(h, y);
    var bm1 := SetPrev(h.bm, n, false);
    SameWordSameBits(bm1[x], bm1[y]);
  }

  /** Removing x by its word, the bit of n being cleared, where x is n or starts the heap. */
  lemma TwinRemoved(h: Heap, c: int, n: int, x: int)
    requires WellFormed(h) && 0 <= c < 10 && x in h.main[c] && (x == n || x == h.lo)
    ensures x in SetPrev(h.bm, n, false)
    ensures var bm1, y := SetPrev(h.bm, n, false), if x == n then h.lo else n;
            Removed(bm1, h.main[c], Word(bm1[x])) == Took(x)
            <==> !(x != y && y in h.bm && y in h.main[c] && h.bm[x].size == h.bm[y].size && Precedes(h.main[c], y, x))
  {
    var s, bm1, y := h.main[c], SetPrev(h.bm, n, false), if x == n then h.lo else n;
    var at :| 0 <= at < |s| && s[at] == x;
    ListedFree(h, c);
    assert OnMain(h.bm, c, x);
    RemovedExact(bm1, s, at);
    forall j | 0 <= j < |s|
      ensures Word(bm1[s[j]]) == Word(bm1[x]) <==> h.bm[s[j]].size == h.bm[x].size && (s[j] == x || s[j] == y)
    {
      ClearedWords(h, c, n, s[j], x);
    }
  }

  lemma Eighths(q: int, r: int)
    requires 0 <= r < 8
    ensures (8 * q + r) / 4 == 2 * q + r / 4 && (8 * q + r) / 2 == 4 * q + r / 2
  {
  }

  lemma LowBits(r: int)
    requires 0 <= r < 8
    ensures (r / 4) % 2 == (if r >= 4 then 1 else 0)
    ensures (r / 2) % 2 == (if r == 2 || r == 3 || r == 6 || r == 7 then 1 else 0)
  {
  }

  lemma FourTimes(q: int, e: int)
    requires 0 <= e < 4
    ensures (8 * q + e) % 4 == e
  {
  }

  lemma SizeFieldBits(w: int)
    requires 0 <= w < TWO64
    ensures 0 <= SizeField(w) < TWO64 && SizeField(w) % 4 <= 1
  {
    var q, r := w / 8, w % 8;
    Eighths(q, r);
    LowBits(r);
    EvenPart(q, r / 4);
    EvenPart(2 * q, r / 2);
    var e := r - (if r >= 4 then 4 else 0) - (if r == 2 || r == 3 || r == 6 || r == 7 then 2 else 0);
    FourTimes(q, e);
    assert SizeField(w) == 8 * q + e;
  }

  /** Adding the size read from a row, in 64 bits, gives the documented word only for a size of zero. */
  lemma WrappedSum(word: int, had: int, s: int)
    requires 0 <= word < TWO64 && had in {word, word - 2} && 0 <= had && 0 <= s < TWO64 && s % 4 <= 1
    ensures (had + s) % TWO64 == word <==> had == word && s == 0
  {
    if (had + s) % TWO64 == word {
      assert had + s == word || had + s == word + TWO64;
    }
  }

  /** The header written is right exactly when no bit is dropped and no row is taken for a free block. */
  lemma MergedHeaderExact(h: Heap, w: int, p: int)
    requires WellFormed(h) && p in h.bm && h.bm[p].kind == Live && 0 <= w < TWO64 && h.hi < TWO64
    ensures var a, n := LowEnd(h.bm, h.lo, h.hi, p), p + h.bm[p].size;
            MergedWord(h, w, p) == Word(FreeMain(h, p).bm[a])
            <==> (a == p || a == h.lo) && (n != h.hi || AllocBit(w) || SizeField(w) == 0)
  {
    var a, n, z := LowEnd(h.bm, h.lo, h.hi, p), p + h.bm[p].size, HighEnd(h.bm, p);
    FreeRange(h.bm, h.lo, h.hi, p);
    NothingAtEnd(h.bm, h.lo, h.hi);
    assert Placed(h.bm, h.lo, h.hi, p) && Placed(h.bm, h.lo, h.hi, a);
    if a != p {
      FreePrev(h, a);
    }
    var word := Word(FreeMain(h, p).bm[a]);
    assert word == z - a + if h.bm[a].prev then 2 else 0;
    var had := z - a + if h.bm[p].prev then 2 else 0;
    var s := if n == h.hi && !AllocBit(w) then SizeField(w) else 0;
    SizeFieldBits(w);
    assert MergedWord(h, w, p) == (had + s) % TWO64;
    WrappedSum(word, had, s);
  }

  lemma {:induction false} WithoutInside(s: seq<int>, x: int)
    ensures forall y :: y in Without(s, x) ==> y in s
  {
    if s != [] && s[0] != x {
      WithoutInside(s[1..], x);
    }
  }

  /** Without its twin on the list, n is always the block that its word takes. */
  lemma LoneRemoved(h: Heap, c: int, n: int, s: seq<int>)
    requires WellFormed(h) && 0 <= c < 10 && Distinct(s) && n in s && h.lo !in s
    requires forall y :: y in s ==> y in h.main[c]
    ensures n in SetPrev(h.bm, n, false)
    ensures Removed(SetPrev(h.bm, n, false), s, Word(SetPrev(h.bm, n, false)[n])) == Took(n)
  {
    var at :| 0 <= at < |s| && s[at] == n;
    var bm1 := SetPrev(h.bm, n, false);
    ListedFree(h, c);
    assert OnMain(h.bm, c, n);
    forall j | 0 <= j < |s|
      ensures s[j] in bm1 && (Word(bm1[s[j]]) == Word(bm1[n]) ==> s[j] == n)
    {
      ClearedWords(h, c, n, s[j], n);
    }
    RemovedExact(bm1, s, at);
  }

  /** The block below, where it starts the heap, is taken right exactly when it is not confused. */
  lemma LowerExactly(h: Heap, p: int)
    requires WellFormed(h) && p in h.bm && h.bm[p].kind == Live
    requires LowEnd(h.bm, h.lo, h.hi, p) == h.lo != p
    ensures LowerTaken(h, p) == [Took(h.lo)] <==> !TwinsConfused(h, p)
  {
    var n, c := p + h.bm[p].size, FreeListIndex(h.bm[h.lo].size);
    assert OnMain(h.bm, c, h.lo);
    assert n in h.bm ==> OnMain(h.bm, c, n) == (h.bm[n].kind == Free && FreeListIndex(h.bm[n].size) == c);
    assert Placed(h.bm, h.lo, h.hi, p) && h.bm[h.lo].size > 0;
    TwinRemoved(h, c, n, h.lo);
    assert Word(SetPrev(h.bm, n, false)[h.lo]) == Word(h.bm[h.lo]);
  }

  /** The block above is taken right exactly when it is not confused, once the one below has been. */
  lemma UpperExactly(h: Heap, w: int, p: int)
    requires WellFormed(h) && p in h.bm && h.bm[p].kind == Live
    requires p + h.bm[p].size in h.bm && h.bm[p + h.bm[p].size].kind == Free
    requires var a := LowEnd(h.bm, h.lo, h.hi, p);
             a == p || (a == h.lo && LowerTaken(h, p) == [Took(a)])
    ensures UpperTaken(h, w, p) == [Took(p + h.bm[p].size)] <==> !TwinsConfused(h, p)
  {
    var a, n := LowEnd(h.bm, h.lo, h.hi, p), p + h.bm[p].size;
    var c := FreeListIndex(h.bm[n].size);
    NothingAtEnd(h.bm, h.lo, h.hi);
    assert Placed(h.bm, h.lo, h.hi, p);
    assert OnMain(h.bm, c, n);
    if a == p {
      assert OnMain(h.bm, c, h.lo) == (h.bm[h.lo].kind == Free && FreeListIndex(h.bm[h.lo].size) == c);
      TwinRemoved(h, c, n, n);
    } else {
      LowerExactly(h, p);
      var d := FreeListIndex(h.bm[a].size);
      WithoutKeepsRest(h.main[c], a);
      assert c != d ==> !OnMain(h.bm, c, a);
      LoneRemoved(h, c, n, if c == d then Without(h.main[c], a) else h.main[c]);
    }
  }

  /**
    sf_free of a block that goes to the main lists keeps, unlinks and writes what it should exactly
    when the block below it is allocated or starts the heap, no twin is taken instead of a neighbour,
    and the row behind the last block does not read as a free block that matters.
  */
  lemma FreeExactly(h: Heap, w: int, p: int)
    requires WellFormed(h) && p in h.bm && h.bm[p].kind == Live && 0 <= w < TWO64 && h.hi < TWO64
    ensures FreeWritten(h, w, p) == FreeDocumented(h, p) <==> FreeIsRight(h, w, p)
  {
    var a, n, z := LowEnd(h.bm, h.lo, h.hi, p), p + h.bm[p].size, HighEnd(h.bm, p);
    BlockBounds(h, p);
    if n in h.bm {
      BlockBounds(h, n);
    }
    hide WellFormed, Tiled, TwinsConfused, Removed, MergedWord, FreeMain, Word, AllocBit, SizeField, LowEnd;
    hide SetPrev, AfterRemoval, NextSize, NextWord, FreeListIndex;
    MergedHeaderExact(h, w, p);
    var low: seq<Removal> := if a == p then [] else [Took(a)];
    var up: seq<Removal> := if z == n then [] else [Took(n)];
    if a == p || a == h.lo {
      if a != p {
        LowerExactly(h, p);
      }
      if LowerTaken(h, p) == low && z != n {
        UpperExactly(h, w, p);
      }
      PairsEqual(LowerTaken(h, p), UpperTaken(h, w, p), low, up);
    }
  }

  lemma PairsEqual<T>(a: seq<T>, b: seq<T>, c: seq<T>, d: seq<T>)
    requires |a| == |c|
    ensures a + b == c + d <==> a == c && b == d
  {
    if a + b == c + d {
      assert a == (a + b)[..|a|] && c == (c + d)[..|c|];
      assert b == (a + b)[|a|..] && d == (c + d)[|c|..];
    }
  }

  /** In all four neighbour cases the merged block is as long as the blocks it replaces. */
  lemma CoalesceConserves(h: Heap, p: int)
    requires WellFormed(h) && p in h.bm && h.bm[p].kind == Live
    ensures var a, n := LowEnd(h.bm, h.lo, h.hi, p), p + h.bm[p].size;
            var below := if a != p then h.bm[a].size else 0;
            var above := if n in h.bm && h.bm[n].kind == Free then h.bm[n].size else 0;
            FreeMain(h, p).bm[a].size == below + h.bm[p].size + above
    ensures var bm' := FreeMain(h, p).bm;
            forall x :: x in bm' && x != LowEnd(h.bm, h.lo, h.hi, p) ==> x in h.bm && bm'[x].size == h.bm[x].size
  {
    FreeRange(h.bm, h.lo, h.hi, p);
  }

  /** The end-of-heap test of get_next_block_alloc_bit never recognises the last block. */
  lemma EndTestNeverFires(h: Heap, p: int)
    requires WellFormed(h) && p in h.bm
    ensures !(p + h.bm[p].size > h.hi + 16)
  {
    assert Placed(h.bm, h.lo, h.hi, p);
  }

  // ----- allocation looks one block too far for the end of the heap -----

  /**
    What allocate_no_splitting leaves of the successors: it asks whether the successor n, rather
    than p, ends the heap, and only if not marks n's prev-allocated bit.
  */
  function MarkedAsWritten(bm: Blocks, p: int, hi: int): Blocks
    requires p in bm
  {
    var taken := bm[p := bm[p].(kind := Live)];
    var n := p + bm[p].size;
    if n in bm && n + bm[n].size != hi then SetPrev(taken, n, true) else taken
  }

  lemma MarkedExact(h: Heap, p: int)
    requires WellFormed(h) && p in h.bm && h.bm[p].kind == Free
    ensures MarkedAsWritten(h.bm, p, h.hi) == TakeWhole(h.bm, p)
       <==> !(p + h.bm[p].size in h.bm && p + h.bm[p].size + h.bm[p + h.bm[p].size].size == h.hi)
  {
    var n := p + h.bm[p].size;
    assert Placed(h.bm, h.lo, h.hi, p);
    NothingAtEnd(h.bm, h.lo, h.hi);
    if n in h.bm {
      assert TakeWhole(h.bm, p)[n].prev;
      assert !h.bm[n].prev;
      assert MarkedAsWritten(h.bm, p, h.hi)[n].prev <==> n + h.bm[n].size != h.hi;
    }
  }

  // ----- the flag for an allocated last block -----

  /** What last_block_allocated is to say; growth goes by it. */
  ghost predicate EndsAllocated(h: Heap)
    requires Tiled(h.bm, h.lo, h.hi)
  {
    h.bm[LastBlock(h)].kind != Free
  }

  /** check_last_block of what stands at n. */
  predicate ReadsAsLast(bm: Blocks, hi: int, w: int, n: int) {
    if n == hi then SizeField(w) == 0 else n in bm && n + bm[n].size == hi
  }

  lemma ReadsLast(h: Heap, n: int)
    requires WellFormed(h) && n in h.bm
    ensures n + h.bm[n].size == h.hi <==> n == LastBlock(h)
  {
    if n + h.bm[n].size == h.hi {
      PrevIsUnique(h.bm, h.lo, h.hi, h.hi, n, LastBlock(h));
    }
  }

  /** After sf_malloc has taken p from a main list: set by the whole-block branch, never by the other. */
  predicate FlagAllocated(h: Heap, w: int, p: int, need: int, flag: bool)
    requires p in h.bm
  {
    flag || (h.bm[p].size - need < MIN_BLOCK && ReadsAsLast(h.bm, h.hi, w, p + h.bm[p].size))
  }

  /** It stays right unless the last block is taken whole and the row behind it has a size. */
  lemma FlagAllocatedExact(h: Heap, w: int, p: int, need: int, flag: bool)
    requires WellFormed(h) && p in h.bm && h.bm[p].kind == Free && GoodSize(need) && need <= h.bm[p].size
    requires flag <==> EndsAllocated(h)
    ensures WellFormed(Allocate(h, p, need))
    ensures (FlagAllocated(h, w, p, need, flag) <==> EndsAllocated(Allocate(h, p, need)))
       <==> !(p + h.bm[p].size == h.hi && h.bm[p].size - need < MIN_BLOCK && SizeField(w) != 0)
  {
    AllocateKeepsHeap(h, p, need);
    var n, h' := p + h.bm[p].size, Allocate(h, p, need);
    var last := LastBlock(h);
    assert Placed(h.bm, h.lo, h.hi, p);
    NothingAtEnd(h.bm, h.lo, h.hi);
    ReadsLast(h, p);
    if n in h.bm {
      ReadsLast(h, n);
      SuccessorNotFree(h.bm, h.lo, h.hi, p);
    }
    var whole := h.bm[p].size - need < MIN_BLOCK;
    if !whole {
      NothingInside(h.bm, h.lo, h.hi, p, p + need);
    }
    ReadsLast(h', if p == last && !whole then p + need else last);
    assert EndsAllocated(h') <==> if p == last then whole else EndsAllocated(h);
  }

  /** After sf_malloc has popped quick list k. */
  predicate FlagPopped(h: Heap, w: int, k: int, flag: bool)
    requires 0 <= k < |h.quick| && h.quick[k] != [] && h.quick[k][0] in h.bm
  {
    var p := h.quick[k][0];
    flag || ReadsAsLast(h.bm, h.hi, w, p + h.bm[p].size)
  }

  /** It stays right unless the block behind the one popped is free and ends the heap. */
  lemma FlagPoppedExact(h: Heap, w: int, k: int, flag: bool)
    requires WellFormed(h) && 0 <= k < 10 && h.quick[k] != [] && (flag <==> EndsAllocated(h))
    ensures h.quick[k][0] in h.bm && WellFormed(FromQuick(h, k, 1))
    ensures var n := h.quick[k][0] + h.bm[h.quick[k][0]].size;
            (FlagPopped(h, w, k, flag) <==> EndsAllocated(FromQuick(h, k, 1)))
            <==> !(n in h.bm && n + h.bm[n].size == h.hi && h.bm[n].kind == Free)
  {
    FromQuickKeepsHeap(h, k, 1);
    HeadOfQuick(h, k);
    var p := h.quick[k][0];
    var n, h' := p + h.bm[p].size, FromQuick(h, k, 1);
    NothingAtEnd(h.bm, h.lo, h.hi);
    ReadsLast(h, p);
    if n in h.bm {
      ReadsLast(h, n);
    }
    ReadsLast(h', LastBlock(h));
  }

  /** sf_free leaves the flag as it is: that stays right unless the block freed ends the heap. */
  lemma FlagFreedExact(h: Heap, p: int, flag: bool)
    requires WellFormed(h) && p in h.bm && h.bm[p].kind == Live && (flag <==> EndsAllocated(h))
    ensures WellFormed(FreeMain(h, p))
    ensures (flag <==> EndsAllocated(FreeMain(h, p))) <==> p + h.bm[p].size != h.hi
    ensures p + h.bm[p].size != h.hi <==> !flag || HighEnd(h.bm, p) != h.hi
  {
    FreeKeepsHeap(h, p);
    var a, n, z := LowEnd(h.bm, h.lo, h.hi, p), p + h.bm[p].size, HighEnd(h.bm, p);
    var h', last := FreeMain(h, p), LastBlock(h);
    FreeRange(h.bm, h.lo, h.hi, p);
    NothingAtEnd(h.bm, h.lo, h.hi);
    ReadsLast(h, p);
    ReadsLast(h, a);
    if n in h.bm {
      ReadsLast(h, n);
      assert Placed(h.bm, h.lo, h.hi, n);
    }
    if a < last < z {
      MergedAway(h.bm, h.lo, h.hi, p, last);
    }
    ReadsLast(h', if z == h.hi then a else last);
  }

  // ----- growth -----

  /** Some block before n on its list has the same header. */
  ghost predicate Shadowed(h: Heap, n: int)
    requires |h.main| == 10 && n in h.bm
  {
    exists x :: Precedes(h.main[FreeListIndex(h.bm[n].size)], x, n) && x in h.bm && !Differ(h.bm[x], h.bm[n])
  }

  lemma RemovedUnlessShadowed(h: Heap, n: int)
    requires WellFormed(h) && n in h.bm && h.bm[n].kind == Free
    ensures Removed(h.bm, h.main[FreeListIndex(h.bm[n].size)], Word(h.bm[n])) == Took(n) <==> !Shadowed(h, n)
  {
    var c := FreeListIndex(h.bm[n].size);
    var s := h.main[c];
    assert OnMain(h.bm, c, n);
    var at :| 0 <= at < |s| && s[at] == n;
    NeighbourUnlinkedExactly(h, c, at);
    if Shadowed(h, n) {
      var x :| Precedes(s, x, n) && x in h.bm && !Differ(h.bm[x], h.bm[n]);
      var i, j :| 0 <= i < j < |s| && s[i] == x && s[j] == n;
      assert j == at;
    } else {
      forall j | 0 <= j < at
        ensures Differ(h.bm[s[j]], h.bm[s[at]])
      {
        assert Precedes(s, s[j], n);
      }
    }
  }

  /** After sf_mem_grow: the block the new page is taken for, its header, and the list it is put on. */
  datatype Page = Page(block: Removal, word: int, list: Option<int>)

  /**
    As written: with the flag set the page stays by itself and on no list; otherwise the row before it,
    tail, is taken for the footer of a free block, and that word, flag bit and all, gives the class.
  */
  ghost function PageWritten(h: Heap, flag: bool, tail: int): Page
    requires WellFormed(h)
  {
    if flag then Page(Took(h.hi), Header(PAGE, false, true), None)
    else
      var r := Removed(h.bm, h.main[FreeListIndex(tail)], tail);
      var word := (if r.Took? && r.block in h.bm then Word(h.bm[r.block]) else 0) + PAGE;
      Page(r, word, Some(FreeListIndex(Cleared(word))))
  }

  ghost function PageDocumented(h: Heap): Page
    requires WellFormed(h)
  {
    WithPageKeepsHeap(h);
    var a := LowEnd(WithPage(h).bm, h.lo, h.hi + PAGE, h.hi);
    var b := Grow(h).bm[a];
    Page(Took(a), Word(b), Some(FreeListIndex(b.size)))
  }

  /** Where the page goes when it is joined to a free last block, and when not. */
  lemma PageJoins(h: Heap)
    requires WellFormed(h)
    ensures var last := LastBlock(h);
            var b := h.bm[last];
            PageDocumented(h) == if b.kind == Free
              then Page(Took(last), Header(b.size + PAGE, false, b.prev), Some(FreeListIndex(b.size + PAGE)))
              else Page(Took(h.hi), Header(PAGE, false, true), Some(7))
  {
    WithPageKeepsHeap(h);
    var g, last := WithPage(h), LastBlock(h);
    NothingAtEnd(h.bm, h.lo, h.hi);
    NothingAtEnd(g.bm, g.lo, g.hi);
    var a := LowEnd(g.bm, g.lo, g.hi, h.hi);
    assert Placed(h.bm, h.lo, h.hi, last);
    if a != h.hi {
      PrevIsUnique(g.bm, g.lo, g.hi, h.hi, a, last);
    }
    assert HighEnd(g.bm, h.hi) == g.hi;
    FreeRange(g.bm, g.lo, g.hi, h.hi);
  }

  /**
    A page is joined and listed as it should be exactly when the flag is clear, the last block is free,
    no other block is taken for it, and its header, prev-allocated bit included, gives its class.
  */
  lemma PageExactly(h: Heap, flag: bool, tail: int)
    requires WellFormed(h)
    requires h.bm[LastBlock(h)].kind == Free ==> tail == Word(h.bm[LastBlock(h)])
    ensures var last := LastBlock(h);
            PageWritten(h, flag, tail) == PageDocumented(h)
            <==> !flag && h.bm[last].kind == Free && !Shadowed(h, last)
                 && FreeListIndex(Word(h.bm[last])) == FreeListIndex(h.bm[last].size)
  {
    var last, c := LastBlock(h), FreeListIndex(tail);
    assert Placed(h.bm, h.lo, h.hi, last);
    hide WellFormed, Shadowed, Removed, PageDocumented, FreeListIndex, Cleared;
    PageJoins(h);
    BlockBounds(h, last);
    ListedFree(h, c);
    RemovedListed(h.bm, h.main[c], tail);
    if h.bm[last].kind == Free {
      RemovedUnlessShadowed(h, last);
      ClearedHeader(h.bm[last].size + PAGE, false, h.bm[last].prev);
    }
  }

  lemma {:induction false} RemovedListed(bm: Blocks, s: seq<int>, word: int)
    ensures Removed(bm, s, word).Took? ==> Removed(bm, s, word).block in s
    ensures FirstEqual(bm, s, word).Some? ==> FirstEqual(bm, s, word).value in s
  {
    if s != [] {
      RemovedListed(bm, s[1..], word);
    }
  }

  /** The class of the flagged word is that of the size unless the flag tips it over a class limit. */
  lemma FlaggedClassExact(size: int, prev: bool)
    requires GoodSize(size)
    ensures FreeListIndex(Header(size, false, prev)) == FreeListIndex(size)
       <==> !(prev && size in {32, 64, 128, 256, 512, 1024, 2048, 4096, 8192})
  {
  }

  /** The page that is on no list is then looked for on the list of the class above its own. */
  lemma UnlistedPageMissed(h: Heap)
    requires WellFormed(h)
    ensures FreeListIndex(Header(PAGE, false, true)) == 8
    ensures Removed(h.bm, h.main[8], Header(PAGE, false, true))
         == if h.main[8] == [] then TookSentinel else if |h.main[8]| == 1 then Took(h.main[8][0]) else RanPast
    ensures h.hi !in h.main[8]
  {
    NothingAtEnd(h.bm, h.lo, h.hi);
    ListedFree(h, 8);
    FirstEqualNone(h.bm, h.main[8], Header(PAGE, false, true));
  }

  lemma {:induction false} FirstEqualNone(bm: Blocks, s: seq<int>, word: int)
    requires forall i :: 0 <= i < |s| ==> s[i] in bm && Word(bm[s[i]]) != word
    ensures FirstEqual(bm, s, word) == None
  {
    if s != [] {
      FirstEqualNone(bm, s[1..], word);
    }
  }

  /** The rows that the first call of sf_malloc writes before it looks at what sf_mem_grow returned. */
  function FirstRows(start: int): set<int> {
    {start, start + 8, start + 4080}
  }

  /** They are rows of the page exactly when there is one; otherwise the first is row 0. */
  lemma FirstPageExactly(lo: int, pages: nat)
    requires lo > 0 && lo % 16 == 0
    ensures var start := if pages == 0 then NULL else lo;
            (forall r :: r in FirstRows(start) ==> lo <= r < lo + PAGE) <==> pages > 0
  {
    assert NULL in FirstRows(NULL);
  }

  // ----- sf_realloc -----

  /** The source takes the growing branch when the request itself exceeds the block size. */
  predicate GrowsAsWritten(request: int, size: int) {
    request > size
  }

  /** It should grow when the block the request needs is bigger; they differ on the last 8 bytes. */
  lemma GrowBranchExact(request: int, size: int)
    requires 0 < request <= TWO64 - 24 && GoodSize(size)
    ensures (GrowsAsWritten(request, size) <==> AlignedBlock(request) > size) <==> !(size - 8 < request <= size)
  {
    AlignedBlockIsLeast(request);
  }

  /** In that gap the unsigned difference wraps around and the block is cut longer than it is. */
  lemma GapWraps()
    ensures AlignedBlock(28) == 48 && !GrowsAsWritten(28, 32) && (32 - AlignedBlock(28)) % TWO64 >= 32
  {
  }

  /**
    What becomes of the part split off an allocated block: its header, whether it has a footer, the list
    it is on, what was unlinked for it, and whether the next block is told that an allocated one precedes.
  */
  datatype Cut = Cut(word: int, footer: bool, list: Option<int>, taken: seq<Removal>, told: bool)

  /** As written: what cannot be merged with the next block gets a header and nothing else. */
  ghost function SplitWritten(h: Heap, w: int, p: int, need: int): Cut
    requires WellFormed(h) && p in h.bm
  {
    var n, rest := p + h.bm[p].size, h.bm[p].size - need;
    if NextReadsFree(h.bm, h.hi, w, n) then
      var next := NextSize(h.bm, h.hi, w, n);
      var size := (rest + next) % TWO64;
      Cut(size + 2, true, Some(FreeListIndex(size)),
          [Removed(h.bm, h.main[FreeListIndex(next)], if n in h.bm then Word(h.bm[n]) else w)], false)
    else
      Cut(rest + 2, false, None, [], n in h.bm)
  }

  ghost function SplitDocumented(h: Heap, p: int, need: int): Cut
    requires WellFormed(h) && p in h.bm && h.bm[p].kind == Live
    requires GoodSize(need) && h.bm[p].size - need >= MIN_BLOCK
  {
    CutLiveKeepsHeap(h, p, need);
    var n, rest := p + h.bm[p].size, p + need;
    FreeRange(CutLive(h, p, need).bm, h.lo, h.hi, rest);
    assert LowEnd(CutLive(h, p, need).bm, h.lo, h.hi, rest) == rest;
    var b := Shrink(h, p, need).bm[rest];
    Cut(Word(b), true, Some(FreeListIndex(b.size)),
        if n in h.bm && h.bm[n].kind == Free then [Took(n)] else [], false)
  }

  /** What is documented, spelled out. */
  lemma SplitJoins(h: Heap, p: int, need: int)
    requires WellFormed(h) && p in h.bm && h.bm[p].kind == Live
    requires GoodSize(need) && h.bm[p].size - need >= MIN_BLOCK
    ensures var n, rest := p + h.bm[p].size, h.bm[p].size - need;
            SplitDocumented(h, p, need) == if n in h.bm && h.bm[n].kind == Free
              then Cut(rest + h.bm[n].size + 2, true, Some(FreeListIndex(rest + h.bm[n].size)), [Took(n)], false)
              else Cut(rest + 2, true, Some(FreeListIndex(rest)), [], false)
  {
    CutLiveKeepsHeap(h, p, need);
    var c, n, rest := CutLive(h, p, need), p + h.bm[p].size, p + need;
    assert rest in c.bm && c.bm[rest] == Blk(h.bm[p].size - need, Live, true);
    FreeRange(c.bm, h.lo, h.hi, rest);
    assert n in h.bm <==> n in c.bm;
  }

  /** It is released as it should be exactly when the next block is free and no other is taken for it. */
  lemma SplitExactly(h: Heap, w: int, p: int, need: int)
    requires WellFormed(h) && p in h.bm && h.bm[p].kind == Live && h.hi < TWO64
    requires GoodSize(need) && h.bm[p].size - need >= MIN_BLOCK
    ensures var n := p + h.bm[p].size;
            SplitWritten(h, w, p, need) == SplitDocumented(h, p, need)
            <==> n in h.bm && h.bm[n].kind == Free && !Shadowed(h, n)
  {
    hide WellFormed, Shadowed, Removed, FreeListIndex, AllocBit, SizeField, SplitDocumented, Word;
    var n := p + h.bm[p].size;
    SplitJoins(h, p, need);
    BlockBounds(h, p);
    if n in h.bm && h.bm[n].kind == Free {
      BlockBounds(h, n);
      RemovedUnlessShadowed(h, n);
    }
  }

  /** Where it is, the lists of Shrink are the ones left by that unlinking and insertion. */
  lemma SplitLists(h: Heap, p: int, need: int)
    requires WellFormed(h) && p in h.bm && h.bm[p].kind == Live
    requires GoodSize(need) && h.bm[p].size - need >= MIN_BLOCK
    ensures var d := SplitDocumented(h, p, need);
            Shrink(h, p, need).main == Push(TakenOff(h.bm, h.main, d.taken), d.list.value, p + need)
  {
    CutLiveKeepsHeap(h, p, need);
    var c, n, rest := CutLive(h, p, need), p + h.bm[p].size, p + need;
    FreeRange(c.bm, h.lo, h.hi, rest);
    BlockBounds(h, p);
    SplitJoins(h, p, need);
    hide WellFormed, Tiled, Detach, Push, FreeListIndex, Merge, SplitDocumented;
    assert n in h.bm <==> n in c.bm;
    if n in h.bm {
      TakenOffOne(h.bm, h.main, n);
    }
  }

  // ----- the quick lists -----

  /** An overflowing free leaves exactly the freed block, while the counter stays at five. */
  lemma OverflowLeavesOne(h: Heap, p: int)
    requires WellFormed(h) && p in h.bm && h.bm[p].kind == Live
    requires QuickIndex(h.bm[p].size) != -1 && h.counter[QuickIndex(h.bm[p].size)] == 5
    ensures var k := QuickIndex(h.bm[p].size);
            FreeBlock(h, p).quick[k] == [p] && FreeBlock(h, p).counter[k] == 5
  {
    var k := QuickIndex(h.bm[p].size);
    LiveIsBlock(h.bm, Flush(h, k).bm, p);
  }

  /** sf_free of a small block: what it is pushed on, and what that adds to the counter. */
  lemma FreedSmall(h: Heap, p: int) returns (g: Heap, count: int)
    requires WellFormed(h) && p in h.bm && h.bm[p].kind == Live && QuickIndex(h.bm[p].size) != -1
    ensures g == if h.counter[QuickIndex(h.bm[p].size)] < 5 then h else Flush(h, QuickIndex(h.bm[p].size))
    ensures count == if h.counter[QuickIndex(h.bm[p].size)] < 5 then 1 else 0
    ensures p in g.bm && g.bm[p].kind == Live && g.bm[p].size == h.bm[p].size
    ensures g.counter == h.counter && |g.quick| == |g.counter| == 10
    ensures h.counter[QuickIndex(h.bm[p].size)] <= 5
    ensures FreeBlock(h, p) == ToQuick(g, p, count)
  {
    var k := QuickIndex(h.bm[p].size);
    g, count := if h.counter[k] < 5 then h else Flush(h, k), if h.counter[k] < 5 then 1 else 0;
    LiveIsBlock(h.bm, g.bm, p);
  }

  lemma PoppedAsPushed(g: Heap, p: int, count: int)
    requires p in g.bm && g.bm[p].kind == Live && |g.quick| == |g.counter| == 10 && QuickIndex(g.bm[p].size) != -1
    ensures var k, f := QuickIndex(g.bm[p].size), ToQuick(g, p, count);
            && f.quick[k] == [p] + g.quick[k] && f.quick[k][0] == p
            && FromQuick(f, k, 1) == g.(counter := g.counter[k := g.counter[k] + count - 1])
  {
    var k, f := QuickIndex(g.bm[p].size), ToQuick(g, p, count);
    assert f.quick[k][1..] == g.quick[k];
    assert g.bm[p].(kind := Quick).(kind := Live) == g.bm[p];
    assert f.bm[p := f.bm[p].(kind := Live)] == g.bm;
    assert f.quick[k := f.quick[k][1..]] == g.quick;
  }

  lemma GivenFromQuick(f: Heap, request: int, pages: nat)
    requires WellFormed(f) && 0 < request <= TWO64 - 24 && QuickIndex(AlignedBlock(request)) != -1
    requires f.quick[QuickIndex(AlignedBlock(request))] != []
    ensures var k := QuickIndex(AlignedBlock(request));
            && f.quick[k][0] in f.bm
            && Malloc(f, request, pages) == Outcome(FromQuick(f, k, 1), f.quick[k][0] + 16, pages)
  {
    HeadOfQuick(f, QuickIndex(AlignedBlock(request)));
  }

  /**
    Freeing a small block and asking for its size again gives the same block, and the same heap, or the
    flushed one with a counter of four if the list's counter had reached five.
  */
  lemma QuickRoundTrip(h: Heap, p: int, request: int, pages: nat)
    requires WellFormed(h) && p in h.bm && h.bm[p].kind == Live && QuickIndex(h.bm[p].size) != -1
    requires 0 < request <= TWO64 - 24 && AlignedBlock(request) == h.bm[p].size
    ensures var k := QuickIndex(h.bm[p].size);
            Malloc(FreeBlock(h, p), request, pages)
            == Outcome(if h.counter[k] < 5 then h else Flush(h, k).(counter := h.counter[k := 4]), p + 16, pages)
  {
    hide Malloc, FreeBlock, Flush, FromQuick, ToQuick, WellFormed, AlignedBlock, QuickIndex;
    var k := QuickIndex(h.bm[p].size);
    var g, count := FreedSmall(h, p);
    PoppedAsPushed(g, p, count);
    GivenFromQuick(FreeBlock(h, p), request, pages);
    assert count == 1 ==> h.counter[k := h.counter[k]] == h.counter;
  }

  /** Distinct live blocks, freed one after the other. */
  ghost function FreeAll(h: Heap, ps: seq<int>): (h': Heap)
    requires WellFormed(h) && Distinct(ps) && forall p :: p in ps ==> p in Lives(h.bm)
    ensures WellFormed(h')
    decreases |ps|
  {
    if ps == [] then h
    else
      assert ps[0] in ps && ps[0] in Lives(h.bm);
      assert forall i :: 0 <= i < |ps| - 1 ==> ps[1..][i] == ps[i + 1];
      FreeAll(FreeBlock(h, ps[0]), ps[1..])
  }

  /** The same request made n times over. */
  ghost function MallocAll(h: Heap, request: int, n: nat, pages: nat): (r: (Heap, seq<int>, nat))
    requires WellFormed(h) && 0 <= request < TWO64
    ensures WellFormed(r.0)
  {
    if n == 0 then (h, [], pages)
    else
      var (h', ptrs, pages') := MallocAll(h, request, n - 1, pages);
      var out := Malloc(h', request, pages');
      (out.heap, ptrs + [out.ptr], out.pages)
  }

  function Payloads(ps: seq<int>): (ptrs: seq<int>)
    ensures |ptrs| == |ps| && forall i :: 0 <= i < |ps| ==> ptrs[i] == ps[|ps| - 1 - i] + 16
  {
    seq(|ps|, i requires 0 <= i < |ps| => ps[|ps| - 1 - i] + 16)
  }

  lemma FreedCounts(h: Heap, p: int)
    requires WellFormed(h) && p in Lives(h.bm)
    ensures p in h.bm && h.bm[p].kind == Live && h.bm[p].size == Lives(h.bm)[p] && |h.counter| == 10
    ensures var k := QuickIndex(h.bm[p].size);
            k != -1 && h.counter[k] < 5 ==> FreeBlock(h, p).counter == h.counter[k := h.counter[k] + 1]
  {
  }

  lemma MallocAllFrom(h: Heap, request: int, n: nat, pages: nat, h': Heap, ptrs: seq<int>)
    requires WellFormed(h) && WellFormed(h') && 0 <= request < TWO64
    requires MallocAll(h, request, n, pages) == (h', ptrs, pages)
    ensures var out := Malloc(h', request, pages);
            MallocAll(h, request, n + 1, pages) == (out.heap, ptrs + [out.ptr], out.pages)
  {
    hide Malloc, WellFormed;
  }

  /** Blocks of one small size come back last freed, first given, and leave the heap as it was. */
  lemma {:induction false} QuickLifo(h: Heap, ps: seq<int>, request: int, pages: nat)
    requires WellFormed(h) && Distinct(ps) && 0 < request <= TWO64 - 24 && QuickIndex(AlignedBlock(request)) != -1
    requires forall p :: p in ps ==> p in Lives(h.bm) && Lives(h.bm)[p] == AlignedBlock(request)
    requires h.counter[QuickIndex(AlignedBlock(request))] + |ps| <= 5
    ensures MallocAll(FreeAll(h, ps), request, |ps|, pages) == (h, Payloads(ps), pages)
    decreases |ps|
  {
    hide FreeBlock, Malloc, WellFormed, AlignedBlock, QuickIndex, Lives;
    if ps == [] {
      assert Payloads(ps) == [];
    } else {
      var p, t := ps[0], ps[1..];
      assert p in ps && forall i :: 0 <= i < |t| ==> t[i] == ps[i + 1];
      FreedCounts(h, p);
      var f := FreeBlock(h, p);
      forall q | q in t
        ensures q in Lives(f.bm) && Lives(f.bm)[q] == AlignedBlock(request)
      {
        assert q in ps && q != p;
      }
      QuickLifo(f, t, request, pages);
      QuickRoundTrip(h, p, request, pages);
      MallocAllFrom(FreeAll(h, ps), request, |t|, pages, f, Payloads(t));
      assert Payloads(ps) == Payloads(t) + [p + 16];
    }
  }

  /** Along a list, up to its first entry p, the links are those that were there before p's was rewritten. */
  lemma {:induction false} WalkTo(m: Mem, x: int, q: seq<int>, p: int, f: int, s: seq<int>) returns (t: seq<int>)
    requires Stack(m, x, q) && p in q && NULL !in q && Stack(m[p + 16 := f], x, s)
    ensures |t| <= |s| && Stack(m[p + 16 := f], p, t)
    decreases |q|
  {
    assert q[0] in q;
    if q[0] == p {
      t := s;
    } else {
      t := WalkTo(m, m[x + 16], q[1..], p, f, s[1..]);
    }
  }

  /**
    Validation accepts a block that is on a quick list already; freeing it links it to the front again,
    and from there the links never reach the end.
  */
  lemma {:induction false} DoubleFreeLoops(m: Mem, first: seq<int>, h: Heap, k: int, p: int, s: seq<int>)
    requires WellFormed(h) && Repr(m, first, h) && 0 <= k < 10 && p in h.quick[k]
    ensures |first| == 10 && !Stack(m[p + 16 := first[k]], p, s)
    decreases |s|
  {
    assert Stack(m, first[k], h.quick[k]);
    forall x | x in h.quick[k]
      ensures x > 0
    {
      assert OnQuick(h.bm, k, x);
      BlockAboveZero(h, x);
    }
    if Stack(m[p + 16 := first[k]], p, s) {
      var t := WalkTo(m, first[k], h.quick[k], p, first[k], s[1..]);
      DoubleFreeLoops(m, first, h, k, p, t);
    }
  }
}
