/**
  The steps of the allocator as edits of memory: what each routine of hw3/src/sfmm.c writes, in
  order, takes a memory that represents one heap to a memory that represents the next.
*/
module SfSteps {
  import opened Wrappers
  import opened SfSizes
  import opened SfHeap
  import opened SfRuns
  import opened SfMemory

  // ----- following a ring -----

  /** The i-th stop on the way from u through s to t. */
  function Stop(s: seq<int>, t: int, i: nat): int
    requires i <= |s|
  {
    if i < |s| then s[i] else t
  }

  lemma {:induction false} NextStop(m: Mem, u: int, s: seq<int>, t: int, i: nat)
    requires Chain(m, u, s, t) && i <= |s|
    ensures var x := if i == 0 then u else s[i - 1];
            x + 16 in m && m[x + 16] == Stop(s, t, i)
    decreases |s|
  {
    if s != [] && i != 0 {
      NextStop(m, s[0], s[1..], t, i - 1);
    }
  }

  lemma {:induction false} LastStop(m: Mem, u: int, s: seq<int>, t: int)
    requires Chain(m, u, s, t)
    ensures t + 24 in m && m[t + 24] == if s == [] then u else s[|s| - 1]
    decreases |s|
  {
    if s != [] {
      LastStop(m, s[0], s[1..], t);
    }
  }

  /** remove_from_free_list looks for the first block with this header word. */
  predicate FirstWith(m: Mem, s: seq<int>, word: int, x: int) {
    exists i :: 0 <= i < |s| && s[i] == x && HasWord(m, x, word)
             && forall j :: 0 <= j < i ==> !HasWord(m, s[j], word)
  }

  predicate HasWord(m: Mem, x: int, word: int) {
    x + 8 in m && m[x + 8] == word
  }

  /** The first block that fits is the first block with its header word. */
  lemma {:induction false} FirstFitIsFirstWith(m: Mem, bm: Blocks, s: seq<int>, need: int, x: int)
    requires FirstFit(bm, s, need) == Some(x)
    requires forall y :: y in s ==> y in bm && y + 8 in m && m[y + 8] == Word(bm[y])
    ensures x in bm && FirstWith(m, s, Word(bm[x]), x)
  {
    if x == s[0] {
      assert HasWord(m, s[0], Word(bm[x]));
    } else {
      assert forall y :: y in s[1..] ==> y in s;
      assert s[0] in s;
      FirstFitSound(bm, s[1..], need);
      FirstFitIsFirstWith(m, bm, s[1..], need, x);
      var w := Word(bm[x]);
      var i :| 0 <= i < |s[1..]| && s[1..][i] == x && HasWord(m, x, w)
            && forall j :: 0 <= j < i ==> !HasWord(m, s[1..][j], w);
      assert s[i + 1] == x;
      forall j | 0 <= j < i + 1
        ensures !HasWord(m, s[j], w)
      {
        if j > 0 {
          assert !HasWord(m, s[1..][j - 1], w);
        }
      }
    }
  }

  lemma OrTwice(w: int, a: bool, p: bool)
    ensures Or(Or(w, a, false), false, p) == Or(w, a, p)
  {
    if a && !AllocBit(w) {
      AllocLeavesPrev(w);
    }
  }

  lemma AllocLeavesPrev(w: int)
    ensures PrevBit(w + 4) == PrevBit(w)
  {
    assert (w + 4) / 2 == w / 2 + 2;
  }

  lemma SingletonRing(m: Mem, head: int, s: seq<int>)
    requires Ring(m, head, s) && Distinct(s) && head !in s && s != [] && head % 16 == 0 && Aligned(s)
    requires head + 16 in m && head + 24 in m && m[head + 16] == m[head + 24]
    ensures s == [m[head + 16]] && s[0] + 16 in m && s[0] + 24 in m
    ensures m[s[0] + 16] == head && m[s[0] + 24] == head
    ensures Unlink(m, s[0]) == m[head + 16 := head][head + 24 := head][s[0] + 16 := NULL]
  {
    LastStop(m, head, s, head);
    SplitHead(s);
    assert s[0] == s[|s| - 1];
    var rest := s[1..];
    assert rest == [];
    assert Chain(m, s[0], rest, head);
  }

  /** Inserting in an empty ring, in the order in which the source writes the four links. */
  lemma EmptyInsert(m: Mem, head: int, b: int)
    requires head + 16 in m && m[head + 16] == head && b % 16 == 0 && head % 16 == 0 && b != head
    ensures m[head + 16 := b][head + 24 := b][b + 16 := head][b + 24 := head] == LinkFront(m, head, b)
  {
  }

  /** Every block on main list c carries its header word. */
  lemma ListWords(m: Mem, first: seq<int>, h: Heap, c: int)
    requires WellFormed(h) && Repr(m, first, h) && 0 <= c < 10
    ensures forall y :: y in h.main[c] ==> y in h.bm && y + 8 in m && m[y + 8] == Word(h.bm[y]) && y != Head(c)
    ensures Distinct(h.main[c]) && Aligned(h.main[c]) && Head(c) !in h.main[c] && NodesOK(h.bm, h.main)
    ensures Ring(m, Head(c), h.main[c])
  {
    MidBegins(m, first, h, {}, 0);
    ListNodes(h.bm, h.lo, h.hi, h.main, c);
    forall y | y in h.main[c]
      ensures y in h.bm && HeaderOK(m, h.bm, y)
    {
      assert OnMain(h.bm, c, y);
      assert HeaderOK(m, h.bm, y);
    }
  }

  lemma ListedOnMain(h: Heap, p: int)
    requires WellFormed(h) && p in h.bm && h.bm[p].kind == Free
    ensures p in h.main[FreeListIndex(h.bm[p].size)]
  {
    assert OnMain(h.bm, FreeListIndex(h.bm[p].size), p);
  }

  lemma WordParts(h: Heap, p: int)
    requires WellFormed(h) && p in h.bm
    ensures var b := h.bm[p];
            && PrevBit(Word(b)) == b.prev && SizeField(Word(b)) == b.size && AllocBit(Word(b)) == (b.kind != Free)
            && Or(Word(b), true, b.prev) == Header(b.size, true, b.prev)
            && Or(Word(b), false, true) == Word(b.(prev := true))
    ensures var n := p + h.bm[p].size;
            n != h.hi ==> n in h.bm && Or(Word(h.bm[n]), false, true) == Word(h.bm[n].(prev := true))
  {
    var b := h.bm[p];
    assert Placed(h.bm, h.lo, h.hi, p);
    HeaderFields(b.size, b.kind != Free, b.prev);
    OrHeader(b.size, b.kind != Free, b.prev, true, b.prev);
    OrHeader(b.size, b.kind != Free, b.prev, false, true);
    var n := p + b.size;
    if n != h.hi {
      assert Placed(h.bm, h.lo, h.hi, n);
      OrHeader(h.bm[n].size, h.bm[n].kind != Free, h.bm[n].prev, false, true);
    }
  }

  lemma UnlinkKeepsWord(m: Mem, h: Heap, c: int, x: int, z: int)
    requires WellFormed(h) && HeadersOK(m, h.bm) && RingsOK(m, h.main) && NodesOK(h.bm, h.main) && h.lo >= LOWEST
    requires Mapped(m, h.hi) && 0 <= c < 10 && x in h.main[c] && x + 16 in m && x + 24 in m && z in h.bm
    ensures z + 8 in Unlink(m, x) && Unlink(m, x)[z + 8] == Word(h.bm[z])
  {
    UnlinkLinksOnly(m, h.bm, h.lo, h.hi, h.main, c, x);
    LinksOnlyKeeps(m, Unlink(m, x), h.bm, h.lo, h.hi, z);
    assert HeaderOK(m, h.bm, z);
  }

  lemma LastIs(h: Heap, q: int)
    requires Tiled(h.bm, h.lo, h.hi) && IsPrev(h.bm, q, h.hi)
    ensures LastBlock(h) == q
  {
    PrevIsUnique(h.bm, h.lo, h.hi, h.hi, q, LastBlock(h));
  }

  lemma WholeLast(h: Heap, p: int, need: int)
    requires WellFormed(h) && p in h.bm && h.bm[p].kind == Free
    requires GoodSize(need) && need <= h.bm[p].size && h.bm[p].size - need < MIN_BLOCK
    requires WellFormed(Allocate(h, p, need))
    ensures var h' := Allocate(h, p, need);
            h'.bm[LastBlock(h')].kind != Free <==> h.bm[LastBlock(h)].kind != Free || p + h.bm[p].size == h.hi
  {
    var last := LastBlock(h);
    LastIs(Allocate(h, p, need), last);
    if p + h.bm[p].size == h.hi {
      LastIs(h, p);
    }
  }

  /** The writes of allocate_no_splitting, in order. */
  lemma WholeSettles(m0: Mem, first: seq<int>, h: Heap, p: int, need: int)
    requires WellFormed(h) && Repr(m0, first, h) && p in h.bm && h.bm[p].kind == Free
    requires GoodSize(need) && need <= h.bm[p].size && h.bm[p].size - need < MIN_BLOCK
    ensures p + 16 in m0 && p + 24 in m0
    ensures var w, h', n := Word(h.bm[p]), Allocate(h, p, need), p + h.bm[p].size;
            var m1 := Unlink(m0, p);
            && p + 8 in m1 && m1[p + 8] == w && SizeField(Or(w, true, PrevBit(w))) == h.bm[p].size
            && var m2 := m1[p + 8 := Or(w, true, PrevBit(w))];
               var m3 := if n == h.hi then m2 else if n + 8 in m2 then m2[n + 8 := Or(m2[n + 8], false, true)] else m2;
               && (n != h.hi ==> n + 8 in m2)
               && WellFormed(h') && Repr(m3, first, h') && LivesKept(m0, m3, h.bm, p)
               && (h'.bm[LastBlock(h')].kind != Free <==> h.bm[LastBlock(h)].kind != Free || n == h.hi)
               && h'.lo == h.lo && h'.hi == h.hi && h'.counter == h.counter
  {
    var b, c := h.bm[p], FreeListIndex(h.bm[p].size);
    var n := p + b.size;
    var main1 := Detach(h.main, c, p);
    ListedOnMain(h, p);
    ListWords(m0, first, h, c);
    WordParts(h, p);
    OwnedInHeap(h.bm, h.lo, h.hi, p);
    HeaderFields(b.size, true, b.prev);
    AllocateKeepsHeap(h, p, need);
    WholeLast(h, p, need);
    MidBegins(m0, first, h, {p, n}, p);
    MidUnlink(m0, m0, h.bm, h.lo, h.hi, {p, n}, p, h.main, p);
    UnlinkKeepsWord(m0, h, c, p, p);
    var m1 := Unlink(m0, p);
    hide Unlink, Mid, AllocBit, PrevBit, SizeField, Or, Placed, Apart, MainOff;
    MidWrite(m0, m1, h.bm, h.lo, h.hi, {p, n}, p, main1, p, p + 8, Header(b.size, true, b.prev));
    var m2 := m1[p + 8 := Header(b.size, true, b.prev)];
    if n != h.hi {
      UnlinkKeepsWord(m0, h, c, p, n);
      OwnedInHeap(h.bm, h.lo, h.hi, n);
      MidWrite(m0, m2, h.bm, h.lo, h.hi, {p, n}, p, main1, n, n + 8, Word(h.bm[n].(prev := true)));
      AllocateWholeSettles(m0, m2[n + 8 := Word(h.bm[n].(prev := true))], first, h, p, need);
    } else {
      NothingAtEnd(h.bm, h.lo, h.hi);
      AllocateWholeSettles(m0, m2, first, h, p, need);
    }
  }

  /** After the four writes of allocate_splitting only the insertion of the rest is missing. */
  lemma SplitSettles(m0: Mem, m: Mem, first: seq<int>, h: Heap, p: int, need: int)
    requires WellFormed(h) && Repr(m0, first, h) && p in h.bm && h.bm[p].kind == Free
    requires GoodSize(need) && h.bm[p].size - need >= MIN_BLOCK
    requires p + 16 in m0 && p + 24 in m0
    requires var u := Header(h.bm[p].size - need, false, true);
             m == Unlink(m0, p)[p + 8 := Header(need, true, h.bm[p].prev)][p + need + 8 := u][p + h.bm[p].size := u]
    ensures var c := FreeListIndex(h.bm[p].size - need);
            && Head(c) + 16 in m && m[Head(c) + 16] % 16 == 0
            && Repr(LinkFront(m, Head(c), p + need), first, Allocate(h, p, need))
            && LivesKept(m0, LinkFront(m, Head(c), p + need), h.bm, p)
    ensures var h' := Allocate(h, p, need);
            && WellFormed(h') && h'.lo == h.lo && h'.hi == h.hi && h'.counter == h.counter
            && (h'.bm[LastBlock(h')].kind != Free <==> h.bm[LastBlock(h)].kind != Free)
  {
    var b, c, q, rest := h.bm[p], FreeListIndex(h.bm[p].size), p + need, h.bm[p].size - need;
    var v, u := Header(need, true, b.prev), Header(rest, false, true);
    var main1 := Detach(h.main, c, p);
    OwnedInHeap(h.bm, h.lo, h.hi, p);
    AllocateKeepsHeap(h, p, need);
    SplitLast(h, p, need);
    SplitMid(m0, first, h, p, main1);
    hide Unlink, Mid, Placed, Apart, MainOff, Without, LinkFront, Repr;
    MidWrite(m0, Unlink(m0, p), h.bm, h.lo, h.hi, {p}, p, main1, p, p + 8, v);
    MidWrite(m0, Unlink(m0, p)[p + 8 := v], h.bm, h.lo, h.hi, {p}, p, main1, p, q + 8, u);
    MidWrite(m0, Unlink(m0, p)[p + 8 := v][q + 8 := u], h.bm, h.lo, h.hi, {p}, p, main1, p, p + b.size, u);
    HeadLink(m0, m, h, {p}, p, main1, FreeListIndex(rest));
    AllocateSplitSettles(m0, m, first, h, p, need);
  }

  lemma SplitMid(m0: Mem, first: seq<int>, h: Heap, p: int, main1: Lists)
    requires WellFormed(h) && Repr(m0, first, h) && p in h.bm && h.bm[p].kind == Free
    requires p + 16 in m0 && p + 24 in m0 && main1 == Detach(h.main, FreeListIndex(h.bm[p].size), p)
    ensures Mid(m0, Unlink(m0, p), h.bm, h.lo, h.hi, {p}, p, main1)
    ensures p !in main1[FreeListIndex(h.bm[p].size)]
  {
    ListedOnMain(h, p);
    MidBegins(m0, first, h, {p}, p);
    MidUnlink(m0, m0, h.bm, h.lo, h.hi, {p}, p, h.main, p);
    WithoutKeepsRest(h.main[FreeListIndex(h.bm[p].size)], p);
  }

  lemma SplitWords(h: Heap, p: int, need: int)
    requires WellFormed(h) && p in h.bm && h.bm[p].kind == Free && GoodSize(need)
    ensures var b := h.bm[p];
            && Or(need, true, PrevBit(Word(b))) == Header(need, true, b.prev)
            && SizeField(Header(need, true, b.prev)) == need
            && Or(Word(b) - need, false, true) == Header(b.size - need, false, true)
            && SizeField(Header(b.size - need, false, true)) == b.size - need
            && p % 16 == 0 && p >= h.lo && (b.size - need) % 16 == 0
  {
    hide AllocBit, PrevBit, SizeField, Or;
    var b := h.bm[p];
    OwnedInHeap(h.bm, h.lo, h.hi, p);
    HeaderFields(b.size, false, b.prev);
    HeaderFields(need, true, b.prev);
    HeaderFields(b.size - need, false, true);
    OrHeader(need, false, false, true, b.prev);
    OrHeader(b.size - need, false, b.prev, false, true);
  }

  lemma UnlinkedWord(m: Mem, first: seq<int>, h: Heap, p: int)
    requires WellFormed(h) && Repr(m, first, h) && p in h.bm && h.bm[p].kind == Free
    ensures h.lo >= LOWEST && p + 16 in m && p + 24 in m && p + 8 in Unlink(m, p) && Unlink(m, p)[p + 8] == Word(h.bm[p])
  {
    var c := FreeListIndex(h.bm[p].size);
    ListedOnMain(h, p);
    ListWords(m, first, h, c);
    UnlinkLinksOnly(m, h.bm, h.lo, h.hi, h.main, c, p);
    UnlinkKeepsWord(m, h, c, p, p);
  }

  lemma HeadLink(m0: Mem, m: Mem, h: Heap, T: set<int>, p: int, main: Lists, c: int)
    requires Tiled(h.bm, h.lo, h.hi) && Mid(m0, m, h.bm, h.lo, h.hi, T, p, main) && 0 <= c < 10
    ensures Head(c) + 16 in m && m[Head(c) + 16] % 16 == 0
  {
    ListNodes(h.bm, h.lo, h.hi, main, c);
    assert Ring(m, Head(c), main[c]);
    if main[c] != [] {
      assert main[c][0] in main[c];
    }
  }

  lemma SplitLast(h: Heap, p: int, need: int)
    requires WellFormed(h) && p in h.bm && h.bm[p].kind == Free
    requires GoodSize(need) && h.bm[p].size - need >= MIN_BLOCK
    requires WellFormed(Allocate(h, p, need))
    ensures var h' := Allocate(h, p, need);
            h'.bm[LastBlock(h')].kind != Free <==> h.bm[LastBlock(h)].kind != Free
  {
    var last := LastBlock(h);
    if last == p {
      LastIs(Allocate(h, p, need), p + need);
    } else {
      TakeFirstTiles(h.bm, h.lo, h.hi, p, need);
      LastIs(Allocate(h, p, need), last);
    }
  }

  /** What coalesce finds in the words around p. */
  lemma CoalesceReads(m0: Mem, m: Mem, first: seq<int>, h: Heap, p: int)
    requires WellFormed(h) && Repr(m0, first, h) && p in h.bm && h.bm[p].kind == Live
    requires Mid(m0, m, h.bm, h.lo, h.hi, {p, p + h.bm[p].size}, p, h.main) && ReleaseWords(m, h.bm, p)
    ensures var b, n, a := h.bm[p], p + h.bm[p].size, LowEnd(h.bm, h.lo, h.hi, p);
            && m[p + 8] == Header(b.size, false, b.prev) && PrevBit(m[p + 8]) == b.prev && SizeField(m[p + 8]) == b.size
            && p in m && (a == p <==> b.prev || m[p] == 0)
            && (a != p ==> m[p] == Word(h.bm[a]) && Cleared(m[p]) == h.bm[a].size && a == p - h.bm[a].size && !b.prev)
            && (n != h.hi ==> n in h.bm && n + 8 in m && AllocBit(m[n + 8]) == (h.bm[n].kind != Free)
                              && SizeField(m[n + 8]) == h.bm[n].size)
            && (HighEnd(h.bm, p) == n <==> n == h.hi || h.bm[n].kind != Free)
            && (HighEnd(h.bm, p) != n ==> HighEnd(h.bm, p) == n + h.bm[n].size)
            && (p == h.lo ==> !b.prev)
  {
    var b, n, a := h.bm[p], p + h.bm[p].size, LowEnd(h.bm, h.lo, h.hi, p);
    OwnedInHeap(h.bm, h.lo, h.hi, p);
    assert Placed(h.bm, h.lo, h.hi, p);
    NothingAtEnd(h.bm, h.lo, h.hi);
    HeaderFields(b.size, false, b.prev);
    if n != h.hi {
      OwnedInHeap(h.bm, h.lo, h.hi, n);
      HeaderFields(h.bm[n].size, h.bm[n].kind != Free, false);
    }
    if a != p {
      LowerWords(m0, m, first, h, p, h.main);
      OwnedInHeap(h.bm, h.lo, h.hi, a);
      ClearedHeader(h.bm[a].size, false, h.bm[a].prev);
    } else {
      FooterMapped(m0, m, h, {p, n}, p);
    }
  }

  lemma FooterMapped(m0: Mem, m: Mem, h: Heap, T: set<int>, p: int)
    requires WellFormed(h) && p in h.bm && Mid(m0, m, h.bm, h.lo, h.hi, T, p, h.main)
    ensures p in m && m[h.lo] == m0[h.lo]
  {
    OwnedInHeap(h.bm, h.lo, h.hi, p);
  }

  /** What remains of memory once the free neighbours of p are unlinked. */
  ghost function NeighboursOff(m: Mem, h: Heap, p: int): (m': Mem)
    requires WellFormed(h) && p in h.bm && h.bm[p].kind == Live
  {
    var a, n, z := LowEnd(h.bm, h.lo, h.hi, p), p + h.bm[p].size, HighEnd(h.bm, p);
    var m1 := if a != p && Unlinkable(m, a) then Unlink(m, a) else m;
    if z != n && Unlinkable(m1, n) then Unlink(m1, n) else m1
  }

  predicate Unlinkable(m: Mem, x: int) {
    && x + 16 in m && x + 24 in m
    && m[x + 24] != x && m[x + 24] % 16 == 0 && x % 16 == 0 && m[x + 16] % 16 == 0
  }

  lemma NodeUnlinkable(m0: Mem, m: Mem, h: Heap, T: set<int>, p: int, main: Lists, x: int)
    requires WellFormed(h) && Mid(m0, m, h.bm, h.lo, h.hi, T, p, main)
    requires x in h.bm && h.bm[x].kind == Free && x in main[FreeListIndex(h.bm[x].size)]
    ensures Unlinkable(m, x)
  {
    var c := FreeListIndex(h.bm[x].size);
    OwnedInHeap(h.bm, h.lo, h.hi, x);
    RingNeighbours(m, h.bm, h.lo, h.hi, main, c, x);
    ListNodes(h.bm, h.lo, h.hi, main, c);
  }

  /** Unlinking the block below p, if it is free. */
  lemma LowerUnlinked(m0: Mem, m: Mem, h: Heap, p: int)
    requires WellFormed(h) && p in h.bm && h.bm[p].kind == Live
    requires Mid(m0, m, h.bm, h.lo, h.hi, {p, p + h.bm[p].size}, p, h.main) && ReleaseWords(m, h.bm, p)
    requires LowEnd(h.bm, h.lo, h.hi, p) != p
    ensures var a := LowEnd(h.bm, h.lo, h.hi, p);
            && Unlinkable(m, a) && ReleaseWords(Unlink(m, a), h.bm, p)
            && Mid(m0, Unlink(m, a), h.bm, h.lo, h.hi, {p, p + h.bm[p].size}, p,
                   Detach(h.main, FreeListIndex(h.bm[a].size), a))
  {
    var a := LowEnd(h.bm, h.lo, h.hi, p);
    hide Mid, Unlink, ReleaseWords, LowEnd;
    ListedOnMain(h, a);
    NodeUnlinkable(m0, m, h, {p, p + h.bm[p].size}, p, h.main, a);
    UnlinkNeighbour(m0, m, h, p, h.main, a);
  }

  /** Unlinking the block above p, if it is free, from lists that have lost only the block below. */
  lemma UpperUnlinked(m0: Mem, m1: Mem, h: Heap, p: int, main1: Lists)
    requires WellFormed(h) && p in h.bm && h.bm[p].kind == Live
    requires Mid(m0, m1, h.bm, h.lo, h.hi, {p, p + h.bm[p].size}, p, main1) && ReleaseWords(m1, h.bm, p)
    requires HighEnd(h.bm, p) != p + h.bm[p].size
    requires var a := LowEnd(h.bm, h.lo, h.hi, p);
             main1 == if a == p then h.main else Detach(h.main, FreeListIndex(h.bm[a].size), a)
    ensures var n := p + h.bm[p].size;
            && n in h.bm && Unlinkable(m1, n) && ReleaseWords(Unlink(m1, n), h.bm, p)
            && Mid(m0, Unlink(m1, n), h.bm, h.lo, h.hi, {p, p + h.bm[p].size}, p,
                   Detach(main1, FreeListIndex(h.bm[n].size), n))
  {
    var n := p + h.bm[p].size;
    StillListed(h, p, main1);
    hide Mid, Unlink, ReleaseWords, LowEnd, HighEnd;
    NodeUnlinkable(m0, m1, h, {p, n}, p, main1, n);
    UnlinkNeighbour(m0, m1, h, p, main1, n);
  }

  /** Unlinking the free neighbours leaves the rest of the lists and all words in place. */
  lemma NeighboursUnlinked(m0: Mem, m: Mem, h: Heap, p: int)
    requires WellFormed(h) && p in h.bm && h.bm[p].kind == Live
    requires Mid(m0, m, h.bm, h.lo, h.hi, {p, p + h.bm[p].size}, p, h.main) && ReleaseWords(m, h.bm, p)
    ensures var a, z := LowEnd(h.bm, h.lo, h.hi, p), HighEnd(h.bm, p);
            var m2 := NeighboursOff(m, h, p);
            && Mid(m0, m2, h.bm, h.lo, h.hi, {p, p + h.bm[p].size}, p, Unlisted(h.bm, h.main, a, p, z))
            && ReleaseWords(m2, h.bm, p)
    ensures var a, n, z := LowEnd(h.bm, h.lo, h.hi, p), p + h.bm[p].size, HighEnd(h.bm, p);
            && (a != p ==> Unlinkable(m, a))
            && (z != n ==> Unlinkable(if a == p then m else Unlink(m, a), n))
  {
    var a, n, z := LowEnd(h.bm, h.lo, h.hi, p), p + h.bm[p].size, HighEnd(h.bm, p);
    var main1 := if a == p then h.main else Detach(h.main, FreeListIndex(h.bm[a].size), a);
    var m1 := m;
    if a != p {
      LowerUnlinked(m0, m, h, p);
      m1 := Unlink(m, a);
    }
    hide Mid, Unlink, ReleaseWords, LowEnd, WellFormed, Detach, Unlinkable;
    if z != n {
      UpperUnlinked(m0, m1, h, p, main1);
    }
  }

  /** The last two writes of coalesce, in all four neighbour cases. */
  lemma CoalesceSettles(m0: Mem, m: Mem, first: seq<int>, h: Heap, p: int)
    requires WellFormed(h) && Repr(m0, first, h) && p in h.bm && h.bm[p].kind == Live
    requires Mid(m0, m, h.bm, h.lo, h.hi, {p, p + h.bm[p].size}, p, h.main) && ReleaseWords(m, h.bm, p)
    ensures var a, z := LowEnd(h.bm, h.lo, h.hi, p), HighEnd(h.bm, p);
            var w, m2 := Header(z - a, false, h.bm[a].prev), NeighboursOff(m, h, p);
            && Mid(m0, m2[a + 8 := w][z := w], h.bm, h.lo, h.hi, FreeSet(h, p), p, Unlisted(h.bm, h.main, a, p, z))
            && FreeWords(m2[a + 8 := w][z := w], h, p)
            && a + 8 in m2 && (a != p ==> m2[a + 8] == Word(h.bm[a]))
  {
    NeighboursUnlinked(m0, m, h, p);
    var a, z := LowEnd(h.bm, h.lo, h.hi, p), HighEnd(h.bm, p);
    hide Mid, Unlink, Repr, MainOff, ReleaseWords, LowEnd, HighEnd, NeighboursOff, Unlisted;
    var main2, m2 := Unlisted(h.bm, h.main, a, p, z), NeighboursOff(m, h, p);
    if a != p {
      LowerWords(m0, m2, first, h, p, main2);
    } else {
      ReleasedHeader(m2, h.bm, p);
    }
    WriteMerged(m0, m2, h, p, main2);
  }

  lemma ReleasedHeader(m: Mem, bm: Blocks, p: int)
    requires p in bm && ReleaseWords(m, bm, p)
    ensures p + 8 in m && m[p + 8] == Header(bm[p].size, false, bm[p].prev)
    ensures p + bm[p].size in m && m[p + bm[p].size] == m[p + 8]
  {
  }

  lemma StillListed(h: Heap, p: int, main1: Lists)
    requires WellFormed(h) && p in h.bm && h.bm[p].kind == Live
    requires HighEnd(h.bm, p) != p + h.bm[p].size
    requires var a := LowEnd(h.bm, h.lo, h.hi, p);
             main1 == if a == p then h.main else Detach(h.main, FreeListIndex(h.bm[a].size), a)
    ensures var n := p + h.bm[p].size; n in h.bm && h.bm[n].kind == Free && n in main1[FreeListIndex(h.bm[n].size)]
  {
    var a, n := LowEnd(h.bm, h.lo, h.hi, p), p + h.bm[p].size;
    OwnedInHeap(h.bm, h.lo, h.hi, p);
    ListedOnMain(h, n);
    if a != p {
      OwnedInHeap(h.bm, h.lo, h.hi, a);
      WithoutKeepsRest(h.main[FreeListIndex(h.bm[a].size)], a);
    }
  }

  lemma MergedAligned(h: Heap, p: int)
    requires WellFormed(h) && p in h.bm && h.bm[p].kind == Live
    ensures var a, z := LowEnd(h.bm, h.lo, h.hi, p), HighEnd(h.bm, p);
            a % 16 == 0 && z % 16 == 0 && h.bm[a].size % 16 == 0
    ensures LowEnd(h.bm, h.lo, h.hi, p) != p ==> h.bm[LowEnd(h.bm, h.lo, h.hi, p)].kind == Free
  {
    var a, z := LowEnd(h.bm, h.lo, h.hi, p), HighEnd(h.bm, p);
    FreeRange(h.bm, h.lo, h.hi, p);
    hide LowEnd, HighEnd;
    OwnedInHeap(h.bm, h.lo, h.hi, a);
    if z in h.bm {
      OwnedInHeap(h.bm, h.lo, h.hi, z);
    }
  }

  /** The arithmetic of the merged header. */
  lemma MergedWords(h: Heap, p: int)
    requires WellFormed(h) && p in h.bm && h.bm[p].kind == Live
    ensures var a, z := LowEnd(h.bm, h.lo, h.hi, p), HighEnd(h.bm, p);
            && Or(z - a, false, h.bm[a].prev) == Header(z - a, false, h.bm[a].prev)
            && SizeField(Header(z - a, false, h.bm[a].prev)) == z - a
            && (a != p ==> PrevBit(Word(h.bm[a])) == h.bm[a].prev)
  {
    MergedAligned(h, p);
    var a, z := LowEnd(h.bm, h.lo, h.hi, p), HighEnd(h.bm, p);
    hide AllocBit, PrevBit, SizeField, Or, LowEnd, HighEnd, WellFormed;
    HeaderFields(z - a, false, h.bm[a].prev);
    OrHeader(z - a, false, false, false, h.bm[a].prev);
    HeaderFields(h.bm[a].size, false, h.bm[a].prev);
  }

  /** What coalesce reads and does on the lower side of p: nothing, or the block at a is unlinked. */
  predicate LowerPlan(m: Mem, p: int, size: int, a: int, z: int, w: int, m1: Mem, m2: Mem) {
    && p in m && p + 8 in m && SizeField(m[p + 8]) == size && SizeField(w) == z - a
    && (if a == p then (PrevBit(m[p + 8]) || m[p] == 0) && m1 == m && w == m[p + 8] + (z - p - size)
        else !PrevBit(m[p + 8]) && m[p] != 0 && Cleared(m[p]) == p - a && m[p + 8] == size
             && Unlinkable(m, a) && m1 == Unlink(m, a)
             && a + 8 in m2 && w == Or(z - a, false, PrevBit(m2[a + 8])))
  }

  /** The upper side: nothing, or the block after p is unlinked. */
  predicate UpperPlan(m: Mem, n: int, hi: int, z: int, m1: Mem, m2: Mem) {
    && (n != hi ==> n + 8 in m)
    && (if z == n then (n == hi || AllocBit(m[n + 8])) && m2 == m1
        else n != hi && !AllocBit(m[n + 8]) && SizeField(m[n + 8]) == z - n
             && Unlinkable(m1, n) && m2 == Unlink(m1, n))
  }

  lemma LowerPlanHolds(m0: Mem, m: Mem, first: seq<int>, h: Heap, p: int, m1: Mem)
    requires WellFormed(h) && Repr(m0, first, h) && p in h.bm && h.bm[p].kind == Live
    requires Mid(m0, m, h.bm, h.lo, h.hi, {p, p + h.bm[p].size}, p, h.main) && ReleaseWords(m, h.bm, p)
    requires var a := LowEnd(h.bm, h.lo, h.hi, p);
             if a == p then m1 == m else Unlinkable(m, a) && m1 == Unlink(m, a)
    ensures var a, z := LowEnd(h.bm, h.lo, h.hi, p), HighEnd(h.bm, p);
            LowerPlan(m, p, h.bm[p].size, a, z, Header(z - a, false, h.bm[a].prev), m1, NeighboursOff(m, h, p))
  {
    CoalesceSettles(m0, m, first, h, p);
    CoalesceReads(m0, m, first, h, p);
    MergedWords(h, p);
    hide Mid, Unlink, Repr, MainOff, ReleaseWords, HighEnd, FreeWords, WellFormed, NeighboursOff,
      AllocBit, PrevBit, SizeField, Or, Cleared, LowEnd, IsPrev;
  }

  lemma UpperPlanHolds(m0: Mem, m: Mem, first: seq<int>, h: Heap, p: int, m1: Mem, m2: Mem)
    requires WellFormed(h) && Repr(m0, first, h) && p in h.bm && h.bm[p].kind == Live
    requires Mid(m0, m, h.bm, h.lo, h.hi, {p, p + h.bm[p].size}, p, h.main) && ReleaseWords(m, h.bm, p)
    requires var n := p + h.bm[p].size;
             if HighEnd(h.bm, p) == n then m2 == m1 else Unlinkable(m1, n) && m2 == Unlink(m1, n)
    ensures UpperPlan(m, p + h.bm[p].size, h.hi, HighEnd(h.bm, p), m1, m2)
  {
    CoalesceReads(m0, m, first, h, p);
    hide Mid, Unlink, Repr, MainOff, ReleaseWords, FreeWords, WellFormed, NeighboursOff,
      AllocBit, PrevBit, SizeField, Or, Cleared, LowEnd, HighEnd, IsPrev;
  }

  /**
    Coalescing p in the terms in which the code computes it: from a to z, first unlinking (m1, m2),
    then writing the word w as header and footer.
  */
  lemma CoalescePlan(m0: Mem, m: Mem, first: seq<int>, h: Heap, p: int)
    returns (a: int, z: int, w: int, m1: Mem, m2: Mem)
    requires WellFormed(h) && Repr(m0, first, h) && p in h.bm && h.bm[p].kind == Live
    requires Mid(m0, m, h.bm, h.lo, h.hi, {p, p + h.bm[p].size}, p, h.main) && ReleaseWords(m, h.bm, p)
    ensures a == LowEnd(h.bm, h.lo, h.hi, p) && z == HighEnd(h.bm, p)
    ensures Mid(m0, m2[a + 8 := w][z := w], h.bm, h.lo, h.hi, FreeSet(h, p), p, Unlisted(h.bm, h.main, a, p, z))
    ensures FreeWords(m2[a + 8 := w][z := w], h, p)
    ensures LowerPlan(m, p, h.bm[p].size, a, z, w, m1, m2)
    ensures UpperPlan(m, p + h.bm[p].size, h.hi, z, m1, m2)
    ensures p + h.bm[p].size in m && m[p + h.bm[p].size] == m[p + 8]
  {
    hide Mid, Unlink, Repr, MainOff, ReleaseWords, Unlisted, FreeWords, LowerPlan, UpperPlan;
    NeighboursUnlinked(m0, m, h, p);
    CoalesceSettles(m0, m, first, h, p);
    ReleasedHeader(m, h.bm, p);
    a, z := LowEnd(h.bm, h.lo, h.hi, p), HighEnd(h.bm, p);
    hide LowEnd, HighEnd, WellFormed, Unlinkable;
    w := Header(z - a, false, h.bm[a].prev);
    m1 := if a == p then m else Unlink(m, a);
    m2 := if z == p + h.bm[p].size then m1 else Unlink(m1, p + h.bm[p].size);
    assert m2 == NeighboursOff(m, h, p);
    LowerPlanHolds(m0, m, first, h, p, m1);
    UpperPlanHolds(m0, m, first, h, p, m1, m2);
  }

  lemma ReleaseHeader(h: Heap, p: int)
    requires WellFormed(h) && p in h.bm
    ensures Or(h.bm[p].size, false, h.bm[p].prev) == Header(h.bm[p].size, false, h.bm[p].prev)
  {
    OwnedInHeap(h.bm, h.lo, h.hi, p);
    OrHeader(h.bm[p].size, false, false, false, h.bm[p].prev);
  }

  lemma Overwrite(m: Mem, m0: Mem, a: int, v: int)
    requires m[a := 0] == m0[a := 0]
    ensures m[a := v] == m0[a := v]
  {
    assert m[a := v] == m[a := 0][a := v];
    assert m0[a := v] == m0[a := 0][a := v];
  }

  lemma ReadyToInsert(m0: Mem, m: Mem, h: Heap, p: int)
    requires WellFormed(h) && p in h.bm && h.bm[p].kind == Live
    requires var a, z := LowEnd(h.bm, h.lo, h.hi, p), HighEnd(h.bm, p);
             Mid(m0, m, h.bm, h.lo, h.hi, FreeSet(h, p), p, Unlisted(h.bm, h.main, a, p, z)) && FreeWords(m, h, p)
    ensures var a, z := LowEnd(h.bm, h.lo, h.hi, p), HighEnd(h.bm, p);
            && a + 8 in m && m[a + 8] == Header(z - a, false, h.bm[a].prev) && (z - a) % 16 == 0
            && a % 16 == 0 && a > 511
            && Head(FreeListIndex(z - a)) + 16 in m && m[Head(FreeListIndex(z - a)) + 16] % 16 == 0
  {
    var a, z := LowEnd(h.bm, h.lo, h.hi, p), HighEnd(h.bm, p);
    MergedAligned(h, p);
    MidMapped(m0, m, h, FreeSet(h, p), p, Unlisted(h.bm, h.main, a, p, z));
    HeadLink(m0, m, h, FreeSet(h, p), p, Unlisted(h.bm, h.main, a, p, z), FreeListIndex(z - a));
    OwnedInHeap(h.bm, h.lo, h.hi, a);
  }

  /** After the merge the next block's prev-allocated bit is clear already. */
  lemma ClearAgain(m: Mem, first: seq<int>, h: Heap, p: int)
    requires WellFormed(h) && p in h.bm && h.bm[p].kind == Live
    requires WellFormed(FreeMain(h, p)) && Repr(m, first, FreeMain(h, p))
    ensures var a, z := LowEnd(h.bm, h.lo, h.hi, p), HighEnd(h.bm, p);
            && a + 8 in m && SizeField(m[a + 8]) == z - a
            && (z != h.hi ==> z + 8 in m)
            && ClearedAfter(m, a, h.hi) == m
  {
    var a, z := LowEnd(h.bm, h.lo, h.hi, p), HighEnd(h.bm, p);
    var h' := FreeMain(h, p);
    FreeRange(h.bm, h.lo, h.hi, p);
    assert HeaderOK(m, h'.bm, a);
    OwnedInHeap(h'.bm, h.lo, h.hi, a);
    HeaderFields(z - a, false, h.bm[a].prev);
    if z != h.hi {
      assert HeaderOK(m, h'.bm, z);
      OwnedInHeap(h'.bm, h.lo, h.hi, z);
      var b := h'.bm[z];
      HeaderFields(b.size, true, false);
      ClearedHeader(b.size, true, false);
      assert m[z + 8] == Header(b.size, true, false);
    }
  }

  // ----- quick-list facts -----

  lemma QuickNonempty(m: Mem, first: seq<int>, h: Heap, k: int)
    requires WellFormed(h) && Repr(m, first, h) && 0 <= k < 10
    ensures first[k] != NULL <==> h.quick[k] != []
    ensures h.quick[k] != [] ==> first[k] == h.quick[k][0] && h.quick[k][0] in h.bm
  {
    assert Stack(m, first[k], h.quick[k]);
    if h.quick[k] != [] {
      HeadOfQuick(h, k);
      OwnedInHeap(h.bm, h.lo, h.hi, h.quick[k][0]);
    }
  }

  /** Exchanging Live and Quick does not move or free the last block. */
  lemma RekindLast(h: Heap, h': Heap)
    requires WellFormed(h) && WellFormed(h') && h'.lo == h.lo && h'.hi == h.hi && h'.bm.Keys == h.bm.Keys
    requires forall x :: x in h.bm ==> h'.bm[x].size == h.bm[x].size && (h'.bm[x].kind == Free <==> h.bm[x].kind == Free)
    ensures h'.bm[LastBlock(h')].kind != Free <==> h.bm[LastBlock(h)].kind != Free
  {
    LastIs(h', LastBlock(h));
  }

  /** The header updates of quick_list_allocate rewrite what is there already. */
  lemma PoppedWords(m: Mem, first: seq<int>, h: Heap, k: int, p: int)
    requires WellFormed(h) && 0 <= k < 10 && h.quick[k] != [] && p == h.quick[k][0] && p in h.bm
    requires WellFormed(FromQuick(h, k, 1)) && Repr(m, first, FromQuick(h, k, 1))
    ensures p + 8 in m && Or(SizeField(m[p + 8]), true, PrevBit(m[p + 8])) == m[p + 8]
    ensures SizeField(m[p + 8]) == h.bm[p].size
    ensures var n := p + h.bm[p].size;
            n != h.hi ==> n + 8 in m && Or(m[n + 8], false, true) == m[n + 8]
  {
    var h' := FromQuick(h, k, 1);
    HeadOfQuick(h, k);
    OwnedInHeap(h'.bm, h'.lo, h'.hi, p);
    assert HeaderOK(m, h'.bm, p);
    WordParts(h', p);
    OrHeader(h.bm[p].size, false, false, true, h.bm[p].prev);
    var n := p + h.bm[p].size;
    if n != h.hi {
      assert Placed(h'.bm, h'.lo, h'.hi, p);
      assert HeaderOK(m, h'.bm, n);
    }
  }

  lemma BlockWord(m: Mem, first: seq<int>, h: Heap, p: int)
    requires WellFormed(h) && Repr(m, first, h) && p in h.bm
    ensures p + 8 in m && m[p + 8] == Word(h.bm[p])
    ensures SizeField(m[p + 8]) == h.bm[p].size && PrevBit(m[p + 8]) == h.bm[p].prev
    ensures AllocBit(m[p + 8]) == (h.bm[p].kind != Free)
  {
    assert HeaderOK(m, h.bm, p);
    WordParts(h, p);
  }

  lemma FreeMainLast(h: Heap, p: int)
    requires WellFormed(h) && p in h.bm && h.bm[p].kind == Live && WellFormed(FreeMain(h, p))
    ensures var h' := FreeMain(h, p);
            h'.bm[LastBlock(h')].kind != Free <==> h.bm[LastBlock(h)].kind != Free && HighEnd(h.bm, p) != h.hi
  {
    var a, z, last := LowEnd(h.bm, h.lo, h.hi, p), HighEnd(h.bm, p), LastBlock(h);
    FreeRange(h.bm, h.lo, h.hi, p);
    NothingAtEnd(h.bm, h.lo, h.hi);
    if z == h.hi {
      LastIs(FreeMain(h, p), a);
    } else {
      if a < last < z {
        MergedAway(h.bm, h.lo, h.hi, p, last);
      }
      LastIs(FreeMain(h, p), last);
    }
  }

  // ----- keeping payloads across several steps -----

  lemma LivesKeptFirst(m: Mem, first: seq<int>, h: Heap, p: int)
    requires WellFormed(h) && Repr(m, first, h)
    ensures LivesKept(m, m, h.bm, p)
  {
    MidBegins(m, first, h, {}, p);
  }

  /** A step that starts from bm1, where all live blocks of bm0 but p are live still. */
  lemma LivesKeptTwice(m0: Mem, m1: Mem, m2: Mem, bm0: Blocks, bm1: Blocks, p: int, q: int)
    requires LivesKept(m0, m1, bm0, p) && LivesKept(m1, m2, bm1, q)
    requires forall x :: x in Lives(bm0) && x != p ==> x in Lives(bm1) && Lives(bm1)[x] == Lives(bm0)[x] && x != q
    ensures LivesKept(m0, m2, bm0, p)
  {
    forall x | x in bm0 && bm0[x].kind == Live && x != p
      ensures SameBody(m0, m2, bm0, x)
    {
      assert x in Lives(bm0);
      BodyAcross(m0, m1, m2, bm0, bm1, x);
    }
  }

  lemma LivesKeptMore(m0: Mem, m1: Mem, m2: Mem, bm0: Blocks, bm1: Blocks, p: int)
    requires LivesKept(m0, m1, bm0, NULL) && LivesKept(m1, m2, bm1, p) && Lives(bm0) == Lives(bm1)
    requires NULL !in bm0
    ensures LivesKept(m0, m2, bm0, p)
  {
    forall x | x in bm0 && bm0[x].kind == Live && x != p
      ensures SameBody(m0, m2, bm0, x)
    {
      assert x in Lives(bm0);
      BodyAcross(m0, m1, m2, bm0, bm1, x);
    }
  }

  lemma NoBlockAtNull(h: Heap)
    requires WellFormed(h)
    ensures NULL !in h.bm
  {
    assert NULL in h.bm ==> Placed(h.bm, h.lo, h.hi, NULL);
  }

  lemma FreeMainFrame(h: Heap, p: int)
    requires WellFormed(h) && p in h.bm && h.bm[p].kind == Live
    ensures var h' := FreeMain(h, p); h'.lo == h.lo && h'.hi == h.hi && h'.counter == h.counter
  {
  }

  lemma RingEnds(m: Mem, first: seq<int>, h: Heap, c: int)
    requires WellFormed(h) && Repr(m, first, h) && 0 <= c < 10
    ensures Head(c) + 16 in m && Head(c) + 24 in m
    ensures m[Head(c) + 24] == Head(c) && m[Head(c) + 16] == Head(c) ==> h.main[c] == []
  {
    ListWords(m, first, h, c);
    NextStop(m, Head(c), h.main[c], Head(c), 0);
    LastStop(m, Head(c), h.main[c], Head(c));
    if h.main[c] != [] {
      assert h.main[c][0] in h.main[c];
    }
  }

  lemma BlocksInHeap(h: Heap)
    requires WellFormed(h)
    ensures forall p :: p in h.bm ==> p % 16 == 0 && h.lo <= p && p + 16 != NULL
  {
    forall p | p in h.bm
      ensures p % 16 == 0 && h.lo <= p && p + 16 != NULL
    {
      OwnedInHeap(h.bm, h.lo, h.hi, p);
    }
  }

  lemma PageHighEnd(h: Heap)
    requires WellFormed(h) && WellFormed(WithPage(h))
    ensures h.hi in WithPage(h).bm && HighEnd(WithPage(h).bm, h.hi) == h.hi + PAGE
    ensures Grow(h) == FreeMain(WithPage(h), h.hi)
  {
    NothingAtEnd(WithPage(h).bm, h.lo, h.hi + PAGE);
  }

  lemma PageLast(h: Heap)
    requires WellFormed(h) && WellFormed(WithPage(h)) && h.hi in WithPage(h).bm
    ensures LastBlock(Grow(h)) == LowEnd(WithPage(h).bm, h.lo, h.hi + PAGE, h.hi)
  {
    PageHighEnd(h);
    FreeRange(WithPage(h).bm, h.lo, h.hi + PAGE, h.hi);
    LastIs(Grow(h), LowEnd(WithPage(h).bm, h.lo, h.hi + PAGE, h.hi));
  }

  lemma PageLives(h: Heap)
    requires WellFormed(h)
    ensures forall x :: x in Lives(h.bm) ==>
              x in Lives(WithPage(h).bm) && Lives(WithPage(h).bm)[x] == Lives(h.bm)[x] && x != h.hi
  {
    NothingAtEnd(h.bm, h.lo, h.hi);
  }

  /** x is the first block on the list of its class. */
  predicate OnFront(h: Heap, x: int)
    requires x in h.bm
  {
    var c := FreeListIndex(h.bm[x].size);
    |h.main| == 10 && h.main[c] != [] && h.main[c][0] == x
  }

  lemma PageFront(h: Heap)
    requires WellFormed(h) && WellFormed(WithPage(h)) && h.hi in WithPage(h).bm
    ensures OnFront(Grow(h), LowEnd(WithPage(h).bm, h.lo, h.hi + PAGE, h.hi))
  {
    PageHighEnd(h);
    FreeRange(WithPage(h).bm, h.lo, h.hi + PAGE, h.hi);
  }

  lemma FrontIsFirst(m: Mem, h: Heap, x: int)
    requires x in h.bm && OnFront(h, x) && x + 8 in m && m[x + 8] == Word(h.bm[x])
    ensures FirstWith(m, h.main[FreeListIndex(h.bm[x].size)], Word(h.bm[x]), x)
  {
    var s := h.main[FreeListIndex(h.bm[x].size)];
    assert s[0] == x && HasWord(m, x, Word(h.bm[x]));
  }

  lemma NullNotLive(bm: Blocks)
    requires NULL !in bm
    ensures NULL !in Lives(bm)
  {
  }

  lemma FreeNotLive(bm: Blocks, x: int)
    requires x in bm && bm[x].kind == Free
    ensures x !in Lives(bm)
  {
  }

  lemma LastIsLow(h: Heap)
    requires WellFormed(h)
    ensures LastBlock(h) in h.bm && LastBlock(h) + 16 != NULL
  {
    OwnedInHeap(h.bm, h.lo, h.hi, LastBlock(h));
  }

  lemma GrowLives(h: Heap)
    requires WellFormed(h)
    ensures Lives(Grow(h).bm) == Lives(h.bm)
  {
  }

  lemma ReprMapped(m: Mem, first: seq<int>, h: Heap)
    requires Repr(m, first, h)
    ensures Mapped(m, h.hi)
  {
  }

  lemma GrowAndTakeEnd(h: Heap, need: int)
    requires WellFormed(h) && GoodSize(need)
    ensures GrowAndTake(h, need, 0) == Outcome(h, NULL, 0)
  {
  }

  lemma GrowAndTakeStep(h: Heap, need: int, pages: nat)
    requires WellFormed(h) && GoodSize(need) && pages > 0
    ensures var g, p := Grow(h), LastBlock(Grow(h));
            GrowAndTake(h, need, pages) ==
              if g.bm[p].size >= need then Outcome(Allocate(g, p, need), p + 16, pages - 1)
              else GrowAndTake(g, need, pages - 1)
  {
  }

  // ----- payload rows -----

  /** The payload rows of a block of that size at `from` are, in m, those that m0 had at `to`. */
  ghost predicate Copied(m0: Mem, m: Mem, from: int, to: int, size: int) {
    forall o :: 16 <= o <= size && o % 8 == 0 ==> from + o in m0 && to + o in m && m[to + o] == m0[from + o]
  }

  ghost predicate CopiedBelow(m0: Mem, m: Mem, from: int, to: int, i: int) {
    forall o :: 16 <= o < i && o % 8 == 0 ==> from + o in m0 && to + o in m && m[to + o] == m0[from + o]
  }

  lemma CopiedOneMore(m0: Mem, m: Mem, from: int, to: int, i: int)
    requires CopiedBelow(m0, m, from, to, i) && i % 8 == 0
    requires from + i in m0 && from + i in m && m[from + i] == m0[from + i]
    ensures CopiedBelow(m0, m[to + i := m[from + i]], from, to, i + 8)
  {
  }

  lemma BodyRow(m0: Mem, m: Mem, h: Heap, p: int, x: int, a: int)
    requires LivesKept(m0, m, h.bm, p) && x in h.bm && h.bm[x].kind == Live && x != p
    requires x + 8 < a <= x + h.bm[x].size
    ensures a in m0 && a in m && m[a] == m0[a]
  {
    assert SameBody(m0, m, h.bm, x);
  }

  /** Clients may write what they like into the payload of a live block. */
  lemma BodyWrite(m: Mem, first: seq<int>, h: Heap, q: int, a: int, v: int)
    requires WellFormed(h) && Repr(m, first, h) && q in h.bm && h.bm[q].kind == Live
    requires q + 8 < a <= q + h.bm[q].size
    ensures Repr(m[a := v], first, h) && LivesKept(m, m[a := v], h.bm, q)
  {
    var m' := m[a := v];
    OwnedInHeap(h.bm, h.lo, h.hi, q);
    MidBegins(m, first, h, {q}, q);
    MidWrite(m, m, h.bm, h.lo, h.hi, {q}, q, h.main, q, a, v);
    StacksSettle(m, m', h.bm, h.lo, h.hi, q, first, h.quick, h.counter);
    assert HeaderOK(m, h.bm, q);
    WordsSettle(m, m', h.bm, h.bm, {q});
  }

  lemma LivesKeptSame(m0: Mem, m1: Mem, m2: Mem, bm: Blocks, p: int)
    requires LivesKept(m0, m1, bm, p) && LivesKept(m1, m2, bm, p)
    ensures LivesKept(m0, m2, bm, p)
  {
    forall x | x in bm && bm[x].kind == Live && x != p
      ensures SameBody(m0, m2, bm, x)
    {
      BodyAcross(m0, m1, m2, bm, bm, x);
    }
  }

  lemma LiveHere(bm: Blocks, x: int)
    requires x in bm && bm[x].kind == Live
    ensures x in Lives(bm) && Lives(bm)[x] == bm[x].size
  {
  }

  lemma NullWeaker(m0: Mem, m: Mem, bm: Blocks, p: int)
    requires LivesKept(m0, m, bm, NULL) && NULL !in bm
    ensures LivesKept(m0, m, bm, p)
  {
  }

  /** After a successful sf_malloc both the old block and the new one are live. */
  lemma GrantedLives(h0: Heap, h1: Heap, ptr: int, pages: nat, request: int, block: int)
    requires WellFormed(h0) && Granted(h0, Outcome(h1, ptr, pages), request) && ptr != NULL
    requires block in h0.bm && h0.bm[block].kind == Live
    requires h0.bm[block].size - 8 < request
    ensures var to := ptr - 16;
            && to != block && to in h1.bm && h1.bm[to].kind == Live && h0.bm[block].size <= h1.bm[to].size
            && block in h1.bm && h1.bm[block].kind == Live && h1.bm[block].size == h0.bm[block].size
    ensures forall x :: x in Lives(h0.bm) ==> x in Lives(h1.bm) && Lives(h1.bm)[x] == Lives(h0.bm)[x] && x != ptr - 16
  {
    var to := ptr - 16;
    LiveHere(h0.bm, block);
    assert to in Lives(h1.bm) && block in Lives(h1.bm);
  }

  lemma CopySurvives(m0: Mem, m1: Mem, m2: Mem, m3: Mem, h0: Heap, h1: Heap, block: int, to: int)
    requires WellFormed(h1) && NULL !in h0.bm
    requires block in h0.bm && h0.bm[block].kind == Live && to in h1.bm && h1.bm[to].kind == Live && to != block
    requires block in h1.bm && h1.bm[block].size == h0.bm[block].size && h0.bm[block].size <= h1.bm[to].size
    requires forall x :: x in Lives(h0.bm) ==> x in Lives(h1.bm) && Lives(h1.bm)[x] == Lives(h0.bm)[x] && x != to
    requires LivesKept(m0, m1, h0.bm, NULL) && LivesKept(m1, m2, h1.bm, to) && LivesKept(m2, m3, h1.bm, block)
    requires Copied(m1, m2, block, to, h0.bm[block].size)
    ensures LivesKept(m0, m3, h0.bm, block)
    ensures Copied(m0, m3, block, to, h0.bm[block].size)
  {
    NullWeaker(m0, m1, h0.bm, block);
    LivesKeptTwice(m0, m1, m2, h0.bm, h1.bm, block, to);
    LivesKeptOnce(m0, m2, m3, h0.bm, h1.bm, block);
    forall o | 16 <= o <= h0.bm[block].size && o % 8 == 0
      ensures block + o in m0 && to + o in m3 && m3[to + o] == m0[block + o]
    {
      BodyRow(m0, m1, h0, NULL, block, block + o);
      BodyRow(m2, m3, h1, block, to, to + o);
    }
  }

  lemma LivesKeptOnce(m0: Mem, m1: Mem, m2: Mem, bm0: Blocks, bm1: Blocks, p: int)
    requires LivesKept(m0, m1, bm0, p) && LivesKept(m1, m2, bm1, p)
    requires forall x :: x in Lives(bm0) ==> x in Lives(bm1) && Lives(bm1)[x] == Lives(bm0)[x]
    ensures LivesKept(m0, m2, bm0, p)
  {
    forall x | x in bm0 && bm0[x].kind == Live && x != p
      ensures SameBody(m0, m2, bm0, x)
    {
      assert x in Lives(bm0);
      BodyAcross(m0, m1, m2, bm0, bm1, x);
    }
  }

  lemma MoveSteps(h: Heap, p: int, request: int, pages: nat)
    requires WellFormed(h) && p in Lives(h.bm) && 0 < request < TWO64
    ensures var out := Malloc(h, request, pages);
            && Granted(h, out, request)
            && (out.ptr == NULL ==> Move(h, p, request, pages) == out)
            && (out.ptr != NULL ==>
                  && WellFormed(out.heap) && p in out.heap.bm && out.heap.bm[p].kind == Live
                  && Move(h, p, request, pages) == out.(heap := FreeBlock(out.heap, p)))
  {
    var out := Malloc(h, request, pages);
    if out.ptr != NULL {
      assert p in Lives(out.heap.bm);
    }
  }

  function Least(x: int, y: int): int {
    if x <= y then x else y
  }

  /** Two header writes make memory represent the cut block and the live rest. */
  lemma CutSettles(m: Mem, first: seq<int>, h: Heap, p: int, need: int)
    requires WellFormed(h) && Repr(m, first, h) && p in h.bm && h.bm[p].kind == Live
    requires GoodSize(need) && h.bm[p].size - need >= MIN_BLOCK && WellFormed(CutLive(h, p, need))
    ensures var prev, rest := h.bm[p].prev, h.bm[p].size - need;
            var m1 := m[p + 8 := Header(need, true, prev)][p + need + 8 := Header(rest, true, true)];
            && Or(need, true, prev) == Header(need, true, prev)
            && Repr(m1, first, CutLive(h, p, need)) && LivesKept(m, m1, h.bm, p) && Copied(m, m1, p, p, need)
  {
    var b, rest, h' := h.bm[p], h.bm[p].size - need, CutLive(h, p, need);
    var v, u := Header(need, true, b.prev), Header(rest, true, true);
    var m0 := m[p + 8 := v];
    var m1 := m0[p + need + 8 := u];
    OrHeader(need, false, false, true, b.prev);
    OwnedInHeap(h.bm, h.lo, h.hi, p);
    MidBegins(m, first, h, {p}, p);
    MidWrite(m, m, h.bm, h.lo, h.hi, {p}, p, h.main, p, p + 8, v);
    MidWrite(m, m0, h.bm, h.lo, h.hi, {p}, p, h.main, p, p + need + 8, u);
    StacksSettle(m, m1, h.bm, h.lo, h.hi, p, first, h.quick, h.counter);
    WordsSettle(m, m1, h.bm, h'.bm, {p, p + need});
    forall o | 16 <= o <= need && o % 8 == 0
      ensures p + o in m && p + o in m1 && m1[p + o] == m[p + o]
    {
    }
  }

  lemma CutLast(h: Heap, p: int, need: int)
    requires WellFormed(h) && p in h.bm && h.bm[p].kind == Live
    requires GoodSize(need) && h.bm[p].size - need >= MIN_BLOCK && WellFormed(CutLive(h, p, need))
    ensures var h' := CutLive(h, p, need);
            h'.bm[LastBlock(h')].kind != Free <==> h.bm[LastBlock(h)].kind != Free
  {
    var last := LastBlock(h);
    NothingInside(h.bm, h.lo, h.hi, p, p + need);
    LastIs(CutLive(h, p, need), if last == p then p + need else last);
  }

  lemma CutKept(m0: Mem, m1: Mem, m2: Mem, h: Heap, p: int, need: int)
    requires WellFormed(h) && p in h.bm && h.bm[p].kind == Live
    requires GoodSize(need) && h.bm[p].size - need >= MIN_BLOCK && p + need !in h.bm
    requires LivesKept(m0, m1, h.bm, p) && Copied(m0, m1, p, p, need)
    requires LivesKept(m1, m2, CutLive(h, p, need).bm, p + need)
    ensures LivesKept(m0, m2, h.bm, p) && Copied(m0, m2, p, p, need)
  {
    var h' := CutLive(h, p, need);
    LivesKeptTwice(m0, m1, m2, h.bm, h'.bm, p, p + need);
    forall o | 16 <= o <= need && o % 8 == 0
      ensures p + o in m0 && p + o in m2 && m2[p + o] == m0[p + o]
    {
      BodyRow(m1, m2, h', p + need, p, p + o);
    }
  }

  /** The new block's payload begins with the old one's, as far as the shorter of the two goes. */
  ghost predicate ContentsKept(m0: Mem, m: Mem, bm0: Blocks, bm: Blocks, from: int, to: int) {
    from in bm0 && to in bm && Copied(m0, m, from, to, Least(bm0[from].size, bm[to].size))
  }

  lemma ReallocEnds(h: Heap, p: int, request: int, pages: nat)
    requires WellFormed(h) && p in h.bm && h.bm[p].kind == Live && 0 <= request < TWO64
    ensures request == 0 ==> Realloc(h, p, request, pages) == Outcome(FreeBlock(h, p), NULL, pages)
    ensures request > TWO64 - 24 ==> Realloc(h, p, request, pages) == Outcome(h, NULL, pages)
  {
  }

  lemma ReallocCases(h: Heap, p: int, request: int, pages: nat)
    requires WellFormed(h) && p in h.bm && h.bm[p].kind == Live && 0 < request <= TWO64 - 24
    ensures GoodSize(AlignedBlock(request)) && p + 16 != NULL
    ensures var need, size := AlignedBlock(request), h.bm[p].size;
            if need > size then
              size - 8 < request && p in Lives(h.bm) && Realloc(h, p, request, pages) == Move(h, p, request, pages)
            else Realloc(h, p, request, pages) == Outcome(KeepInPlace(h, p, need), p + 16, pages)
  {
    AlignedBlockIsLeast(request);
    LiveHere(h.bm, p);
    OwnedInHeap(h.bm, h.lo, h.hi, p);
  }

  lemma KeepInPlaceCases(h: Heap, p: int, need: int)
    requires WellFormed(h) && p in h.bm && h.bm[p].kind == Live && GoodSize(need) && need <= h.bm[p].size
    ensures if h.bm[p].size - need < 32 then KeepInPlace(h, p, need) == h
            else
              && KeepInPlace(h, p, need) == Shrink(h, p, need)
              && p in Shrink(h, p, need).bm && Shrink(h, p, need).bm[p].size == need
  {
    if h.bm[p].size - need >= 32 {
      assert p in Lives(Shrink(h, p, need).bm);
    }
  }

  lemma SameCopied(m: Mem, first: seq<int>, h: Heap, p: int)
    requires WellFormed(h) && Repr(m, first, h) && p in h.bm && h.bm[p].kind == Live
    ensures Copied(m, m, p, p, h.bm[p].size)
  {
    LivesKeptFirst(m, first, h, NULL);
    NoBlockAtNull(h);
    forall o | 16 <= o <= h.bm[p].size && o % 8 == 0
      ensures p + o in m
    {
      BodyRow(m, m, h, NULL, p, p + o);
    }
  }

  lemma MovedBigEnough(h: Heap, p: int, request: int, pages: nat)
    requires WellFormed(h) && p in Lives(h.bm) && 0 < request < TWO64 && h.bm[p].size - 8 < request
    ensures var out := Move(h, p, request, pages);
            out.ptr != NULL ==> out.ptr - 16 in out.heap.bm && h.bm[p].size <= out.heap.bm[out.ptr - 16].size
  {
    hide Move, WellFormed;
    var out := Move(h, p, request, pages);
    assert out.ptr != NULL ==> out.ptr - 16 in Lives(out.heap.bm);
  }

  lemma StillLive(h: Heap, p: int, x: int)
    requires WellFormed(h) && p in h.bm && h.bm[p].kind == Live && x in h.bm && h.bm[x].kind == Live && x != p
    ensures x in FreeBlock(h, p).bm && FreeBlock(h, p).bm[x].size == h.bm[x].size
  {
    hide FreeBlock;
    assert x in Lives(h.bm);
    assert x in Lives(FreeBlock(h, p).bm);
  }

  // ----- the first heap -----

  predicate FirstReady(lo: int) {
    lo > 0 && lo % 16 == 0
  }

  /** sf_malloc as the first call of all. */
  ghost function FirstMalloc(lo: int, request: int, pages: nat): Outcome {
    if FirstReady(lo) && 0 <= request < TWO64 then
      FirstHeapWellFormed(lo);
      Malloc(FirstHeap(lo), request, pages)
    else Outcome(FirstHeap(lo), NULL, pages)
  }

  lemma FirstHeapRepr(m: Mem, m': Mem, first: seq<int>, lo: int)
    requires lo >= LOWEST && lo % 16 == 0 && first == seq(10, _ => NULL)
    requires Mapped(m, lo + 4080) && lo in m && lo + 8 in m && lo + 4080 in m
    requires m[lo] == 0 && m[lo + 8] == 4080 && m[lo + 4080] == 4080
    requires forall c :: 0 <= c < 10 ==> Linked(m, Head(c), Head(c))
    requires m' == m[lo + 16 := Head(7)][lo + 24 := Head(7)][Head(7) + 16 := lo][Head(7) + 24 := lo]
    ensures Repr(m', first, FirstHeap(lo))
  {
    var h := FirstHeap(lo);
    forall c | 0 <= c < 10
      ensures Ring(m', Head(c), h.main[c])
    {
      assert Linked(m, Head(c), Head(c));
      if c == 7 {
        assert h.main[c] == [lo] && [lo][1..] == [];
      }
    }
    assert HeaderOK(m', h.bm, lo);
    forall k | 0 <= k < 10
      ensures Stack(m', first[k], h.quick[k])
    {
    }
  }

  lemma FirstHeapLast(lo: int)
    requires lo > 0 && lo % 16 == 0 && WellFormed(FirstHeap(lo))
    ensures FirstHeap(lo).bm[LastBlock(FirstHeap(lo))].kind == Free
  {
    LastIs(FirstHeap(lo), lo);
  }

  lemma FooterIn(m: Mem, first: seq<int>, h: Heap, p: int)
    requires WellFormed(h) && Repr(m, first, h) && p in h.bm
    ensures p in m
  {
    OwnedInHeap(h.bm, h.lo, h.hi, p);
  }
}
