/**
  The allocator of hw3/src/sfmm.c over memory rows: sf_malloc, sf_free and sf_realloc write
  headers, footers and links in place and are proved to do to the heap what SfRuns says.
  Comments marked "documented" are the places where the source departs from its own contract
  and the documented behaviour is modelled; SfDepartures states when the source agrees.
*/
module SfAllocator {
  import opened Wrappers
  import opened SfSizes
  import opened SfHeap
  import opened SfRuns
  import opened SfMemory
  import opened SfSteps

  class Sfmm {
    const start: int
    var memEnd: int
    var mem: Mem
    var quickFirst: seq<int>
    var quickCount: seq<int>
    var lastBlockAllocated: bool
    var enomem: bool
    var pagesLeft: nat
    ghost var heap: Heap

    ghost predicate Valid()
      reads this
    {
      && WellFormed(heap) && Repr(mem, quickFirst, heap)
      && heap.lo == start && heap.hi == memEnd - 16 && heap.counter == quickCount
      && lastBlockAllocated == (heap.bm[LastBlock(heap)].kind != Free)
    }

    // ----- words -----

    method UpdateHeader(block: int, size: int, alloc: bool, prev: bool)
      modifies this`mem
      ensures mem == old(mem)[block + 8 := Or(size, alloc, prev)]
    {
      var header := size;
      header := Or(header, alloc, false);
      header := Or(header, false, prev);
      OrTwice(size, alloc, prev);
      mem := mem[block + 8 := header];
    }

    method AddFooter(block: int)
      requires block + 8 in mem
      modifies this`mem
      ensures mem == WithFooter(old(mem), block)
    {
      var header := SizeField(mem[block + 8]);
      var next := block + header;
      mem := mem[next := mem[block + 8]];
    }

    method ClearPrevAllocInNextBlock(block: int)
      requires block + 8 in mem
      requires var n := block + SizeField(mem[block + 8]); n != memEnd - 16 ==> n + 8 in mem
      modifies this`mem
      ensures mem == ClearedAfter(old(mem), block, memEnd - 16)
    {
      var next := block + SizeField(mem[block + 8]);
      // documented: the row after the last block is no header
      if next != memEnd - 16 {
        var header := mem[next + 8];
        header := Cleared(header);
        mem := mem[next + 8 := header];
        if !AllocBit(header) {
          AddFooter(next);
        }
      }
    }

    // ----- main lists -----

    /** As in the source: walks to the first block of the list whose header equals the given word. */
    method FindInFreeList(c: int, word: int, ghost s: seq<int>, ghost x: int) returns (block: int)
      requires 0 <= c < 10 && Ring(mem, Head(c), s) && s != []
      requires forall y :: y in s ==> y + 8 in mem
      requires FirstWith(mem, s, word, x)
      ensures block == x
    {
      var head := Head(c);
      ghost var at :| 0 <= at < |s| && s[at] == x && HasWord(mem, x, word)
                   && forall j :: 0 <= j < at ==> !HasWord(mem, s[j], word);
      NextStop(mem, head, s, head, 0);
      block := mem[head + 16];
      ghost var i := 0;
      assert s[0] in s;
      while mem[block + 8] != word
        invariant 0 <= i <= at && block == s[i] && block + 8 in mem
        decreases at - i
      {
        assert i != at;
        NextStop(mem, head, s, head, i + 1);
        block := mem[block + 16];
        i := i + 1;
        assert s[i] in s;
      }
      assert HasWord(mem, s[i], word);
    }

    /** Links the neighbours of a listed block to each other. */
    method UnlinkBlock(block: int)
      requires Unlinkable(mem, block)
      modifies this`mem
      ensures mem == Unlink(old(mem), block)
    {
      var temp := mem[block + 24];
      mem := mem[mem[block + 24] + 16 := mem[block + 16]];
      mem := mem[mem[block + 16] + 24 := temp];
      mem := mem[block + 16 := NULL];
    }

    method RemoveFromFreeList(c: int, word: int, ghost s: seq<int>, ghost x: int) returns (block: int)
      requires 0 <= c < 10 && Ring(mem, Head(c), s) && Distinct(s) && Head(c) !in s && Aligned(s)
      requires forall y :: y in s ==> y + 8 in mem
      requires FirstWith(mem, s, word, x)
      modifies this`mem
      ensures block == x && x + 16 in old(mem) && x + 24 in old(mem) && mem == Unlink(old(mem), x)
    {
      var head := Head(c);
      NextStop(mem, head, s, head, 0);
      LastStop(mem, head, s, head);
      block := mem[head + 16];
      if block == mem[head + 24] {
        SingletonRing(mem, head, s);
        mem := mem[head + 16 := head][head + 24 := head];
        mem := mem[block + 16 := NULL];
      } else {
        block := FindInFreeList(c, word, s, x);
        ChainNeighbours(mem, head, s, head, block);
        UnlinkBlock(block);
      }
    }

    /** get_from_free_list: first fit. */
    method GetFromFreeList(c: int, need: int) returns (found: Option<int>)
      requires Valid() && 0 <= c < 10
      ensures found == FirstFit(heap.bm, heap.main[c], need)
    {
      var head := Head(c);
      ghost var s := heap.main[c];
      assert Ring(mem, head, s);
      NextStop(mem, head, s, head, 0);
      ListWords(mem, quickFirst, heap, c);
      var blk := mem[head + 16];
      ghost var i := 0;
      assert s[0..] == s;
      assert forall j :: 0 <= j < |s| ==> s[j] in s && s[j] != head;
      while blk != head
        invariant 0 <= i <= |s| && blk == Stop(s, head, i)
        invariant FirstFit(heap.bm, s, need) == FirstFit(heap.bm, s[i..], need)
        decreases |s| - i
      {
        assert blk == s[i] && s[i] in s;
        if mem[blk + 8] >= need {
          return Some(blk);
        }
        NextStop(mem, head, s, head, i + 1);
        blk := mem[blk + 16];
        assert s[i..][1..] == s[i + 1..];
        i := i + 1;
      }
      return None;
    }

    method InsertToFreeList(block: int, ghost size: int, ghost prev: bool)
      requires block + 8 in mem && mem[block + 8] == Header(size, false, prev) && size % 16 == 0
      requires block % 16 == 0 && block > 511
      requires Head(FreeListIndex(size)) + 16 in mem && mem[Head(FreeListIndex(size)) + 16] % 16 == 0
      modifies this`mem
      ensures mem == LinkFront(old(mem), Head(FreeListIndex(size)), block)
    {
      HeaderFields(size, false, prev);
      var index := FreeListIndex(Cleared(mem[block + 8]));
      var head := Head(index);
      if mem[head + 16] == head {
        mem := mem[head + 16 := block][head + 24 := block];
        mem := mem[block + 16 := head][block + 24 := head];
        EmptyInsert(old(mem), head, block);
      } else {
        mem := mem[block + 16 := mem[head + 16]];
        mem := mem[block + 24 := head];
        mem := mem[mem[block + 16] + 24 := block];
        mem := mem[head + 16 := block];
      }
    }

    // ----- allocation -----

    method AllocateNoSplitting(c: int, actual: int, ghost p: int, ghost need: int) returns (block: int)
      requires Valid() && p in heap.bm && heap.bm[p].kind == Free && c == FreeListIndex(heap.bm[p].size)
      requires actual == Word(heap.bm[p]) && FirstWith(mem, heap.main[c], actual, p)
      requires GoodSize(need) && need <= heap.bm[p].size && heap.bm[p].size - need < MIN_BLOCK
      modifies this`mem, this`lastBlockAllocated, this`heap
      ensures Valid() && block == p && heap == Allocate(old(heap), p, need)
      ensures LivesKept(old(mem), mem, old(heap).bm, p)
    {
      hide Allocate, Unlink, WellFormed, Repr, AllocBit, PrevBit, SizeField;
      ListWords(mem, quickFirst, heap, c);
      WholeSettles(mem, quickFirst, heap, p, need);
      block := RemoveFromFreeList(c, actual, heap.main[c], p);
      UpdateHeader(block, actual, true, PrevBit(mem[block + 8]));
      var next := block + SizeField(mem[block + 8]);
      // documented: the source asks whether `next`, not the block itself, is the last block
      if next != memEnd - 16 {
        UpdateHeader(next, mem[next + 8], false, true);
      } else {
        lastBlockAllocated := true;
      }
      heap := Allocate(heap, p, need);
    }

    method AllocateSplitting(c: int, actual: int, need: int, ghost p: int) returns (block: int)
      requires Valid() && p in heap.bm && heap.bm[p].kind == Free && c == FreeListIndex(heap.bm[p].size)
      requires actual == Word(heap.bm[p]) && FirstWith(mem, heap.main[c], actual, p)
      requires GoodSize(need) && heap.bm[p].size - need >= MIN_BLOCK
      modifies this`mem, this`heap
      ensures Valid() && block == p && heap == Allocate(old(heap), p, need)
      ensures LivesKept(old(mem), mem, old(heap).bm, p)
    {
      hide Allocate, Unlink, LinkFront, WellFormed, Repr, AllocBit, PrevBit, SizeField, Or, WithFooter;
      ghost var h, m0, rest := heap, mem, heap.bm[p].size - need;
      ListWords(m0, quickFirst, h, c);
      SplitWords(h, p, need);
      UnlinkedWord(m0, quickFirst, h, p);
      block := RemoveFromFreeList(c, actual, h.main[c], p);
      UpdateHeader(block, need, true, PrevBit(mem[block + 8]));
      var newFree := block + SizeField(mem[block + 8]);
      UpdateHeader(newFree, actual - need, false, true);
      FooterOf(mem, newFree, rest, Header(rest, false, true));
      AddFooter(newFree);
      SplitSettles(m0, mem, quickFirst, h, p, need);
      InsertToFreeList(newFree, rest, true);
      heap := Allocate(h, p, need);
    }

    // ----- release -----

    /** coalesce: merges the block, already marked free, with the free blocks on either side. */
    method Coalesce(block: int, ghost m0: Mem, ghost h: Heap) returns (combined: int)
      requires WellFormed(h) && Repr(m0, quickFirst, h) && block in h.bm && h.bm[block].kind == Live
      requires h.hi == memEnd - 16
      requires Mid(m0, mem, h.bm, h.lo, h.hi, {block, block + h.bm[block].size}, block, h.main)
      requires ReleaseWords(mem, h.bm, block)
      modifies this`mem
      ensures combined == LowEnd(h.bm, h.lo, h.hi, block)
      ensures var z := HighEnd(h.bm, block);
              && Mid(m0, mem, h.bm, h.lo, h.hi, FreeSet(h, block), block, Unlisted(h.bm, h.main, combined, block, z))
              && FreeWords(mem, h, block)
    {
      ghost var n := block + h.bm[block].size;
      ghost var a, z, w, m1, m2 := CoalescePlan(m0, mem, quickFirst, h, block);
      hide *;
      combined := MergeNeighbours(block, n, a, z, w, m1, m2);
    }

    /** The code of coalesce, for blocks laid out from a over block and n to z. */
    method MergeNeighbours(block: int, ghost n: int, ghost a: int, ghost z: int, ghost w: int, ghost m1: Mem, ghost m2: Mem)
      returns (combined: int)
      requires LowerPlan(mem, block, n - block, a, z, w, m1, m2) && UpperPlan(mem, n, memEnd - 16, z, m1, m2)
      requires n in mem && mem[n] == mem[block + 8]
      modifies this`mem
      ensures combined == a && mem == m2[a + 8 := w][z := w]
    {
      var word := mem[block + 8];
      var prevAlloc := PrevBit(word);
      var next := block + SizeField(word);
      // documented: there is no block after the last one
      var nextAlloc := if next == memEnd - 16 then true else AllocBit(mem[next + 8]);
      if mem[block] == 0 {
        prevAlloc := true;
      }
      hide AllocBit, PrevBit, SizeField, Or, Cleared, Unlink, Unlinkable;
      if !prevAlloc && !nextAlloc {
        combined := MergeBoth(block, next, a, z, w, m1, m2);
      } else if !prevAlloc && nextAlloc {
        combined := MergePrev(block, a, z, w);
      } else if prevAlloc && !nextAlloc {
        combined := MergeNext(block, next, z);
      } else {
        combined := block;
        assert mem == mem[a + 8 := mem[a + 8]][z := mem[z]];
      }
    }

    method MergeBoth(block: int, next: int, ghost a: int, ghost z: int, ghost w: int, ghost m1: Mem, ghost m2: Mem)
      returns (combined: int)
      requires block in mem && Cleared(mem[block]) == block - a && Unlinkable(mem, a) && m1 == Unlink(mem, a)
      requires Unlinkable(m1, next) && m2 == Unlink(m1, next)
      requires block + 8 in mem && mem[block + 8] == next - block
      requires next + 8 in mem && SizeField(mem[next + 8]) == z - next
      requires a + 8 in m2 && w == Or(z - a, false, PrevBit(m2[a + 8])) && SizeField(w) == z - a
      modifies this`mem
      ensures combined == a && mem == m2[a + 8 := w][z := w]
    {
      hide *;
      var prevSize := Cleared(mem[block]);
      var nextSize := SizeField(mem[next + 8]);
      var combinedSize := prevSize + mem[block + 8] + nextSize;
      // documented: the neighbours themselves are unlinked, not the first blocks with their headers
      combined := block - prevSize;
      UnlinkBlock(combined);
      UnlinkBlock(next);
      // documented: the merged block keeps the prev-allocated bit of its first part
      WriteFree(combined, Or(combinedSize, false, PrevBit(mem[combined + 8])), z - a);
    }

    method MergePrev(block: int, ghost a: int, ghost z: int, ghost w: int) returns (combined: int)
      requires block in mem && Cleared(mem[block]) == block - a && Unlinkable(mem, a)
      requires block + 8 in mem && mem[block + 8] == z - block
      requires a + 8 in Unlink(mem, a)
      requires w == Or(z - a, false, PrevBit(Unlink(mem, a)[a + 8])) && SizeField(w) == z - a
      modifies this`mem
      ensures combined == a && mem == Unlink(old(mem), a)[a + 8 := w][z := w]
    {
      hide *;
      var prevSize := Cleared(mem[block]);
      var combinedSize := prevSize + mem[block + 8];
      combined := block - prevSize;
      UnlinkBlock(combined);
      WriteFree(combined, Or(combinedSize, false, PrevBit(mem[combined + 8])), z - a);
    }

    method MergeNext(block: int, next: int, ghost z: int) returns (combined: int)
      requires Unlinkable(mem, next) && next + 8 in mem && SizeField(mem[next + 8]) == z - next
      requires block + 8 in mem && SizeField(mem[block + 8] + (z - next)) == z - block
      modifies this`mem
      ensures combined == block
      ensures var w := old(mem)[block + 8] + (z - next);
              mem == Unlink(old(mem), next)[block + 8 := w][z := w]
    {
      hide *;
      var combinedSize := mem[block + 8] + SizeField(mem[next + 8]);
      combined := block;
      UnlinkBlock(next);
      WriteFree(combined, combinedSize, z - block);
    }

    /** Header and footer of a free block. */
    method WriteFree(block: int, word: int, ghost size: int)
      requires SizeField(word) == size
      modifies this`mem
      ensures mem == old(mem)[block + 8 := word][block + size := word]
    {
      mem := mem[block + 8 := word];
      AddFooter(block);
    }

    /**
      Marks an allocated block free, coalesces it and inserts the result: the common part of
      sf_free and of the flush, and the documented treatment of new pages and of what sf_realloc
      splits off. The block's own header need not be written yet.
    */
    method ReleaseBlock(block: int, size: int, prev: bool, ghost m0: Mem, ghost h: Heap) returns (combined: int)
      requires WellFormed(h) && Repr(m0, quickFirst, h) && block in h.bm && h.bm[block].kind == Live
      requires h.hi == memEnd - 16 && size == h.bm[block].size && prev == h.bm[block].prev
      requires mem[block + 8 := 0] == m0[block + 8 := 0]
      modifies this`mem, this`lastBlockAllocated, this`heap
      ensures heap == FreeMain(h, block) && WellFormed(heap) && Repr(mem, quickFirst, heap)
      ensures combined == LowEnd(h.bm, h.lo, h.hi, block)
      ensures LivesKept(m0, mem, h.bm, block)
      ensures lastBlockAllocated == (old(lastBlockAllocated) && HighEnd(h.bm, block) != h.hi)
    {
      MarkReleased(block, size, prev, m0, h);
      combined := Coalesce(block, m0, h);
      InsertReleased(combined, block, m0, h);
    }

    /** Header, footer, and the news to the next block. */
    method MarkReleased(block: int, size: int, prev: bool, ghost m0: Mem, ghost h: Heap)
      requires WellFormed(h) && Repr(m0, quickFirst, h) && block in h.bm && h.bm[block].kind == Live
      requires h.hi == memEnd - 16 && size == h.bm[block].size && prev == h.bm[block].prev
      requires mem[block + 8 := 0] == m0[block + 8 := 0]
      modifies this`mem
      ensures Mid(m0, mem, h.bm, h.lo, h.hi, {block, block + h.bm[block].size}, block, h.main)
      ensures ReleaseWords(mem, h.bm, block)
    {
      ghost var v := Header(size, false, prev);
      ReleaseHeader(h, block);
      Overwrite(mem, m0, block + 8, v);
      MarkFree(m0, quickFirst, h, block, v);
      hide Mid, Repr, WellFormed, WithFooter, Or, ReleaseWords, SuccessorIntact;
      UpdateHeader(block, size, false, prev);
      AddFooter(block);
      ClearSuccessor(m0, mem, h, block);
      ClearPrevAllocInNextBlock(block);
    }

    /** The insertion, after which memory represents the heap again. */
    method InsertReleased(combined: int, ghost block: int, ghost m0: Mem, ghost h: Heap)
      requires WellFormed(h) && Repr(m0, quickFirst, h) && block in h.bm && h.bm[block].kind == Live
      requires h.hi == memEnd - 16 && combined == LowEnd(h.bm, h.lo, h.hi, block)
      requires Mid(m0, mem, h.bm, h.lo, h.hi, FreeSet(h, block), block,
                   Unlisted(h.bm, h.main, combined, block, HighEnd(h.bm, block)))
      requires FreeWords(mem, h, block)
      modifies this`mem, this`lastBlockAllocated, this`heap
      ensures heap == FreeMain(h, block) && WellFormed(heap) && Repr(mem, quickFirst, heap)
      ensures LivesKept(m0, mem, h.bm, block)
      ensures lastBlockAllocated == (old(lastBlockAllocated) && HighEnd(h.bm, block) != h.hi)
    {
      ghost var size := HighEnd(h.bm, block) - combined;
      hide Repr, Mid, FreeWords, LivesKept, Unlisted, FreeSet;
      FreeSettles(m0, mem, quickFirst, h, block);
      FreeKeepsHeap(h, block);
      ReadyToInsert(m0, mem, h, block);
      hide *;
      InsertToFreeList(combined, size, h.bm[combined].prev);
      heap := FreeMain(h, block);
      ClearAgain(mem, quickFirst, h, block);
      ClearPrevAllocInNextBlock(combined);
      // documented: the last block is no longer allocated
      if combined + SizeField(mem[combined + 8]) == memEnd - 16 {
        lastBlockAllocated := false;
      }
    }

    // ----- quick lists -----

    /** remove_from_quick_list. */
    method RemoveFromQuickList(k: int, ghost count: int) returns (block: int)
      requires Valid() && 0 <= k < 10 && quickFirst[k] != NULL && 0 <= count <= 1
      modifies this`mem, this`quickFirst, this`heap
      ensures old(heap).quick[k] != [] && block == old(heap).quick[k][0] && block in old(heap).bm
      ensures heap == FromQuick(old(heap), k, count) && WellFormed(heap) && Repr(mem, quickFirst, heap)
      ensures LivesKept(old(mem), mem, old(heap).bm, block)
      ensures heap.bm[LastBlock(heap)].kind != Free <==> old(heap).bm[LastBlock(old(heap))].kind != Free
    {
      QuickNonempty(mem, quickFirst, heap, k);
      FromQuickKeepsHeap(heap, k, count);
      FromQuickSettles(mem, quickFirst, heap, k, count);
      HeadOfQuick(heap, k);
      RekindLast(heap, FromQuick(heap, k, count));
      hide Repr, WellFormed;
      block := quickFirst[k];
      var next := mem[block + 16];
      quickFirst := quickFirst[k := next];
      mem := mem[block + 16 := NULL];
      heap := FromQuick(heap, k, count);
    }

    /** quick_list_allocate. */
    method QuickListAllocate(k: int) returns (block: int)
      requires Valid() && 0 <= k < 10 && quickFirst[k] != NULL
      modifies this`mem, this`quickFirst, this`quickCount, this`heap
      ensures Valid() && old(heap).quick[k] != [] && block == old(heap).quick[k][0] && block in old(heap).bm
      ensures heap == FromQuick(old(heap), k, 1)
      ensures LivesKept(old(mem), mem, old(heap).bm, block)
    {
      ghost var h := heap;
      block := RemoveFromQuickList(k, 1);
      quickCount := quickCount[k := quickCount[k] - 1];
      PoppedWords(mem, quickFirst, h, k, block);
      ghost var m := mem;
      hide Repr, WellFormed, LivesKept, Or, SizeField, PrevBit, AllocBit;
      UpdateHeader(block, SizeField(mem[block + 8]), true, PrevBit(mem[block + 8]));
      assert mem == m;
      var next := block + SizeField(mem[block + 8]);
      // documented: the source asks whether `next`, not the block itself, is the last block
      if next != memEnd - 16 {
        UpdateHeader(next, mem[next + 8], false, true);
        assert mem == m;
      }
    }

    /** insert_to_quick_list. */
    method InsertToQuickList(block: int, k: int, ghost count: int)
      requires WellFormed(heap) && Repr(mem, quickFirst, heap) && block in heap.bm && heap.bm[block].kind == Live
      requires k == QuickIndex(heap.bm[block].size) && k != -1 && WellFormed(ToQuick(heap, block, count))
      modifies this`mem, this`quickFirst, this`heap
      ensures heap == ToQuick(old(heap), block, count) && Repr(mem, quickFirst, heap)
      ensures LivesKept(old(mem), mem, old(heap).bm, block)
    {
      ToQuickSettles(mem, quickFirst, heap, block, count);
      hide Repr, WellFormed;
      mem := mem[block + 16 := quickFirst[k]];
      quickFirst := quickFirst[k := block];
      heap := ToQuick(heap, block, count);
    }

    // ----- sf_free -----

    /** The flush of quick list k. */
    method FlushQuickList(k: int)
      requires Valid() && 0 <= k < 10
      modifies this`mem, this`quickFirst, this`lastBlockAllocated, this`heap
      ensures Valid() && heap == Flush(old(heap), k)
      ensures LivesKept(old(mem), mem, old(heap).bm, NULL)
    {
      ghost var h0, m0 := heap, mem;
      LivesKeptFirst(m0, quickFirst, h0, NULL);
      while quickFirst[k] != NULL
        invariant Valid() && Flush(heap, k) == Flush(h0, k) && Lives(heap.bm) == Lives(h0.bm)
        invariant LivesKept(m0, mem, h0.bm, NULL)
        decreases |heap.quick[k]|
      {
        QuickNonempty(mem, quickFirst, heap, k);
        FlushOne(k, m0, h0);
      }
      QuickNonempty(mem, quickFirst, heap, k);
    }

    method FlushOne(k: int, ghost m0: Mem, ghost h0: Heap)
      requires Valid() && 0 <= k < 10 && quickFirst[k] != NULL && heap.quick[k] != []
      requires Lives(heap.bm) == Lives(h0.bm) && LivesKept(m0, mem, h0.bm, NULL)
      modifies this`mem, this`quickFirst, this`lastBlockAllocated, this`heap
      ensures Valid() && heap == FlushHead(old(heap), k) && LivesKept(m0, mem, h0.bm, NULL)
    {
      ghost var h1, m1 := heap, mem;
      hide Repr, LivesKept, LastBlock;
      var temp := RemoveFromQuickList(k, 0);
      ghost var h2, m2 := heap, mem;
      FromQuickLives(h1, k, 0);
      LivesKeptTwice(m0, m1, m2, h0.bm, h1.bm, NULL, temp);
      BlockWord(m2, quickFirst, h2, temp);
      var _ := ReleaseBlock(temp, SizeField(mem[temp + 8]), PrevBit(mem[temp + 8]), m2, h2);
      FreeMainLast(h2, temp);
      LivesKeptTwice(m0, m2, mem, h0.bm, h2.bm, NULL, temp);
    }

    /** A quick list that is not yet full: the block goes on it, still marked allocated. */
    method FreeToQuick(block: int, index: int)
      requires Valid() && block in heap.bm && heap.bm[block].kind == Live
      requires index == QuickIndex(heap.bm[block].size) && index != -1 && quickCount[index] < 5
      modifies this`mem, this`quickFirst, this`quickCount, this`heap
      ensures Valid() && heap == FreeBlock(old(heap), block)
      ensures LivesKept(old(mem), mem, old(heap).bm, block)
    {
      ToQuickKeepsHeap(heap, block, 1);
      RekindLast(heap, ToQuick(heap, block, 1));
      hide Repr, WellFormed, LivesKept;
      quickCount := quickCount[index := quickCount[index] + 1];
      InsertToQuickList(block, index, 1);
    }

    /** A quick list the counter says is full: it is flushed first; the counter stays at its limit. */
    method FreeFlushing(block: int, index: int)
      requires Valid() && block in heap.bm && heap.bm[block].kind == Live
      requires index == QuickIndex(heap.bm[block].size) && index != -1 && quickCount[index] >= 5
      modifies this`mem, this`quickFirst, this`lastBlockAllocated, this`heap
      ensures Valid() && heap == FreeBlock(old(heap), block)
      ensures LivesKept(old(mem), mem, old(heap).bm, block)
    {
      ghost var h0, m0 := heap, mem;
      hide Repr, LivesKept, Flush, LastBlock;
      FlushQuickList(index);
      ghost var h1, m1 := heap, mem;
      LiveIsBlock(h0.bm, h1.bm, block);
      ToQuickKeepsHeap(h1, block, 0);
      RekindLast(h1, ToQuick(h1, block, 0));
      NoBlockAtNull(h0);
      hide WellFormed;
      InsertToQuickList(block, index, 0);
      LivesKeptMore(m0, m1, mem, h0.bm, h1.bm, block);
    }

    /** sf_free, for a pointer that has passed validation. */
    method FreeLive(block: int)
      requires Valid() && block in heap.bm && heap.bm[block].kind == Live
      modifies this`mem, this`quickFirst, this`quickCount, this`lastBlockAllocated, this`heap
      ensures Valid() && heap == FreeBlock(old(heap), block)
      ensures LivesKept(old(mem), mem, old(heap).bm, block)
    {
      ghost var h0 := heap;
      BlockWord(mem, quickFirst, h0, block);
      hide Repr, WellFormed, LivesKept, Flush, FreeMain, ToQuick, SizeField, PrevBit, AllocBit, LastBlock;
      var size := SizeField(mem[block + 8]);
      var index := QuickIndex(size);
      if index != -1 {
        if quickCount[index] < 5 {
          FreeToQuick(block, index);
        } else {
          FreeFlushing(block, index);
        }
      } else {
        var _ := ReleaseBlock(block, size, PrevBit(mem[block + 8]), mem, h0);
        FreeMainLast(h0, block);
        FreeMainFrame(h0, block);
      }
    }

    /** The rows at pp - 16 read like an allocated block that ends before the end of memory. */
    ghost predicate LooksAllocated(pp: int)
      reads this
    {
      && pp % 16 == 0 && start <= pp - 16 && pp - 16 in mem && pp - 8 in mem
      && AllocBit(mem[pp - 8])
      && 32 <= SizeField(mem[pp - 8]) && SizeField(mem[pp - 8]) % 16 == 0
      && pp - 16 + SizeField(mem[pp - 8]) <= memEnd
    }

    /**
      validate_pointer, true when it returns 0. The comparison of the bit 4 with 1 is the source's: its
      last test never rejects anything.
    */
    method ValidatePointer(pp: int) returns (valid: bool)
      requires Valid()
      ensures valid <==> LooksAllocated(pp)
      ensures pp - 16 in heap.bm ==> (valid <==> heap.bm[pp - 16].kind != Free)
    {
      assert start >= LOWEST;
      if pp - 16 in heap.bm {
        BlockWord(mem, quickFirst, heap, pp - 16);
        OwnedInHeap(heap.bm, heap.lo, heap.hi, pp - 16);
        FooterIn(mem, quickFirst, heap, pp - 16);
      }
      hide SizeField, AllocBit, Repr, WellFormed;
      if pp == NULL || pp % 16 != 0 {
        return false;
      }
      var block := pp - 16;
      if block < start || block !in mem || block + 8 !in mem {
        return false;
      }
      var header := mem[block + 8];
      if !AllocBit(header) {
        return false;
      }
      var size := SizeField(header);
      if size < 32 || size % 16 != 0 || block + size > memEnd {
        return false;
      }
      if block != start {
        var prevAlloc := PrevBit(header);
        var prevAllocBit := if AllocBit(mem[block]) then 4 else 0;
        if !prevAlloc && prevAllocBit == 1 {
          return false;
        }
      }
      return true;
    }

    /** Pointers that sf_free either rejects or may be given: not those of blocks already freed. */
    ghost predicate Freeable(pp: int)
      reads this
    {
      pp == NULL || pp % 16 != 0 || pp < start + 16 || (pp - 16 in heap.bm && heap.bm[pp - 16].kind != Quick)
    }

    /** Validation tells live blocks from the rest of what a client may pass. */
    method Accepts(pp: int) returns (live: bool)
      requires Valid() && Freeable(pp)
      ensures live <==> pp - 16 in heap.bm && heap.bm[pp - 16].kind == Live
    {
      live := ValidatePointer(pp);
      BlocksInHeap(heap);
      hide Repr, WellFormed;
    }

    /** sf_free. The source aborts the program on a pointer that fails validation. */
    method SfFree(pp: int) returns (aborted: bool)
      requires Valid() && Freeable(pp)
      modifies this`mem, this`quickFirst, this`quickCount, this`lastBlockAllocated, this`heap
      ensures Valid()
      ensures !aborted <==> pp - 16 in old(heap).bm && old(heap).bm[pp - 16].kind == Live
      ensures heap == if aborted then old(heap) else FreeBlock(old(heap), pp - 16)
      ensures aborted ==> mem == old(mem)
      ensures !aborted ==> LivesKept(old(mem), mem, old(heap).bm, pp - 16)
    {
      hide Repr, WellFormed, LivesKept, FreeBlock, LastBlock;
      var live := Accepts(pp);
      if !live {
        return true;
      }
      FreeLive(pp - 16);
      return false;
    }

    // ----- sf_malloc -----

    /** The class-by-class search. */
    method SearchFreeLists(need: int) returns (found: Option<int>, index: int)
      requires Valid() && GoodSize(need)
      ensures found == FindFit(heap.bm, heap.main, FreeListIndex(need), need)
      ensures found.Some? ==> 0 <= index < 10 && FirstFit(heap.bm, heap.main[index], need) == found
    {
      var i := FreeListIndex(need);
      index := i;
      while i < 10
        invariant 0 <= i <= 10
        invariant FindFit(heap.bm, heap.main, FreeListIndex(need), need) == FindFit(heap.bm, heap.main, i, need)
      {
        RingEnds(mem, quickFirst, heap, i);
        if mem[Head(i) + 24] == Head(i) && mem[Head(i) + 16] == Head(i) {
          i := i + 1;
        } else {
          index := i;
          found := GetFromFreeList(i, need);
          if found.Some? {
            return;
          }
          i := i + 1;
        }
      }
      found := None;
    }

    /** Splits the block found unless the rest would be a splinter. */
    method TakeBlock(index: int, block: int, need: int)
      requires Valid() && GoodSize(need) && 0 <= index < 10
      requires block in heap.bm && heap.bm[block].kind == Free && need <= heap.bm[block].size
      requires FirstWith(mem, heap.main[index], Word(heap.bm[block]), block) && index == FreeListIndex(heap.bm[block].size)
      modifies this`mem, this`lastBlockAllocated, this`heap
      ensures Valid() && heap == Allocate(old(heap), block, need)
      ensures LivesKept(old(mem), mem, old(heap).bm, block)
    {
      BlockWord(mem, quickFirst, heap, block);
      OwnedInHeap(heap.bm, heap.lo, heap.hi, block);
      WordFits(heap.bm[block], need);
      hide Allocate, WellFormed, Repr, FirstWith;
      var actual := mem[block + 8];
      if actual - need < 32 {
        var _ := AllocateNoSplitting(index, actual, block, need);
      } else {
        var _ := AllocateSplitting(index, actual, need, block);
      }
    }

    /** sf_mem_grow: one more page of arbitrary contents, while there are any. */
    method MemGrow() returns (ok: bool)
      requires Mapped(mem, memEnd - 16)
      modifies this`mem, this`memEnd, this`pagesLeft, this`enomem
      ensures ok == (old(pagesLeft) > 0)
      ensures !ok ==> mem == old(mem) && memEnd == old(memEnd) && pagesLeft == 0 && enomem
      ensures ok ==> memEnd == old(memEnd) + PAGE && pagesLeft == old(pagesLeft) - 1 && enomem == old(enomem)
      ensures forall a {:trigger a in mem} :: a in old(mem) ==> a in mem && mem[a] == old(mem)[a]
      ensures Mapped(mem, memEnd - 16)
    {
      if pagesLeft == 0 {
        enomem := true;
        return false;
      }
      var page: Mem := *;
      mem := (map a | memEnd - 8 < a < memEnd + PAGE :: if a in page then page[a] else 0) + mem;
      memEnd := memEnd + PAGE;
      pagesLeft := pagesLeft - 1;
      return true;
    }

    /** One turn of the growth loop: the new page is released as a block of its own. */
    method GrowHeap() returns (newBlock: int)
      requires Valid() && pagesLeft > 0
      modifies this`mem, this`memEnd, this`pagesLeft, this`enomem, this`lastBlockAllocated, this`heap
      ensures Valid() && heap == Grow(old(heap))
      ensures newBlock == LastBlock(heap) && pagesLeft == old(pagesLeft) - 1 && enomem == old(enomem)
      ensures newBlock in heap.bm && OnFront(heap, newBlock)
      ensures LivesKept(old(mem), mem, old(heap).bm, NULL)
    {
      ghost var h0, m0 := heap, mem;
      ghost var h1 := WithPage(h0);
      var block := memEnd - 16;
      var _ := MemGrow();
      ghost var m1 := mem[block + 8 := Word(h1.bm[block])];
      GrownSettles(m0, m1, quickFirst, h0);
      assert mem[block + 8 := 0] == m1[block + 8 := 0];
      PageHighEnd(h0);
      GrowEndsFree(h0);
      PageLives(h0);
      hide Repr, WellFormed, LivesKept, LowEnd, HighEnd, Lives;
      // documented: the page joins the last block if that is free, and is listed either way
      newBlock := ReleaseBlock(block, PAGE, lastBlockAllocated, m1, h1);
      PageLast(h0);
      PageFront(h0);
      LivesKeptTwice(m0, m1, mem, h0.bm, h1.bm, NULL, block);
    }

    /** Takes the block that the growth loop has just built, if it is big enough by now. */
    method TryTake(newBlock: int, need: int) returns (taken: bool)
      requires Valid() && GoodSize(need) && newBlock in heap.bm && heap.bm[newBlock].kind == Free
      requires OnFront(heap, newBlock)
      modifies this`mem, this`lastBlockAllocated, this`heap
      ensures Valid() && taken == (old(heap).bm[newBlock].size >= need)
      ensures heap == if taken then Allocate(old(heap), newBlock, need) else old(heap)
      ensures if taken then LivesKept(old(mem), mem, old(heap).bm, newBlock) else mem == old(mem)
    {
      BlockWord(mem, quickFirst, heap, newBlock);
      OwnedInHeap(heap.bm, heap.lo, heap.hi, newBlock);
      WordFits(heap.bm[newBlock], need);
      var actual := mem[newBlock + 8];
      if need > actual {
        return false;
      }
      FrontIsFirst(mem, heap, newBlock);
      hide WellFormed, Repr, Allocate, LivesKept, FirstWith;
      // documented: the size class is that of the size alone, without the flag bit
      TakeBlock(FreeListIndex(SizeField(actual)), newBlock, need);
      return true;
    }

    /** One turn of the growth loop; the result is NULL while the last block is still too small. */
    method GrowAndTry(need: int) returns (ptr: int)
      requires Valid() && GoodSize(need) && pagesLeft > 0
      modifies this`mem, this`memEnd, this`pagesLeft, this`enomem, this`lastBlockAllocated, this`heap
      ensures Valid() && LivesKept(old(mem), mem, old(heap).bm, NULL) && enomem == old(enomem)
      ensures pagesLeft == old(pagesLeft) - 1 && (ptr == NULL ==> Lives(heap.bm) == Lives(old(heap).bm))
      ensures GrowAndTake(old(heap), need, old(pagesLeft))
           == if ptr == NULL then GrowAndTake(heap, need, pagesLeft) else Outcome(heap, ptr, pagesLeft)
    {
      ghost var h0, m0 := heap, mem;
      GrowEndsFree(h0);
      GrowAndTakeStep(h0, need, pagesLeft);
      GrowLives(h0);
      hide LivesKept, Repr, WellFormed, Grow, Allocate, Lives, GrowAndTake;
      var newBlock := GrowHeap();
      ghost var h1, m1 := heap, mem;
      LastIsLow(h1);
      var taken := TryTake(newBlock, need);
      if taken {
        FreeNotLive(h1.bm, newBlock);
        LivesKeptTwice(m0, m1, mem, h0.bm, h1.bm, NULL, newBlock);
        return newBlock + 16;
      }
      return NULL;
    }

    /** sf_mem_grow when no page is left. */
    method OutOfPages()
      requires Valid() && pagesLeft == 0
      modifies this`mem, this`memEnd, this`pagesLeft, this`enomem
      ensures Valid() && mem == old(mem) && pagesLeft == 0 && enomem
    {
      ReprMapped(mem, quickFirst, heap);
      hide Repr, WellFormed, LastBlock;
      var _ := MemGrow();
    }

    /** The growth loop of sf_malloc, ended by a block that is big enough or by running out of pages. */
    method MallocGrowing(need: int) returns (ptr: int)
      requires Valid() && GoodSize(need)
      modifies this`mem, this`memEnd, this`pagesLeft, this`enomem, this`lastBlockAllocated, this`heap
      ensures Valid() && Outcome(heap, ptr, pagesLeft) == GrowAndTake(old(heap), need, old(pagesLeft))
      ensures LivesKept(old(mem), mem, old(heap).bm, NULL)
      ensures enomem == (old(enomem) || ptr == NULL)
    {
      ghost var h0, m0, n0 := heap, mem, pagesLeft;
      LivesKeptFirst(m0, quickFirst, h0, NULL);
      NoBlockAtNull(h0);
      NullNotLive(h0.bm);
      GrowAndTakeEnd(h0, need);
      ptr := NULL;
      hide LivesKept, Repr, WellFormed, Grow, Lives, GrowAndTake, LastBlock;
      while ptr == NULL
        invariant Valid() && LivesKept(m0, mem, h0.bm, NULL) && enomem == old(enomem)
        invariant ptr == NULL ==> Lives(heap.bm) == Lives(h0.bm)
        invariant GrowAndTake(h0, need, n0)
               == if ptr == NULL then GrowAndTake(heap, need, pagesLeft) else Outcome(heap, ptr, pagesLeft)
        decreases pagesLeft, ptr == NULL
      {
        if pagesLeft == 0 {
          GrowAndTakeEnd(heap, need);
          OutOfPages();
          return;
        }
        ghost var h1, m1 := heap, mem;
        ptr := GrowAndTry(need);
        LivesKeptTwice(m0, m1, mem, h0.bm, h1.bm, NULL, NULL);
      }
    }

    /** sf_malloc on a heap that has its first page. */
    method MallocBorn(size: int) returns (ptr: int)
      requires Valid() && 0 <= size < TWO64
      modifies this
      ensures Valid() && Outcome(heap, ptr, pagesLeft) == Malloc(old(heap), size, old(pagesLeft))
      ensures LivesKept(old(mem), mem, old(heap).bm, NULL)
      ensures enomem == (old(enomem) || (size != 0 && ptr == NULL))
    {
      LivesKeptFirst(mem, quickFirst, heap, NULL);
      if size == 0 {
        return NULL;
      }
      // documented: a request that no block size can hold fails, instead of wrapping around
      if size > TWO64 - 24 {
        enomem := true;
        return NULL;
      }
      AlignedBlockIsLeast(size);
      var need := AlignedBlock(size);
      var quickIndex := QuickIndex(need);
      if quickIndex != -1 && quickFirst[quickIndex] != NULL {
        ptr := MallocQuick(quickIndex);
        return;
      }
      if quickIndex != -1 {
        QuickNonempty(mem, quickFirst, heap, quickIndex);
      }
      ptr := MallocMain(need);
    }

    method MallocQuick(k: int) returns (ptr: int)
      requires Valid() && 0 <= k < 10 && quickFirst[k] != NULL
      modifies this`mem, this`quickFirst, this`quickCount, this`heap
      ensures Valid() && old(heap).quick[k] != [] && ptr != NULL
      ensures Outcome(heap, ptr, pagesLeft) == TakeQuick(old(heap), k, old(pagesLeft))
      ensures LivesKept(old(mem), mem, old(heap).bm, NULL)
    {
      ghost var h0, m0 := heap, mem;
      QuickNonempty(mem, quickFirst, heap, k);
      FromQuickLives(h0, k, 1);
      BlocksInHeap(h0);
      LivesKeptFirst(m0, quickFirst, h0, NULL);
      NoBlockAtNull(h0);
      NullNotLive(h0.bm);
      hide WellFormed, Repr, LivesKept, Lives, FromQuick;
      var block := QuickListAllocate(k);
      LivesKeptTwice(m0, m0, mem, h0.bm, h0.bm, NULL, block);
      ptr := block + 16;
    }

    /** The main-list part of sf_malloc: first fit, or growth. */
    method MallocMain(need: int) returns (ptr: int)
      requires Valid() && GoodSize(need)
      modifies this
      ensures Valid() && Outcome(heap, ptr, pagesLeft) == TakeOrGrow(old(heap), need, old(pagesLeft))
      ensures LivesKept(old(mem), mem, old(heap).bm, NULL)
      ensures enomem == (old(enomem) || ptr == NULL)
    {
      ghost var h0, m0 := heap, mem;
      FindFitExact(h0, need);
      var found, index := SearchFreeLists(need);
      if found == None {
        hide WellFormed, Repr, LivesKept, GrowAndTake;
        ptr := MallocGrowing(need);
        return;
      }
      var block := found.value;
      ListWords(mem, quickFirst, heap, index);
      FirstFitIsFirstWith(mem, heap.bm, heap.main[index], need, block);
      FirstFitSound(heap.bm, heap.main[index], need);
      assert OnMain(heap.bm, index, block);
      FreeNotLive(h0.bm, block);
      LivesKeptFirst(m0, quickFirst, h0, NULL);
      BlocksInHeap(h0);
      hide WellFormed, Repr, LivesKept, Allocate, FirstWith, Lives;
      TakeBlock(index, block, need);
      LivesKeptTwice(m0, m0, mem, h0.bm, h0.bm, NULL, block);
      ptr := block + 16;
    }

    // ----- sf_realloc -----

    /** memcpy of whole rows from one live payload into another. */
    method CopyPayload(from: int, to: int, size: int)
      requires Valid() && from in heap.bm && to in heap.bm && from != to
      requires heap.bm[from].kind == Live && heap.bm[to].kind == Live
      requires size == heap.bm[from].size && size <= heap.bm[to].size
      modifies this`mem
      ensures Valid() && LivesKept(old(mem), mem, heap.bm, to)
      ensures Copied(old(mem), mem, from, to, size)
    {
      ghost var m0 := mem;
      LivesKeptFirst(m0, quickFirst, heap, to);
      OwnedInHeap(heap.bm, heap.lo, heap.hi, from);
      hide WellFormed, Repr, LivesKept, LastBlock;
      var i := 16;
      while i <= size
        invariant 16 <= i <= size + 8 && i % 8 == 0
        invariant Valid() && LivesKept(m0, mem, heap.bm, to)
        invariant CopiedBelow(m0, mem, from, to, i)
      {
        ghost var m1 := mem;
        BodyRow(m0, mem, heap, to, from, from + i);
        BodyWrite(mem, quickFirst, heap, to, to + i, mem[from + i]);
        LivesKeptSame(m0, m1, m1[to + i := m1[from + i]], heap.bm, to);
        CopiedOneMore(m0, m1, from, to, i);
        mem := mem[to + i := mem[from + i]];
        i := i + 8;
      }
    }

    /** sf_realloc when the block is too small: a new block, the bytes copied over, the old one freed. */
    method ReallocMove(block: int, rsize: int) returns (ptr: int)
      requires Valid() && block in heap.bm && heap.bm[block].kind == Live && 0 < rsize < TWO64
      requires heap.bm[block].size - 8 < rsize
      modifies this
      ensures Valid() && block in Lives(old(heap).bm)
      ensures Outcome(heap, ptr, pagesLeft) == Move(old(heap), block, rsize, old(pagesLeft))
      ensures LivesKept(old(mem), mem, old(heap).bm, block)
      ensures ptr != NULL ==> ContentsKept(old(mem), mem, old(heap).bm, heap.bm, block, ptr - 16)
      ensures ptr == NULL ==> LivesKept(old(mem), mem, old(heap).bm, NULL)
      ensures enomem == (old(enomem) || ptr == NULL)
    {
      ghost var h0, m0, n0 := heap, mem, pagesLeft;
      BlockWord(m0, quickFirst, h0, block);
      LiveHere(h0.bm, block);
      NoBlockAtNull(h0);
      MoveSteps(h0, block, rsize, n0);
      MovedBigEnough(h0, block, rsize, n0);
      var size := SizeField(mem[block + 8]);
      hide WellFormed, Repr, LivesKept, Malloc, Move, FreeBlock, ContentsKept, Lives, SizeField, LastBlock, Granted;
      ptr := MallocBorn(rsize);
      if ptr == NULL {
        NullWeaker(m0, mem, h0.bm, block);
        return;
      }
      ghost var h1, m1 := heap, mem;
      GrantedLives(h0, h1, ptr, pagesLeft, rsize, block);
      CopyAndFree(block, ptr - 16, size, m0, h0);
    }

    method CopyAndFree(block: int, to: int, size: int, ghost m0: Mem, ghost h0: Heap)
      requires Valid() && NULL !in h0.bm && block in h0.bm && h0.bm[block].kind == Live && size == h0.bm[block].size
      requires to != block && to in heap.bm && heap.bm[to].kind == Live && size <= heap.bm[to].size
      requires block in heap.bm && heap.bm[block].kind == Live && heap.bm[block].size == size
      requires forall x :: x in Lives(h0.bm) ==> x in Lives(heap.bm) && Lives(heap.bm)[x] == Lives(h0.bm)[x] && x != to
      requires LivesKept(m0, mem, h0.bm, NULL)
      modifies this`mem, this`quickFirst, this`quickCount, this`lastBlockAllocated, this`heap
      ensures Valid() && heap == FreeBlock(old(heap), block)
      ensures LivesKept(m0, mem, h0.bm, block) && ContentsKept(m0, mem, h0.bm, heap.bm, block, to)
    {
      ghost var h1, m1 := heap, mem;
      StillLive(h1, block, to);
      hide WellFormed, Repr, LivesKept, FreeBlock, Copied, Lives, LastBlock;
      CopyPayload(block, to, size);
      ghost var m2 := mem;
      FreeLive(block);
      CopySurvives(m0, m1, m2, mem, h0, h1, block, to);
    }

    /** The in-place part of sf_realloc that splits: the rest of the block is released. */
    method ReallocSplit(block: int, need: int)
      requires Valid() && block in heap.bm && heap.bm[block].kind == Live
      requires GoodSize(need) && heap.bm[block].size - need >= MIN_BLOCK
      modifies this`mem, this`lastBlockAllocated, this`heap
      ensures Valid() && heap == Shrink(old(heap), block, need)
      ensures LivesKept(old(mem), mem, old(heap).bm, block) && Copied(old(mem), mem, block, block, need)
    {
      ghost var h0, m0 := heap, mem;
      hide Repr, LivesKept, LastBlock, Copied;
      BlockWord(m0, quickFirst, h0, block);
      CutLiveKeepsHeap(h0, block, need);
      ghost var h1 := CutLive(h0, block, need);
      CutSettles(m0, quickFirst, h0, block, need);
      CutLast(h0, block, need);
      var actual := SizeField(mem[block + 8]);
      hide WellFormed, Lives, SizeField, PrevBit, AllocBit, Or;
      UpdateHeader(block, need, true, PrevBit(mem[block + 8]));
      var newBlock := block + need;
      ghost var m1 := mem[newBlock + 8 := Header(actual - need, true, true)];
      assert mem[newBlock + 8 := 0] == m1[newBlock + 8 := 0];
      // documented: what is split off is released like any freed block, whatever its neighbour
      var _ := ReleaseBlock(newBlock, actual - need, true, m1, h1);
      FreeMainLast(h1, newBlock);
      CutKept(m0, m1, mem, h0, block, need);
    }

    /** The block is big enough: it stays, and is cut if the rest makes a block. */
    method ReallocInPlace(block: int, needed: int)
      requires Valid() && block in heap.bm && heap.bm[block].kind == Live
      requires GoodSize(needed) && needed <= heap.bm[block].size
      modifies this`mem, this`lastBlockAllocated, this`heap
      ensures Valid() && heap == KeepInPlace(old(heap), block, needed)
      ensures LivesKept(old(mem), mem, old(heap).bm, block)
      ensures ContentsKept(old(mem), mem, old(heap).bm, heap.bm, block, block)
    {
      LivesKeptFirst(mem, quickFirst, heap, block);
      SameCopied(mem, quickFirst, heap, block);
      BlockWord(mem, quickFirst, heap, block);
      KeepInPlaceCases(heap, block, needed);
      hide WellFormed, Repr, LivesKept, Lives, Copied, SizeField, PrevBit, AllocBit, Shrink, LastBlock, KeepInPlace;
      var actual := SizeField(mem[block + 8]);
      if actual - needed >= 32 {
        ReallocSplit(block, needed);
      }
    }

    /** sf_realloc of a live block to a size that some block can hold. */
    method ReallocFitting(block: int, rsize: int) returns (ptr: int)
      requires Valid() && block in heap.bm && heap.bm[block].kind == Live && 0 < rsize <= TWO64 - 24
      modifies this
      ensures Valid() && Outcome(heap, ptr, pagesLeft) == Realloc(old(heap), block, rsize, old(pagesLeft))
      ensures LivesKept(old(mem), mem, old(heap).bm, block)
      ensures ptr != NULL ==> ContentsKept(old(mem), mem, old(heap).bm, heap.bm, block, ptr - 16)
      ensures ptr == NULL ==> LivesKept(old(mem), mem, old(heap).bm, NULL)
      ensures enomem == (old(enomem) || ptr == NULL)
    {
      hide Repr, LivesKept, ContentsKept, LastBlock;
      BlockWord(mem, quickFirst, heap, block);
      ReallocCases(heap, block, rsize, pagesLeft);
      assert WellFormed(heap) && start == heap.lo;
      hide *;
      var actual := SizeField(mem[block + 8]);
      var needed := AlignedBlock(rsize);
      // documented: the source compares the request itself with the block size
      if needed > actual {
        ptr := ReallocMove(block, rsize);
      } else {
        ReallocInPlace(block, needed);
        ptr := block + 16;
      }
    }

    /** sf_realloc, for a pointer that has passed validation. */
    method ReallocLive(block: int, rsize: int) returns (ptr: int)
      requires Valid() && block in heap.bm && heap.bm[block].kind == Live && 0 <= rsize < TWO64
      modifies this
      ensures Valid() && Outcome(heap, ptr, pagesLeft) == Realloc(old(heap), block, rsize, old(pagesLeft))
      ensures LivesKept(old(mem), mem, old(heap).bm, block)
      ensures ptr != NULL ==> ContentsKept(old(mem), mem, old(heap).bm, heap.bm, block, ptr - 16)
      ensures rsize != 0 && ptr == NULL ==> LivesKept(old(mem), mem, old(heap).bm, NULL)
      ensures enomem == (old(enomem) || (rsize != 0 && ptr == NULL))
    {
      LivesKeptFirst(mem, quickFirst, heap, block);
      LivesKeptFirst(mem, quickFirst, heap, NULL);
      ReallocEnds(heap, block, rsize, pagesLeft);
      hide WellFormed, Repr, LivesKept, Lives, ContentsKept, Realloc, FreeBlock, LastBlock;
      if rsize == 0 {
        FreeLive(block);
        return NULL;
      }
      // documented: a request that no block size can hold fails, instead of wrapping around
      if rsize > TWO64 - 24 {
        enomem := true;
        return NULL;
      }
      ptr := ReallocFitting(block, rsize);
    }

    // ----- the first page -----

    /** Static storage starts out as zeros. */
    static function Blank(a: int): int {
      0
    }

    /** No page obtained yet, all lists still to be set up. */
    ghost predicate Unborn()
      reads this
    {
      && memEnd == start && start >= LOWEST && start % 16 == 0 && Mapped(mem, memEnd - 16)
      && quickFirst == seq(10, _ => NULL) && quickCount == seq(10, _ => 0) && !lastBlockAllocated
    }

    constructor (start: int, pages: nat)
      requires start >= LOWEST && start % 16 == 0
      ensures Unborn() && this.start == start && pagesLeft == pages && !enomem
    {
      this.start, memEnd, pagesLeft := start, start, pages;
      mem := map a {:trigger Blank(a)} | 64 <= a < start :: Blank(a);
      quickFirst, quickCount := seq(10, _ => NULL), seq(10, _ => 0);
      lastBlockAllocated, enomem := false, false;
      heap := FirstHeap(start);
    }

    method InitializeFreeLists()
      requires forall a :: 64 <= a < LOWEST ==> a in mem
      modifies this`mem
      ensures forall a {:trigger a in mem} :: a in old(mem) ==> a in mem && (a >= LOWEST ==> mem[a] == old(mem)[a])
      ensures forall hi :: Mapped(old(mem), hi) ==> Mapped(mem, hi)
      ensures forall c :: 0 <= c < 10 ==> Linked(mem, Head(c), Head(c))
    {
      for i := 0 to 10
        invariant forall a {:trigger a in mem} :: a in old(mem) ==> a in mem && (a >= LOWEST ==> mem[a] == old(mem)[a])
        invariant forall c :: 0 <= c < i ==> Linked(mem, Head(c), Head(c))
      {
        mem := mem[Head(i) + 24 := Head(i)];
        mem := mem[Head(i) + 16 := Head(i)];
      }
    }

    /** The first call's set-up: one page, one free block, on list 7. */
    method InitHeap()
      requires Unborn() && pagesLeft > 0
      modifies this
      ensures Valid() && heap == FirstHeap(start) && pagesLeft == old(pagesLeft) - 1 && enomem == old(enomem)
    {
      var _ := MemGrow();
      WriteFirstPage();
      FirstHeapWellFormed(start);
      FirstHeapLast(start);
      heap := FirstHeap(start);
    }

    method WriteFirstPage()
      requires start >= LOWEST && start % 16 == 0 && memEnd == start + PAGE && Mapped(mem, memEnd - 16)
      requires quickFirst == seq(10, _ => NULL)
      modifies this`mem
      ensures Repr(mem, quickFirst, FirstHeap(start))
    {
      var block := start;
      WriteFirstBlock();
      ghost var m1 := mem;
      assert block in m1 && block + 8 in m1 && block + 4080 in m1;
      InitializeFreeLists();
      ghost var m := mem;
      assert block in m && block + 8 in m && block + 4080 in m;
      mem := mem[block + 16 := Head(7)][block + 24 := Head(7)];
      mem := mem[Head(7) + 16 := block][Head(7) + 24 := block];
      FirstHeapRepr(m, mem, quickFirst, start);
    }

    method WriteFirstBlock()
      requires start >= LOWEST && start % 16 == 0 && memEnd == start + PAGE && Mapped(mem, memEnd - 16)
      modifies this`mem
      ensures Mapped(mem, memEnd - 16)
      ensures start in mem && mem[start] == 0 && start + 8 in mem && mem[start + 8] == 4080
      ensures start + 4080 in mem && mem[start + 4080] == 4080
    {
      mem := mem[start := 0];
      mem := mem[start + 8 := 4080];
      HeaderFields(4080, false, false);
      FooterOf(mem, start, 4080, 4080);
      AddFooter(start);
    }

    /** sf_malloc. */
    method SfMalloc(size: int) returns (ptr: int)
      requires (Valid() || Unborn()) && 0 <= size < TWO64
      modifies this
      ensures old(Valid()) ==>
                && Valid() && Outcome(heap, ptr, pagesLeft) == Malloc(old(heap), size, old(pagesLeft))
                && LivesKept(old(mem), mem, old(heap).bm, NULL)
      ensures !old(Valid()) ==>
                if size == 0 || old(pagesLeft) == 0 then Unborn() && ptr == NULL
                else Valid() && Outcome(heap, ptr, pagesLeft) == FirstMalloc(start, size, old(pagesLeft) - 1)
      ensures enomem == (old(enomem) || (size != 0 && ptr == NULL))
    {
      hide Malloc, WellFormed, Repr, LivesKept, LastBlock, FirstMalloc, Mapped, Valid, Unborn;
      NotBoth();
      if memEnd == start {
        ptr := MallocUnborn(size);
      } else {
        ptr := MallocBorn(size);
      }
    }

    method MallocUnborn(size: int) returns (ptr: int)
      requires Unborn() && 0 <= size < TWO64
      modifies this
      ensures if size == 0 || old(pagesLeft) == 0 then Unborn() && ptr == NULL
              else Valid() && Outcome(heap, ptr, pagesLeft) == FirstMalloc(start, size, old(pagesLeft) - 1)
      ensures enomem == (old(enomem) || (size != 0 && ptr == NULL))
    {
      if size == 0 {
        return NULL;
      }
      if pagesLeft == 0 {
        // documented: the source does not check that it got its first page
        var _ := MemGrow();
        return NULL;
      }
      InitHeap();
      hide Malloc, WellFormed, Repr, LivesKept, LastBlock;
      ptr := MallocBorn(size);
    }

    lemma NotBoth()
      requires Valid() || Unborn()
      ensures memEnd == start <==> Unborn()
      ensures !(Valid() && Unborn())
    {
      if Valid() {
        OwnedInHeap(heap.bm, heap.lo, heap.hi, heap.lo);
      }
    }

    /** sf_realloc. The source aborts the program on a pointer that fails validation. */
    method SfRealloc(pp: int, rsize: int) returns (aborted: bool, ptr: int)
      requires Valid() && Freeable(pp) && 0 <= rsize < TWO64
      modifies this
      ensures Valid()
      ensures !aborted <==> pp - 16 in old(heap).bm && old(heap).bm[pp - 16].kind == Live
      ensures aborted ==> heap == old(heap) && mem == old(mem) && pagesLeft == old(pagesLeft) && ptr == NULL
      ensures enomem == (old(enomem) || (!aborted && rsize != 0 && ptr == NULL))
      ensures !aborted ==>
                && Outcome(heap, ptr, pagesLeft) == Realloc(old(heap), pp - 16, rsize, old(pagesLeft))
                && LivesKept(old(mem), mem, old(heap).bm, pp - 16)
                && (ptr != NULL ==> ContentsKept(old(mem), mem, old(heap).bm, heap.bm, pp - 16, ptr - 16))
                && (rsize != 0 && ptr == NULL ==> LivesKept(old(mem), mem, old(heap).bm, NULL))
    {
      hide Repr, WellFormed, Realloc, LivesKept, ContentsKept, LastBlock;
      var live := Accepts(pp);
      if !live {
        return true, NULL;
      }
      aborted := false;
      ptr := ReallocLive(pp - 16, rsize);
    }
  }
}
