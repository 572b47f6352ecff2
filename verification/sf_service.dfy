/**
  Any series of sf_malloc, sf_free and sf_realloc calls on one allocator of hw3/src/sfmm.c: it makes
  the steps of SfRuns, and what a client holds keeps its payload, wherever realloc moves it.
*/
module SfService {
  import opened Wrappers
  import opened SfSizes
  import opened SfHeap
  import opened SfRuns
  import opened SfMemory
  import opened SfSteps
  import opened SfAllocator

  /** What the call returns; sf_free returns nothing. */
  ghost function Answer(s: State, op: Op): int
    requires Sound(s) && Legal(s, op)
  {
    match op
    case DoMalloc(request) => Malloc(s.heap, request, s.pages).ptr
    case DoFree(_) => NULL
    case DoRealloc(ptr, request) =>
      HeldIsLive(s, ptr);
      Realloc(s.heap, ptr - 16, request, s.pages).ptr
  }

  /** Where the payload held at u is after the call; None if it has been freed. */
  ghost function After(s: State, op: Op, u: int): Option<int>
    requires Sound(s) && Legal(s, op)
  {
    match op
    case DoMalloc(_) => Some(u)
    case DoFree(ptr) => if u == ptr then None else Some(u)
    case DoRealloc(ptr, request) =>
      if u != ptr then Some(u)
      else if request == 0 then None
      else if Answer(s, op) == NULL then Some(u) else Some(Answer(s, op))
  }

  ghost function Answers(s: State, ops: seq<Op>, t: State): seq<int>
    requires Sound(s) && Reaches(s, ops, t)
    decreases |ops|
  {
    if ops == [] then [] else [Answer(s, ops[0])] + Answers(Step(s, ops[0]), ops[1..], t)
  }

  /** Where the payload is after all of the calls. */
  ghost function Finally(s: State, ops: seq<Op>, t: State, u: int): Option<int>
    requires Sound(s) && Reaches(s, ops, t)
    decreases |ops|
  {
    if ops == [] then Some(u)
    else
      match After(s, ops[0], u)
      case None => None
      case Some(v) => Finally(Step(s, ops[0]), ops[1..], t, v)
  }

  function BlockSize(s: State, u: int): int {
    if u - 16 in s.heap.bm then s.heap.bm[u - 16].size else 0
  }

  /** The size of the smallest block that it has been in. */
  ghost function Narrowest(s: State, ops: seq<Op>, t: State, u: int): int
    requires Sound(s) && Reaches(s, ops, t)
    decreases |ops|
  {
    if ops == [] then BlockSize(s, u)
    else
      match After(s, ops[0], u)
      case None => 0
      case Some(v) => Least(BlockSize(s, u), Narrowest(Step(s, ops[0]), ops[1..], t, v))
  }

  /** Whatever has not been freed is held where it is. */
  lemma AfterHeld(s: State, op: Op, u: int)
    requires Sound(s) && Legal(s, op) && u in s.held
    ensures After(s, op, u).Some? ==> After(s, op, u).value in Step(s, op).held
  {
    hide Sound, Malloc, Realloc, FreeBlock;
  }

  /** A live block that the call leaves alone: it is still there, with its payload. */
  lemma LeftAlone(m0: Mem, m: Mem, h: Heap, h': Heap, p: int, x: int)
    requires LivesKept(m0, m, h.bm, p) && x in Lives(h.bm) && x != p
    requires x in Lives(h'.bm) && Lives(h'.bm)[x] == Lives(h.bm)[x]
    ensures ContentsKept(m0, m, h.bm, h'.bm, x, x)
  {
    assert SameBody(m0, m, h.bm, x);
  }

  lemma MallocLives(h: Heap, request: int, pages: nat, x: int)
    requires WellFormed(h) && 0 <= request < TWO64 && x in Lives(h.bm)
    ensures var h' := Malloc(h, request, pages).heap;
            x in Lives(h'.bm) && Lives(h'.bm)[x] == Lives(h.bm)[x]
  {
    hide Malloc;
  }

  lemma ReallocLives(h: Heap, p: int, request: int, pages: nat, x: int)
    requires WellFormed(h) && p in h.bm && h.bm[p].kind == Live && 0 <= request < TWO64 && x in Lives(h.bm) && x != p
    ensures var h' := Realloc(h, p, request, pages).heap;
            x in Lives(h'.bm) && Lives(h'.bm)[x] == Lives(h.bm)[x]
  {
    hide Realloc;
  }

  /** What u pointed at before the call is now where After says, as far as the smaller block goes. */
  ghost predicate Carried(m0: Mem, m: Mem, s: State, op: Op, u: int)
    requires Sound(s) && Legal(s, op)
  {
    After(s, op, u).Some? ==>
      ContentsKept(m0, m, s.heap.bm, Step(s, op).heap.bm, u - 16, After(s, op, u).value - 16)
  }

  method PerformMalloc(a: Sfmm, request: int, ghost s: State) returns (ptr: int)
    requires a.Valid() && Sound(s) && s.heap == a.heap && s.pages == a.pagesLeft && 0 <= request < TWO64
    modifies a
    ensures a.Valid() && a.heap == Step(s, DoMalloc(request)).heap && a.pagesLeft == Step(s, DoMalloc(request)).pages
    ensures ptr == Answer(s, DoMalloc(request))
    ensures forall u :: u in s.held ==> Carried(old(a.mem), a.mem, s, DoMalloc(request), u)
  {
    ghost var m0 := a.mem;
    hide Malloc, Repr, LivesKept, LastBlock;
    ptr := a.SfMalloc(request);
    forall u | u in s.held
      ensures Carried(m0, a.mem, s, DoMalloc(request), u)
    {
      HeldIsLive(s, u);
      assert u - 16 in Lives(s.heap.bm);
      BlockAboveZero(s.heap, u - 16);
      MallocLives(s.heap, request, s.pages, u - 16);
      LeftAlone(m0, a.mem, s.heap, a.heap, NULL, u - 16);
    }
  }

  method PerformFree(a: Sfmm, ptr: int, ghost s: State)
    requires a.Valid() && Sound(s) && s.heap == a.heap && s.pages == a.pagesLeft && ptr in s.held
    modifies a
    ensures a.Valid() && a.heap == Step(s, DoFree(ptr)).heap && a.pagesLeft == Step(s, DoFree(ptr)).pages
    ensures forall u :: u in s.held ==> Carried(old(a.mem), a.mem, s, DoFree(ptr), u)
  {
    ghost var m0 := a.mem;
    HeldIsLive(s, ptr);
    hide FreeBlock, Repr, LivesKept, LastBlock;
    var _ := a.SfFree(ptr);
    forall u | u in s.held
      ensures Carried(m0, a.mem, s, DoFree(ptr), u)
    {
      HeldIsLive(s, u);
      assert u - 16 in Lives(s.heap.bm);
      if u != ptr {
        LeftAlone(m0, a.mem, s.heap, a.heap, ptr - 16, u - 16);
      }
    }
  }

  method PerformRealloc(a: Sfmm, ptr: int, request: int, ghost s: State) returns (answer: int)
    requires a.Valid() && Sound(s) && s.heap == a.heap && s.pages == a.pagesLeft
    requires ptr in s.held && 0 <= request < TWO64
    modifies a
    ensures var op := DoRealloc(ptr, request);
            a.Valid() && a.heap == Step(s, op).heap && a.pagesLeft == Step(s, op).pages && answer == Answer(s, op)
    ensures forall u :: u in s.held ==> Carried(old(a.mem), a.mem, s, DoRealloc(ptr, request), u)
  {
    hide *;
    HeldIsLive(s, ptr);
    ReallocSteps(s, ptr, request);
    HeldFreeable(a, s, ptr);
    ghost var m0 := a.mem;
    var aborted;
    aborted, answer := a.SfRealloc(ptr, request);
    ReallocCarriesAll(m0, a.mem, s, ptr, request, Outcome(a.heap, answer, a.pagesLeft));
  }

  lemma HeldFreeable(a: Sfmm, s: State, ptr: int)
    requires s.heap == a.heap && ptr - 16 in s.heap.bm && s.heap.bm[ptr - 16].kind == Live
    ensures a.Freeable(ptr)
  {
  }

  lemma ReallocCarriesAll(m0: Mem, m: Mem, s: State, ptr: int, request: int, out: Outcome)
    requires Sound(s) && ptr in s.held && 0 <= request < TWO64
    requires ptr - 16 in s.heap.bm && s.heap.bm[ptr - 16].kind == Live && LivesKept(m0, m, s.heap.bm, ptr - 16)
    requires out == Realloc(s.heap, ptr - 16, request, s.pages)
    requires out.ptr != NULL ==> ContentsKept(m0, m, s.heap.bm, out.heap.bm, ptr - 16, out.ptr - 16)
    requires request != 0 && out.ptr == NULL ==> LivesKept(m0, m, s.heap.bm, NULL)
    ensures forall u :: u in s.held ==> Carried(m0, m, s, DoRealloc(ptr, request), u)
  {
    hide Sound, Realloc, LivesKept, ContentsKept, Carried;
    forall u | u in s.held
      ensures Carried(m0, m, s, DoRealloc(ptr, request), u)
    {
      ReallocCarries(m0, m, s, ptr, request, u);
    }
  }

  lemma ReallocSteps(s: State, ptr: int, request: int)
    requires Sound(s) && ptr in s.held && 0 <= request < TWO64
    requires ptr - 16 in s.heap.bm && s.heap.bm[ptr - 16].kind == Live
    ensures var op, out := DoRealloc(ptr, request), Realloc(s.heap, ptr - 16, request, s.pages);
            Step(s, op).heap == out.heap && Step(s, op).pages == out.pages && Answer(s, op) == out.ptr
  {
    hide Realloc;
  }

  lemma ReallocCarries(m0: Mem, m: Mem, s: State, ptr: int, request: int, u: int)
    requires Sound(s) && ptr in s.held && u in s.held && 0 <= request < TWO64
    requires ptr - 16 in s.heap.bm && s.heap.bm[ptr - 16].kind == Live && LivesKept(m0, m, s.heap.bm, ptr - 16)
    requires var out := Realloc(s.heap, ptr - 16, request, s.pages);
             && (out.ptr != NULL ==> ContentsKept(m0, m, s.heap.bm, out.heap.bm, ptr - 16, out.ptr - 16))
             && (request != 0 && out.ptr == NULL ==> LivesKept(m0, m, s.heap.bm, NULL))
    ensures Carried(m0, m, s, DoRealloc(ptr, request), u)
  {
    hide Realloc, LivesKept, ContentsKept, WellFormed;
    HeldIsLive(s, u);
    var h, out := s.heap, Realloc(s.heap, ptr - 16, request, s.pages);
    assert u - 16 in Lives(h.bm);
    if u != ptr {
      ReallocLives(h, ptr - 16, request, s.pages, u - 16);
      LeftAlone(m0, m, h, out.heap, ptr - 16, u - 16);
    } else if request != 0 && out.ptr == NULL {
      FailedKeeps(h, ptr - 16, request, s.pages);
      BlockAboveZero(h, u - 16);
      LeftAlone(m0, m, h, out.heap, NULL, u - 16);
    }
  }

  lemma FailedKeeps(h: Heap, p: int, request: int, pages: nat)
    requires WellFormed(h) && p in h.bm && h.bm[p].kind == Live && 0 < request < TWO64
    ensures Realloc(h, p, request, pages).ptr == NULL ==> Lives(Realloc(h, p, request, pages).heap.bm) == Lives(h.bm)
  {
    hide Realloc;
  }

  method Perform(a: Sfmm, op: Op, ghost s: State) returns (answer: int)
    requires a.Valid() && Sound(s) && s.heap == a.heap && s.pages == a.pagesLeft && Legal(s, op)
    modifies a
    ensures a.Valid() && a.heap == Step(s, op).heap && a.pagesLeft == Step(s, op).pages
    ensures answer == Answer(s, op)
    ensures forall u :: u in s.held ==> Carried(old(a.mem), a.mem, s, op, u)
  {
    hide Sound, Step, Answer, Carried, After;
    match op {
      case DoMalloc(request) =>
        answer := PerformMalloc(a, request, s);
      case DoFree(ptr) =>
        PerformFree(a, ptr, s);
        FreeAnswers(s, ptr);
        answer := NULL;
      case DoRealloc(ptr, request) =>
        answer := PerformRealloc(a, ptr, request, s);
    }
  }

  lemma FreeAnswers(s: State, ptr: int)
    requires Sound(s) && ptr in s.held
    ensures Answer(s, DoFree(ptr)) == NULL
  {
  }

  lemma CopiedTwice(m0: Mem, m1: Mem, m2: Mem, x: int, y: int, z: int, i: int, j: int)
    requires Copied(m0, m1, x, y, i) && Copied(m1, m2, y, z, j)
    ensures Copied(m0, m2, x, z, Least(i, j))
  {
    forall o | 16 <= o <= Least(i, j) && o % 8 == 0
      ensures x + o in m0 && z + o in m2 && m2[z + o] == m0[x + o]
    {
      assert y + o in m1 && m1[y + o] == m0[x + o];
    }
  }

  /** The payload held at u in s is, in m, where Finally says, as far as its narrowest block goes. */
  ghost predicate Kept(m0: Mem, m: Mem, s: State, ops: seq<Op>, t: State, u: int)
    requires Sound(s) && Reaches(s, ops, t)
  {
    match Finally(s, ops, t, u)
    case None => true
    case Some(v) => v in t.held && Copied(m0, m, u - 16, v - 16, Narrowest(s, ops, t, u))
  }

  lemma NothingYet(m: Mem, first: seq<int>, s: State)
    requires Sound(s) && Repr(m, first, s.heap)
    ensures forall u :: u in s.held ==> Kept(m, m, s, [], s, u)
  {
    hide Repr;
    forall u | u in s.held
      ensures Kept(m, m, s, [], s, u)
    {
      HeldIsLive(s, u);
      SameCopied(m, first, s.heap, u - 16);
    }
  }

  lemma NarrowestLeast(s: State, ops: seq<Op>, t: State, u: int)
    requires Sound(s) && Reaches(s, ops, t) && Finally(s, ops, t, u).Some?
    ensures Narrowest(s, ops, t, u) <= BlockSize(s, u)
  {
    hide Sound, Legal, Step, After;
  }

  lemma FinallyFirst(s: State, ops: seq<Op>, t: State, u: int)
    requires Sound(s) && Reaches(s, ops, t) && ops != []
    ensures Legal(s, ops[0]) && Reaches(Step(s, ops[0]), ops[1..], t)
    ensures var s1, v := Step(s, ops[0]), After(s, ops[0], u);
            && Finally(s, ops, t, u) == (if v.None? then None else Finally(s1, ops[1..], t, v.value))
            && (v.Some? ==> Narrowest(s, ops, t, u) == Least(BlockSize(s, u), Narrowest(s1, ops[1..], t, v.value)))
  {
    hide Sound, Legal, Step, After, BlockSize;
  }

  lemma OneMoreFor(m0: Mem, m1: Mem, m2: Mem, s: State, s1: State, u: int, v: int, w: int, n: int)
    requires ContentsKept(m0, m1, s.heap.bm, s1.heap.bm, u - 16, v - 16) && Copied(m1, m2, v - 16, w - 16, n)
    requires n <= BlockSize(s1, v)
    ensures Copied(m0, m2, u - 16, w - 16, Least(BlockSize(s, u), n))
  {
    CopiedTwice(m0, m1, m2, u - 16, v - 16, w - 16, Least(BlockSize(s, u), BlockSize(s1, v)), n);
  }

  lemma OneMore(m0: Mem, m1: Mem, m2: Mem, s: State, ops: seq<Op>, t: State, u: int)
    requires Sound(s) && Reaches(s, ops, t) && ops != [] && u in s.held
    requires Legal(s, ops[0]) && Carried(m0, m1, s, ops[0], u)
    requires After(s, ops[0], u).Some? ==>
               && Reaches(Step(s, ops[0]), ops[1..], t)
               && Kept(m1, m2, Step(s, ops[0]), ops[1..], t, After(s, ops[0], u).value)
    ensures Kept(m0, m2, s, ops, t, u)
  {
    hide Sound, Legal, Step, After, ContentsKept, Copied, BlockSize, Finally, Narrowest, Reaches;
    FinallyFirst(s, ops, t, u);
    if After(s, ops[0], u).Some? {
      var s1, v := Step(s, ops[0]), After(s, ops[0], u).value;
      if Finally(s1, ops[1..], t, v).Some? {
        NarrowestLeast(s1, ops[1..], t, v);
        OneMoreFor(m0, m1, m2, s, s1, u, v, Finally(s1, ops[1..], t, v).value, Narrowest(s1, ops[1..], t, v));
      }
    }
  }

  lemma OneMoreForAll(m0: Mem, m1: Mem, m2: Mem, s: State, ops: seq<Op>, t: State)
    requires Sound(s) && Reaches(s, ops, t) && ops != [] && Legal(s, ops[0])
    requires forall u :: u in s.held ==> Carried(m0, m1, s, ops[0], u)
    requires Reaches(Step(s, ops[0]), ops[1..], t)
    requires forall v :: v in Step(s, ops[0]).held ==> Kept(m1, m2, Step(s, ops[0]), ops[1..], t, v)
    ensures forall u :: u in s.held ==> Kept(m0, m2, s, ops, t, u)
  {
    hide *;
    forall u | u in s.held
      ensures Kept(m0, m2, s, ops, t, u)
    {
      AfterHeld(s, ops[0], u);
      OneMore(m0, m1, m2, s, ops, t, u);
    }
  }

  /**
    Calls made one after the other on one allocator: the states are those of SfRuns, the answers the
    specified ones, and no payload that is held is lost, whatever the others do.
  */
  method Serve(a: Sfmm, ops: seq<Op>, ghost s: State, ghost t: State) returns (answers: seq<int>)
    requires a.Valid() && Sound(s) && s.heap == a.heap && s.pages == a.pagesLeft && Reaches(s, ops, t)
    modifies a
    ensures a.Valid() && a.heap == t.heap && a.pagesLeft == t.pages
    ensures answers == Answers(s, ops, t)
    ensures forall u :: u in s.held ==> Kept(old(a.mem), a.mem, s, ops, t, u)
    decreases |ops|
  {
    hide Sound, Legal, Step, Answer, Carried, Kept, Repr, WellFormed, LastBlock;
    if ops == [] {
      NothingYet(a.mem, a.quickFirst, s);
      return [];
    }
    ghost var m0 := a.mem;
    var answer := Perform(a, ops[0], s);
    ghost var m1 := a.mem;
    var rest := Serve(a, ops[1..], Step(s, ops[0]), t);
    OneMoreForAll(m0, m1, a.mem, s, ops, t);
    return [answer] + rest;
  }
}
