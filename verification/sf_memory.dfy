/**
  How the heap of SfHeap lies in memory: header and footer words, the circular doubly linked
  main lists with their sentinels, and the singly linked quick lists. Memory is a map from the
  addresses of 8-byte rows to their contents, with the mask on header words left off.
*/
module SfMemory {
  import opened SfSizes
  import opened SfHeap
  import opened SfRuns

  type Mem = map<int, int>

  /** The ten sentinels are blocks of their own, below the heap. */
  function Head(c: int): int {
    64 + 32 * c
  }

  const LOWEST: int := 512

  /** x's next link is y and y's prev link is x. */
  predicate Linked(m: Mem, x: int, y: int) {
    x + 16 in m && y + 24 in m && m[x + 16] == y && m[y + 24] == x
  }

  /** From u through the nodes of s to t, every link is matched by its reverse. */
  predicate Chain(m: Mem, u: int, s: seq<int>, t: int)
    decreases |s|
  {
    if s == [] then Linked(m, u, t) else Linked(m, u, s[0]) && Chain(m, s[0], s[1..], t)
  }

  predicate Ring(m: Mem, head: int, s: seq<int>) {
    Chain(m, head, s, head)
  }

  /** A quick list: next links only, ending in NULL. */
  predicate Stack(m: Mem, first: int, s: seq<int>)
    decreases |s|
  {
    if s == [] then first == NULL
    else first == s[0] && first + 16 in m && Stack(m, m[first + 16], s[1..])
  }

  predicate Aligned(s: seq<int>) {
    forall y :: y in s ==> y % 16 == 0
  }

  // ----- list surgery on the links -----

  /** The two neighbours of x linked to each other, and x's next link cleared. */
  function Unlink(m: Mem, x: int): Mem
    requires x + 16 in m && x + 24 in m
  {
    m[m[x + 24] + 16 := m[x + 16]][m[x + 16] + 24 := m[x + 24]][x + 16 := NULL]
  }

  /** x linked in between the sentinel and the first node. */
  function LinkFront(m: Mem, head: int, x: int): Mem
    requires head + 16 in m
  {
    var f := m[head + 16];
    m[x + 16 := f][x + 24 := head][f + 24 := x][head + 16 := x]
  }

  predicate SameNext(m: Mem, m': Mem, y: int) {
    y + 16 in m && y + 16 in m' && m'[y + 16] == m[y + 16]
  }

  predicate SamePrev(m: Mem, m': Mem, y: int) {
    y + 24 in m && y + 24 in m' && m'[y + 24] == m[y + 24]
  }

  predicate SameLinks(m: Mem, m': Mem, y: int) {
    SameNext(m, m', y) && SamePrev(m, m', y)
  }

  lemma SplitHead(s: seq<int>)
    requires s != []
    ensures s[0] in s && forall y :: y in s <==> y == s[0] || y in s[1..]
    ensures Distinct(s) ==> Distinct(s[1..]) && s[0] !in s[1..]
  {
    assert forall i :: 0 <= i < |s[1..]| ==> s[1..][i] == s[i + 1];
  }

  lemma {:induction false} ChainFrame(m: Mem, m': Mem, u: int, s: seq<int>, t: int)
    requires Chain(m, u, s, t)
    requires SameNext(m, m', u) && SamePrev(m, m', t)
    requires forall y :: y in s ==> SameLinks(m, m', y)
    ensures Chain(m', u, s, t)
    decreases |s|
  {
    if s != [] {
      SplitHead(s);
      ChainFrame(m, m', s[0], s[1..], t);
    }
  }

  lemma {:induction false} ChainMapped(m: Mem, u: int, s: seq<int>, t: int)
    requires Chain(m, u, s, t)
    ensures u + 16 in m && t + 24 in m
    ensures forall y :: y in s ==> SameLinks(m, m, y)
    decreases |s|
  {
    if s != [] {
      SplitHead(s);
      ChainMapped(m, s[0], s[1..], t);
    }
  }

  /** The neighbours of a node on a chain are on it too, or are its ends. */
  lemma {:induction false} ChainNeighbours(m: Mem, u: int, s: seq<int>, t: int, x: int)
    requires Chain(m, u, s, t) && x in s && Distinct(s) && u !in s && t !in s
    ensures x + 16 in m && x + 24 in m
    ensures m[x + 24] == u || (m[x + 24] in s && m[x + 24] != x)
    ensures m[x + 16] == t || (m[x + 16] in s && m[x + 16] != x)
    ensures m[x + 24] == u <==> x == s[0]
    ensures m[x + 16] != s[0]
    decreases |s|
  {
    var rest := s[1..];
    SplitHead(s);
    if x == s[0] {
      if rest != [] {
        assert Linked(m, s[0], rest[0]);
        SplitHead(rest);
      }
    } else {
      SplitHead(rest);
      ChainNeighbours(m, s[0], rest, t, x);
    }
  }

  lemma UnlinkFirst(m: Mem, u: int, s: seq<int>, t: int)
    requires s != [] && Chain(m, u, s, t) && Distinct(s) && u !in s && t !in s
    requires Aligned(s) && u % 16 == 0 && t % 16 == 0
    requires s[0] + 16 in m && s[0] + 24 in m
    ensures Chain(Unlink(m, s[0]), u, s[1..], t)
  {
    var x, rest := s[0], s[1..];
    var m' := Unlink(m, x);
    SplitHead(s);
    ChainMapped(m, u, s, t);
    if rest != [] {
      SplitHead(rest);
      assert Linked(m, x, rest[0]);
      assert Linked(m', u, rest[0]);
      ChainFrame(m, m', rest[0], rest[1..], t);
    }
  }

  /** Links between nodes that are not neighbours of x are left alone. */
  lemma UnlinkElsewhere(m: Mem, x: int, u: int, v: int)
    requires x + 16 in m && x + 24 in m && Linked(m, u, v)
    requires u != m[x + 24] && v != m[x + 16] && u != x
    requires x % 16 == 0 && u % 16 == 0 && v % 16 == 0 && m[x + 24] % 16 == 0 && m[x + 16] % 16 == 0
    ensures Linked(Unlink(m, x), u, v)
  {
  }

  lemma {:induction false} UnlinkChain(m: Mem, u: int, s: seq<int>, t: int, x: int)
    requires Chain(m, u, s, t) && x in s && Distinct(s) && u !in s && t !in s
    requires Aligned(s) && u % 16 == 0 && t % 16 == 0
    requires x + 16 in m && x + 24 in m
    ensures Chain(Unlink(m, x), u, Without(s, x), t)
    decreases |s|
  {
    hide Unlink;
    SplitHead(s);
    if x == s[0] {
      UnlinkFirst(m, u, s, t);
    } else {
      ChainNeighbours(m, u, s, t, x);
      UnlinkChain(m, s[0], s[1..], t, x);
      UnlinkElsewhere(m, x, u, s[0]);
    }
  }

  lemma LinkFrontRing(m: Mem, head: int, s: seq<int>, x: int)
    requires Ring(m, head, s) && Distinct(s) && head !in s && x !in s && x != head
    requires Aligned(s) && head % 16 == 0 && x % 16 == 0 && head + 16 in m
    ensures Ring(LinkFront(m, head, x), head, [x] + s)
  {
    var m' := LinkFront(m, head, x);
    ChainMapped(m, head, s, head);
    assert ([x] + s)[1..] == s;
    assert Linked(m', head, x);
    if s != [] {
      SplitHead(s);
      ChainFrame(m, m', s[0], s[1..], head);
      assert Linked(m', x, s[0]);
    }
    assert Chain(m', x, s, head);
  }

  lemma {:induction false} StackFrame(m: Mem, m': Mem, first: int, s: seq<int>)
    requires Stack(m, first, s)
    requires forall y :: y in s ==> SameNext(m, m', y)
    ensures Stack(m', first, s)
    decreases |s|
  {
    if s != [] {
      SplitHead(s);
      StackFrame(m, m', m[first + 16], s[1..]);
    }
  }

  // ----- the representation -----

  predicate HeaderOK(m: Mem, bm: Blocks, p: int)
    requires p in bm
  {
    var b := bm[p];
    && p + 8 in m && m[p + 8] == Word(b)
    && (b.kind == Free ==> p + b.size in m && m[p + b.size] == Word(b))
  }

  ghost predicate Mapped(m: Mem, hi: int) {
    forall a {:trigger a in m} :: 64 <= a <= hi + 8 ==> a in m
  }

  ghost predicate HeadersOK(m: Mem, bm: Blocks) {
    forall p {:trigger HeaderOK(m, bm, p)} :: p in bm ==> HeaderOK(m, bm, p)
  }

  ghost predicate RingsOK(m: Mem, main: Lists) {
    |main| == 10 && forall c {:trigger Ring(m, Head(c), main[c])} :: 0 <= c < 10 ==> Ring(m, Head(c), main[c])
  }

  ghost predicate StacksOK(m: Mem, first: seq<int>, quick: Lists) {
    |first| == |quick| == 10
    && forall k {:trigger Stack(m, first[k], quick[k])} :: 0 <= k < 10 ==> Stack(m, first[k], quick[k])
  }

  ghost predicate Repr(m: Mem, first: seq<int>, h: Heap) {
    && h.lo >= LOWEST
    && Mapped(m, h.hi) && h.lo in m && m[h.lo] == 0
    && HeadersOK(m, h.bm) && RingsOK(m, h.main) && StacksOK(m, first, h.quick)
  }

  // ----- what a block owns -----

  /** Row a belongs to the block at y: its header, its body or its footer. */
  predicate Owns(bm: Blocks, y: int, a: int) {
    y in bm && y < a <= y + bm[y].size
  }

  lemma OwnerIsUnique(bm: Blocks, lo: int, hi: int, x: int, y: int, a: int)
    requires Tiled(bm, lo, hi) && Owns(bm, x, a) && Owns(bm, y, a)
    ensures x == y
  {
    assert Apart(bm, x, y) && Apart(bm, y, x);
  }

  lemma OwnedInHeap(bm: Blocks, lo: int, hi: int, y: int)
    requires Tiled(bm, lo, hi) && y in bm
    ensures y % 16 == 0 && lo <= y && bm[y].size >= 32 && bm[y].size % 16 == 0 && y + bm[y].size <= hi
    ensures Owns(bm, y, y + 8) && Owns(bm, y, y + 16) && Owns(bm, y, y + 24) && Owns(bm, y, y + bm[y].size)
  {
    assert Placed(bm, lo, hi, y);
  }

  // ----- halfway through an operation -----

  predicate SameWords(m0: Mem, m: Mem, bm: Blocks, x: int)
    requires x in bm
  {
    && x + 8 in m0 && x + 8 in m && m[x + 8] == m0[x + 8]
    && (bm[x].kind == Free ==>
          x + bm[x].size in m0 && x + bm[x].size in m && m[x + bm[x].size] == m0[x + bm[x].size])
  }

  /** Every row of x after its header is as it was: payload, or the link of a quick block. */
  ghost predicate SameBody(m0: Mem, m: Mem, bm: Blocks, x: int)
    requires x in bm
  {
    forall a {:trigger a in m} {:trigger a in m0} :: x + 8 < a <= x + bm[x].size ==> a in m0 && a in m && m[a] == m0[a]
  }

  /** List nodes are free blocks of the right class, each on one list at most once. */
  ghost predicate NodesOK(bm: Blocks, main: Lists) {
    && |main| == 10
    && (forall c :: 0 <= c < 10 ==> Distinct(main[c]))
    && (forall c, x :: 0 <= c < 10 && x in main[c] ==> OnMain(bm, c, x))
  }

  /**
    Memory m on the way from m0: header and footer words may have changed in the blocks of T only,
    bodies in free blocks and in p only, and the rings now hold `main`.
  */
  ghost predicate Mid(m0: Mem, m: Mem, bm: Blocks, lo: int, hi: int, T: set<int>, p: int, main: Lists) {
    && lo >= LOWEST && Mapped(m, hi) && lo in m0 && lo in m && m[lo] == m0[lo]
    && (forall x {:trigger SameWords(m0, m, bm, x)} :: x in bm && x !in T ==> SameWords(m0, m, bm, x))
    && (forall x {:trigger SameBody(m0, m, bm, x)} :: x in bm && bm[x].kind != Free && x != p ==> SameBody(m0, m, bm, x))
    && RingsOK(m, main) && NodesOK(bm, main)
  }

  lemma MidBegins(m: Mem, first: seq<int>, h: Heap, T: set<int>, p: int)
    requires WellFormed(h) && Repr(m, first, h)
    ensures Mid(m, m, h.bm, h.lo, h.hi, T, p, h.main)
  {
    forall x | x in h.bm
      ensures SameWords(m, m, h.bm, x)
    {
      assert HeaderOK(m, h.bm, x);
    }
    forall x | x in h.bm
      ensures SameBody(m, m, h.bm, x)
    {
      OwnedInHeap(h.bm, h.lo, h.hi, x);
    }
    forall c, x | 0 <= c < 10 && x in h.main[c]
      ensures OnMain(h.bm, c, x)
    {
      assert x in h.main[c] <==> OnMain(h.bm, c, x);
    }
  }

  /** A ring survives any write outside its links. */
  lemma RingFrame(m: Mem, m': Mem, bm: Blocks, lo: int, hi: int, main: Lists, c: int)
    requires RingsOK(m, main) && NodesOK(bm, main) && 0 <= c < 10
    requires SameLinks(m, m', Head(c))
    requires forall x :: x in main[c] ==> SameLinks(m, m', x)
    ensures Ring(m', Head(c), main[c])
  {
    assert Ring(m, Head(c), main[c]);
    ChainFrame(m, m', Head(c), main[c], Head(c));
  }

  /** Writing a header or footer word of a block in T, or any row of one that is on no list. */
  lemma MidWrite(m0: Mem, m: Mem, bm: Blocks, lo: int, hi: int, T: set<int>, p: int, main: Lists,
                 y: int, a: int, v: int)
    requires Tiled(bm, lo, hi) && Mid(m0, m, bm, lo, hi, T, p, main)
    requires y in T && Owns(bm, y, a)
    requires a == y + 8 || bm[y].kind == Free || y == p
    requires a == y + 8 || a == y + bm[y].size || y !in main[FreeListIndex(bm[y].size)]
    ensures Mid(m0, m[a := v], bm, lo, hi, T, p, main)
  {
    var m' := m[a := v];
    assert a in m by {
      OwnedInHeap(bm, lo, hi, y);
    }
    OwnedInHeap(bm, lo, hi, y);
    forall x | x in bm && x !in T
      ensures SameWords(m0, m', bm, x)
    {
      assert SameWords(m0, m, bm, x);
      WriteMissesOthers(bm, lo, hi, y, a, x);
    }
    forall x | x in bm && bm[x].kind != Free && x != p
      ensures SameBody(m0, m', bm, x)
    {
      assert SameBody(m0, m, bm, x);
      if x + 8 < a <= x + bm[x].size {
        OwnerIsUnique(bm, lo, hi, x, y, a);
      }
    }
    forall c | 0 <= c < 10
      ensures Ring(m', Head(c), main[c])
    {
      assert Ring(m, Head(c), main[c]);
      ChainMapped(m, Head(c), main[c], Head(c));
      forall x | x in main[c]
        ensures SameLinks(m, m', x)
      {
        assert OnMain(bm, c, x);
        if x == y {
          OwnedInHeap(bm, lo, hi, x);
        } else {
          WriteMissesOthers(bm, lo, hi, y, a, x);
        }
      }
      RingFrame(m, m', bm, lo, hi, main, c);
    }
  }

  lemma WriteMissesOthers(bm: Blocks, lo: int, hi: int, y: int, a: int, x: int)
    requires Tiled(bm, lo, hi) && Owns(bm, y, a) && x in bm && x != y
    ensures a != x + 8 && a != x + 16 && a != x + 24 && a != x + bm[x].size
  {
    OwnedInHeap(bm, lo, hi, x);
    if Owns(bm, x, a) {
      OwnerIsUnique(bm, lo, hi, x, y, a);
    }
  }

  // ----- unlinking halfway through -----

  /** A free block or a sentinel: the rows of its links. */
  predicate IsNode(bm: Blocks, y: int) {
    (y in bm && bm[y].kind == Free) || (64 <= y <= 352 && y % 32 == 0)
  }

  /** Link rows are nobody's header or footer and lie in no allocated block. */
  lemma NodeRows(bm: Blocks, lo: int, hi: int, y: int, z: int)
    requires Tiled(bm, lo, hi) && lo >= LOWEST && IsNode(bm, y) && z in bm
    ensures y % 16 == 0 && 64 <= y && y + 24 <= hi && y + 16 != lo && y + 24 != lo
    ensures y + 16 != z + 8 && y + 24 != z + 8 && y + 16 != z + bm[z].size && y + 24 != z + bm[z].size
    ensures bm[z].kind != Free ==> !(z < y + 16 <= z + bm[z].size) && !(z < y + 24 <= z + bm[z].size)
  {
    OwnedInHeap(bm, lo, hi, z);
    if y in bm {
      OwnedInHeap(bm, lo, hi, y);
      if y != z {
        WriteMissesOthers(bm, lo, hi, y, y + 16, z);
        WriteMissesOthers(bm, lo, hi, y, y + 24, z);
        if Owns(bm, z, y + 16) {
          OwnerIsUnique(bm, lo, hi, z, y, y + 16);
        }
        if Owns(bm, z, y + 24) {
          OwnerIsUnique(bm, lo, hi, z, y, y + 24);
        }
      }
    }
  }

  /** m' differs from m in link rows of nodes only. */
  ghost predicate LinksOnly(m: Mem, m': Mem, bm: Blocks) {
    && (forall a {:trigger a in m'} :: a in m ==> a in m')
    && (forall a {:trigger m'[a]} :: a in m && m'[a] != m[a] ==>
          (IsNode(bm, a - 16) || IsNode(bm, a - 24)))
  }

  lemma LinksOnlyKeeps(m: Mem, m': Mem, bm: Blocks, lo: int, hi: int, z: int)
    requires Tiled(bm, lo, hi) && lo >= LOWEST && Mapped(m, hi) && LinksOnly(m, m', bm) && z in bm
    ensures SameWords(m, m', bm, z) && lo in m && lo in m' && m'[lo] == m[lo]
    ensures bm[z].kind != Free ==> SameBody(m, m', bm, z)
  {
    OwnedInHeap(bm, lo, hi, z);
    forall a | a == lo || a == z + 8 || a == z + bm[z].size || (bm[z].kind != Free && z + 8 < a <= z + bm[z].size)
      ensures a in m && a in m' && m'[a] == m[a]
    {
      if m'[a] != m[a] {
        if IsNode(bm, a - 16) {
          NodeRows(bm, lo, hi, a - 16, z);
        } else {
          NodeRows(bm, lo, hi, a - 24, z);
        }
      }
    }
  }

  lemma ListNodes(bm: Blocks, lo: int, hi: int, main: Lists, c: int)
    requires Tiled(bm, lo, hi) && lo >= LOWEST && NodesOK(bm, main) && 0 <= c < 10
    ensures forall y :: y in main[c] ==> IsNode(bm, y)
    ensures IsNode(bm, Head(c)) && Aligned(main[c]) && Head(c) !in main[c]
  {
    forall y | y in main[c]
      ensures y % 16 == 0 && y >= lo && IsNode(bm, y)
    {
      assert OnMain(bm, c, y);
      OwnedInHeap(bm, lo, hi, y);
    }
  }

  /** The neighbours of a listed block. */
  lemma RingNeighbours(m: Mem, bm: Blocks, lo: int, hi: int, main: Lists, c: int, x: int)
    requires Tiled(bm, lo, hi) && lo >= LOWEST && RingsOK(m, main) && NodesOK(bm, main) && 0 <= c < 10 && x in main[c]
    ensures x + 16 in m && x + 24 in m && IsNode(bm, x)
    ensures m[x + 24] == Head(c) || (m[x + 24] in main[c] && m[x + 24] != x)
    ensures m[x + 16] == Head(c) || (m[x + 16] in main[c] && m[x + 16] != x)
    ensures IsNode(bm, m[x + 24]) && IsNode(bm, m[x + 16])
    ensures Head(c) !in main[c] && Aligned(main[c])
  {
    assert Ring(m, Head(c), main[c]);
    ListNodes(bm, lo, hi, main, c);
    ChainNeighbours(m, Head(c), main[c], Head(c), x);
  }

  lemma UnlinkSpares(m: Mem, x: int, w: int)
    requires x + 16 in m && x + 24 in m && SameLinks(m, m, w)
    requires x % 16 == 0 && w % 16 == 0 && m[x + 16] % 16 == 0 && m[x + 24] % 16 == 0
    requires w != x && w != m[x + 16] && w != m[x + 24]
    ensures SameLinks(m, Unlink(m, x), w)
  {
  }

  /** A node of one list, or its sentinel, is no node of another, nor its sentinel. */
  lemma ListsApart(bm: Blocks, lo: int, hi: int, main: Lists, c: int, d: int, v: int, w: int)
    requires Tiled(bm, lo, hi) && lo >= LOWEST && NodesOK(bm, main)
    requires 0 <= c < 10 && 0 <= d < 10 && c != d
    requires v in main[c] || v == Head(c)
    requires w in main[d] || w == Head(d)
    ensures v != w && v % 16 == 0 && w % 16 == 0
  {
    if v in main[c] {
      assert OnMain(bm, c, v);
      OwnedInHeap(bm, lo, hi, v);
    }
    if w in main[d] {
      assert OnMain(bm, d, w);
      OwnedInHeap(bm, lo, hi, w);
    }
  }

  /** Unlinking x from list c leaves the other rings alone. */
  lemma UnlinkOtherRing(m: Mem, bm: Blocks, lo: int, hi: int, main: Lists, c: int, x: int, d: int)
    requires Tiled(bm, lo, hi) && lo >= LOWEST && RingsOK(m, main) && NodesOK(bm, main)
    requires 0 <= c < 10 && 0 <= d < 10 && c != d && x in main[c] && x + 16 in m && x + 24 in m
    ensures Ring(Unlink(m, x), Head(d), main[d])
  {
    hide Unlink;
    RingNeighbours(m, bm, lo, hi, main, c, x);
    assert Ring(m, Head(d), main[d]);
    ChainMapped(m, Head(d), main[d], Head(d));
    forall w | w in main[d] + [Head(d)]
      ensures SameLinks(m, Unlink(m, x), w)
    {
      ListsApart(bm, lo, hi, main, c, d, x, w);
      ListsApart(bm, lo, hi, main, c, d, m[x + 16], w);
      ListsApart(bm, lo, hi, main, c, d, m[x + 24], w);
      UnlinkSpares(m, x, w);
    }
    assert Head(d) in main[d] + [Head(d)];
    assert forall w :: w in main[d] ==> w in main[d] + [Head(d)];
    RingFrame(m, Unlink(m, x), bm, lo, hi, main, d);
  }

  lemma UnlinkLinksOnly(m: Mem, bm: Blocks, lo: int, hi: int, main: Lists, c: int, x: int)
    requires Tiled(bm, lo, hi) && lo >= LOWEST && RingsOK(m, main) && NodesOK(bm, main) && 0 <= c < 10 && x in main[c]
    ensures x + 16 in m && x + 24 in m && LinksOnly(m, Unlink(m, x), bm)
  {
    RingNeighbours(m, bm, lo, hi, main, c, x);
  }

  lemma MidUnlink(m0: Mem, m: Mem, bm: Blocks, lo: int, hi: int, T: set<int>, p: int, main: Lists, x: int)
    requires Tiled(bm, lo, hi) && Mid(m0, m, bm, lo, hi, T, p, main)
    requires x in bm && bm[x].kind == Free && x in main[FreeListIndex(bm[x].size)]
    ensures x + 16 in m && x + 24 in m
    ensures Mid(m0, Unlink(m, x), bm, lo, hi, T, p, Detach(main, FreeListIndex(bm[x].size), x))
  {
    var c := FreeListIndex(bm[x].size);
    var main' := Detach(main, c, x);
    RingNeighbours(m, bm, lo, hi, main, c, x);
    UnlinkLinksOnly(m, bm, lo, hi, main, c, x);
    var m' := Unlink(m, x);
    hide Unlink;
    MidLinks(m0, m, m', bm, lo, hi, T, p, main);
    forall d | 0 <= d < 10
      ensures Ring(m', Head(d), main'[d])
    {
      assert Ring(m, Head(c), main[c]);
      if d == c {
        UnlinkChain(m, Head(c), main[c], Head(c), x);
      } else {
        UnlinkOtherRing(m, bm, lo, hi, main, c, x, d);
      }
    }
    WithoutKeepsRest(main[c], x);
  }

  /** Changing links keeps everything that Mid says about words and bodies. */
  lemma MidLinks(m0: Mem, m: Mem, m': Mem, bm: Blocks, lo: int, hi: int, T: set<int>, p: int, main: Lists)
    requires Tiled(bm, lo, hi) && Mid(m0, m, bm, lo, hi, T, p, main) && LinksOnly(m, m', bm)
    ensures Mapped(m', hi) && lo in m' && m'[lo] == m0[lo]
    ensures forall x :: x in bm && x !in T ==> SameWords(m0, m', bm, x)
    ensures forall x :: x in bm && bm[x].kind != Free && x != p ==> SameBody(m0, m', bm, x)
  {
    LinksOnlyKeeps(m, m', bm, lo, hi, lo);
    forall x | x in bm && x !in T
      ensures SameWords(m0, m', bm, x)
    {
      assert SameWords(m0, m, bm, x);
      LinksOnlyKeeps(m, m', bm, lo, hi, x);
    }
    forall x | x in bm && bm[x].kind != Free && x != p
      ensures SameBody(m0, m', bm, x)
    {
      assert SameBody(m0, m, bm, x);
      LinksOnlyKeeps(m, m', bm, lo, hi, x);
    }
  }

  // ----- settling: the last insertion restores the representation -----

  lemma StacksSettle(m0: Mem, m: Mem, bm: Blocks, lo: int, hi: int, p: int,
                     first: seq<int>, quick: Lists, counter: seq<int>)
    requires Tiled(bm, lo, hi) && QuickOK(bm, quick, counter) && StacksOK(m0, first, quick)
    requires forall x {:trigger SameBody(m0, m, bm, x)} ::
               x in bm && bm[x].kind != Free && x != p ==> SameBody(m0, m, bm, x)
    requires p in bm && bm[p].kind != Quick
    ensures StacksOK(m, first, quick)
  {
    forall k | 0 <= k < 10
      ensures Stack(m, first[k], quick[k])
    {
      assert Stack(m0, first[k], quick[k]);
      forall y | y in quick[k]
        ensures SameNext(m0, m, y)
      {
        assert OnQuick(bm, k, y);
        OwnedInHeap(bm, lo, hi, y);
        assert SameBody(m0, m, bm, y);
      }
      StackFrame(m0, m, first[k], quick[k]);
    }
  }

  lemma LinkFrontLinksOnly(m: Mem, bm: Blocks, lo: int, hi: int, main: Lists, c: int, x: int)
    requires Tiled(bm, lo, hi) && lo >= LOWEST && RingsOK(m, main) && NodesOK(bm, main)
    requires 0 <= c < 10 && x in bm && bm[x].kind == Free
    ensures Head(c) + 16 in m && LinksOnly(m, LinkFront(m, Head(c), x), bm)
    ensures m[Head(c) + 16] == (if main[c] == [] then Head(c) else main[c][0])
    ensures IsNode(bm, m[Head(c) + 16]) && Aligned(main[c]) && Head(c) !in main[c]
  {
    assert Ring(m, Head(c), main[c]);
    ListNodes(bm, lo, hi, main, c);
    if main[c] != [] {
      assert main[c][0] in main[c];
    }
  }

  lemma LinkFrontSpares(m: Mem, head: int, x: int, w: int)
    requires head + 16 in m && SameLinks(m, m, w)
    requires head % 16 == 0 && x % 16 == 0 && w % 16 == 0 && m[head + 16] % 16 == 0
    requires w != x && w != head && w != m[head + 16]
    ensures SameLinks(m, LinkFront(m, head, x), w)
  {
  }

  lemma LinkOtherRing(m: Mem, bm: Blocks, lo: int, hi: int, main: Lists, c: int, x: int, d: int)
    requires Tiled(bm, lo, hi) && lo >= LOWEST && RingsOK(m, main) && NodesOK(bm, main)
    requires 0 <= c < 10 && 0 <= d < 10 && c != d && x in bm && bm[x].kind == Free && x !in main[d]
    requires Head(c) + 16 in m
    ensures Ring(LinkFront(m, Head(c), x), Head(d), main[d])
  {
    hide LinkFront;
    LinkFrontLinksOnly(m, bm, lo, hi, main, c, x);
    OwnedInHeap(bm, lo, hi, x);
    assert Ring(m, Head(d), main[d]);
    ChainMapped(m, Head(d), main[d], Head(d));
    forall w | w in main[d] + [Head(d)]
      ensures SameLinks(m, LinkFront(m, Head(c), x), w)
    {
      ListsApart(bm, lo, hi, main, c, d, m[Head(c) + 16], w);
      ListsApart(bm, lo, hi, main, c, d, Head(c), w);
      LinkFrontSpares(m, Head(c), x, w);
    }
    assert Head(d) in main[d] + [Head(d)];
    assert forall w :: w in main[d] ==> w in main[d] + [Head(d)];
    RingFrame(m, LinkFront(m, Head(c), x), bm, lo, hi, main, d);
  }

  /** Everything but the list entry of x is in place; inserting x completes the representation. */
  lemma PushSettle(m: Mem, first: seq<int>, h: Heap, main: Lists, x: int)
    requires Tiled(h.bm, h.lo, h.hi) && QuickOK(h.bm, h.quick, h.counter) && h.lo >= LOWEST
    requires Mapped(m, h.hi) && h.lo in m && m[h.lo] == 0
    requires HeadersOK(m, h.bm) && RingsOK(m, main) && StacksOK(m, first, h.quick)
    requires MainOff(h.bm, main, {x}) && x in h.bm && h.bm[x].kind == Free
    requires h.main == Push(main, FreeListIndex(h.bm[x].size), x)
    ensures Head(FreeListIndex(h.bm[x].size)) + 16 in m
    ensures Repr(LinkFront(m, Head(FreeListIndex(h.bm[x].size)), x), first, h)
    ensures forall z :: z in h.bm && h.bm[z].kind != Free ==>
              SameBody(m, LinkFront(m, Head(FreeListIndex(h.bm[x].size)), x), h.bm, z)
  {
    var bm, lo, hi := h.bm, h.lo, h.hi;
    var c := FreeListIndex(bm[x].size);
    forall d, y | 0 <= d < 10 && (y in main[d] || y == x)
      ensures y != x ==> OnMain(bm, d, y)
      ensures x !in main[d]
    {
      assert y in main[d] <==> OnMain(bm, d, y) && y !in {x};
      assert x in main[d] <==> OnMain(bm, d, x) && x !in {x};
    }
    assert NodesOK(bm, main);
    LinkFrontLinksOnly(m, bm, lo, hi, main, c, x);
    OwnedInHeap(bm, lo, hi, x);
    var m' := LinkFront(m, Head(c), x);
    forall d | 0 <= d < 10
      ensures Ring(m', Head(d), h.main[d])
    {
      assert Ring(m, Head(c), main[c]);
      if d == c {
        LinkFrontRing(m, Head(c), main[c], x);
      } else {
        LinkOtherRing(m, bm, lo, hi, main, c, x, d);
      }
    }
    hide LinkFront;
    LinksOnlyKeeps(m, m', bm, lo, hi, lo);
    forall z | z in bm
      ensures HeaderOK(m', bm, z)
      ensures bm[z].kind != Free ==> SameBody(m, m', bm, z)
    {
      assert HeaderOK(m, bm, z);
      LinksOnlyKeeps(m, m', bm, lo, hi, z);
    }
    StacksSettle(m, m', bm, lo, hi, x, first, h.quick, h.counter);
  }

  // ----- what each operation must have written before it settles -----

  /** Bodies of live blocks other than p are the same in m as in m0. */
  ghost predicate LivesKept(m0: Mem, m: Mem, bm: Blocks, p: int) {
    forall x {:trigger SameBody(m0, m, bm, x)} :: x in bm && bm[x].kind == Live && x != p ==> SameBody(m0, m, bm, x)
  }

  lemma BodyAcross(m0: Mem, m: Mem, m': Mem, bm: Blocks, bm': Blocks, x: int)
    requires x in bm && x in bm' && bm[x].size == bm'[x].size
    requires SameBody(m0, m, bm, x) && SameBody(m, m', bm', x)
    ensures SameBody(m0, m', bm, x)
  {
  }

  lemma SettledLives(m0: Mem, m: Mem, m': Mem, bm: Blocks, bm': Blocks, p: int)
    requires forall x :: x in bm && bm[x].kind == Live && x != p ==> SameBody(m0, m, bm, x)
    requires forall x :: x in bm' && bm'[x].kind != Free ==> SameBody(m, m', bm', x)
    requires forall x :: x in bm && bm[x].kind == Live && x != p ==>
               x in bm' && bm'[x].kind != Free && bm'[x].size == bm[x].size
    ensures LivesKept(m0, m', bm, p)
  {
    forall x | x in bm && bm[x].kind == Live && x != p
      ensures SameBody(m0, m', bm, x)
    {
      BodyAcross(m0, m, m', bm, bm', x);
    }
  }

  /** Words outside T are those of m0, so the blocks there are still described by their headers. */
  lemma WordsSettle(m0: Mem, m: Mem, bm: Blocks, bm': Blocks, T: set<int>)
    requires HeadersOK(m0, bm)
    requires forall x {:trigger SameWords(m0, m, bm, x)} :: x in bm && x !in T ==> SameWords(m0, m, bm, x)
    requires forall x :: x in bm' && x !in T ==> x in bm && bm'[x] == bm[x]
    requires forall x :: x in bm' && x in T ==> HeaderOK(m, bm', x)
    ensures HeadersOK(m, bm')
  {
    forall x | x in bm'
      ensures HeaderOK(m, bm', x)
    {
      if x !in T {
        assert HeaderOK(m0, bm, x) && SameWords(m0, m, bm, x);
      }
    }
  }

  /** The blocks whose words a release may rewrite: the lower end, p, and the one after p. */
  ghost function FreeSet(h: Heap, p: int): set<int>
    requires Tiled(h.bm, h.lo, h.hi) && p in h.bm
  {
    {LowEnd(h.bm, h.lo, h.hi, p), p, p + h.bm[p].size}
  }

  /** The words that the coalesced block and an unmerged successor must carry. */
  ghost predicate FreeWords(m: Mem, h: Heap, p: int)
    requires WellFormed(h) && p in h.bm && h.bm[p].kind == Live
  {
    var a, z := LowEnd(h.bm, h.lo, h.hi, p), HighEnd(h.bm, p);
    var w := Header(z - a, false, h.bm[a].prev);
    && a + 8 in m && m[a + 8] == w && z in m && m[z] == w
    && (z == p + h.bm[p].size && z in h.bm ==> z + 8 in m && m[z + 8] == Word(h.bm[z].(prev := false)))
  }

  lemma FreeHeaders(m0: Mem, m: Mem, h: Heap, p: int)
    requires WellFormed(h) && HeadersOK(m0, h.bm) && p in h.bm && h.bm[p].kind == Live
    requires forall x {:trigger SameWords(m0, m, h.bm, x)} ::
               x in h.bm && x !in FreeSet(h, p) ==> SameWords(m0, m, h.bm, x)
    requires FreeWords(m, h, p)
    ensures HeadersOK(m, FreeMain(h, p).bm)
  {
    var a, n, z := LowEnd(h.bm, h.lo, h.hi, p), p + h.bm[p].size, HighEnd(h.bm, p);
    var bm' := FreeMain(h, p).bm;
    FreeRange(h.bm, h.lo, h.hi, p);
    NothingAtEnd(h.bm, h.lo, h.hi);
    if z != n {
      assert Placed(h.bm, h.lo, h.hi, n);
    }
    forall x | x in bm' && x in FreeSet(h, p)
      ensures HeaderOK(m, bm', x)
    {
      assert x == a || x == z;
    }
    WordsSettle(m0, m, h.bm, bm', FreeSet(h, p));
  }

  /** Once headers are right for h', inserting its last free block x makes memory represent it. */
  lemma Settle(m0: Mem, m: Mem, first: seq<int>, h: Heap, h': Heap, T: set<int>, p: int, main: Lists, x: int)
    requires WellFormed(h) && Repr(m0, first, h) && p in h.bm && h.bm[p].kind != Quick
    requires Mid(m0, m, h.bm, h.lo, h.hi, T, p, main)
    requires WellFormed(h') && h'.lo == h.lo && h'.hi == h.hi && h'.quick == h.quick
    requires HeadersOK(m, h'.bm) && MainOff(h'.bm, main, {x}) && x in h'.bm && h'.bm[x].kind == Free
    requires h'.main == Push(main, FreeListIndex(h'.bm[x].size), x)
    requires forall y :: y in h.bm && h.bm[y].kind == Live && y != p ==>
               y in h'.bm && h'.bm[y].kind != Free && h'.bm[y].size == h.bm[y].size
    ensures var c := FreeListIndex(h'.bm[x].size);
            && Head(c) + 16 in m
            && Repr(LinkFront(m, Head(c), x), first, h')
            && LivesKept(m0, LinkFront(m, Head(c), x), h.bm, p)
  {
    hide LinkFront;
    StacksSettle(m0, m, h.bm, h.lo, h.hi, p, first, h.quick, h.counter);
    PushSettle(m, first, h', main, x);
    SettledLives(m0, m, LinkFront(m, Head(FreeListIndex(h'.bm[x].size)), x), h.bm, h'.bm, p);
  }

  lemma FreeSettles(m0: Mem, m: Mem, first: seq<int>, h: Heap, p: int)
    requires WellFormed(h) && Repr(m0, first, h) && p in h.bm && h.bm[p].kind == Live
    requires var a, z := LowEnd(h.bm, h.lo, h.hi, p), HighEnd(h.bm, p);
             Mid(m0, m, h.bm, h.lo, h.hi, FreeSet(h, p), p, Unlisted(h.bm, h.main, a, p, z))
    requires FreeWords(m, h, p)
    ensures var a, z := LowEnd(h.bm, h.lo, h.hi, p), HighEnd(h.bm, p);
            && Head(FreeListIndex(z - a)) + 16 in m
            && Repr(LinkFront(m, Head(FreeListIndex(z - a)), a), first, FreeMain(h, p))
            && LivesKept(m0, LinkFront(m, Head(FreeListIndex(z - a)), a), h.bm, p)
  {
    hide Repr, Mid, HeadersOK, LivesKept, LinkFront, FreeWords, Unlisted, LowEnd, HighEnd;
    var a, z := LowEnd(h.bm, h.lo, h.hi, p), HighEnd(h.bm, p);
    var main := Unlisted(h.bm, h.main, a, p, z);
    FreeKeepsHeap(h, p);
    FreeSparesOthers(h, p);
    FreeOff(h, p);
    assert HeadersOK(m0, h.bm) by { ReprHeaders(m0, first, h); }
    MidWords(m0, m, h, FreeSet(h, p), p, main);
    FreeHeaders(m0, m, h, p);
    Settle(m0, m, first, h, FreeMain(h, p), FreeSet(h, p), p, main, a);
  }

  lemma ReprHeaders(m: Mem, first: seq<int>, h: Heap)
    requires Repr(m, first, h)
    ensures HeadersOK(m, h.bm)
  {
  }

  lemma MidWords(m0: Mem, m: Mem, h: Heap, T: set<int>, p: int, main: Lists)
    requires Mid(m0, m, h.bm, h.lo, h.hi, T, p, main)
    ensures forall x {:trigger SameWords(m0, m, h.bm, x)} :: x in h.bm && x !in T ==> SameWords(m0, m, h.bm, x)
  {
  }

  lemma FreeOff(h: Heap, p: int)
    requires WellFormed(h) && p in h.bm && h.bm[p].kind == Live
    ensures var a, z := LowEnd(h.bm, h.lo, h.hi, p), HighEnd(h.bm, p);
            var h' := FreeMain(h, p);
            && MainOff(h'.bm, Unlisted(h.bm, h.main, a, p, z), {a})
            && a in h'.bm && h'.bm[a].kind == Free && h'.bm[a].size == z - a
            && h'.main == Push(Unlisted(h.bm, h.main, a, p, z), FreeListIndex(z - a), a)
  {
    UnlistedOff(h.bm, h.lo, h.hi, h.main, p);
  }

  lemma AllocateWholeSettles(m0: Mem, m: Mem, first: seq<int>, h: Heap, p: int, need: int)
    requires WellFormed(h) && Repr(m0, first, h) && p in h.bm && h.bm[p].kind == Free
    requires GoodSize(need) && need <= h.bm[p].size && h.bm[p].size - need < MIN_BLOCK
    requires Mid(m0, m, h.bm, h.lo, h.hi, {p, p + h.bm[p].size}, p, Detach(h.main, FreeListIndex(h.bm[p].size), p))
    requires var bm' := TakeWhole(h.bm, p);
             && p + 8 in m && m[p + 8] == Word(bm'[p])
             && (p + h.bm[p].size in bm' ==>
                   p + h.bm[p].size + 8 in m && m[p + h.bm[p].size + 8] == Word(bm'[p + h.bm[p].size]))
    ensures Repr(m, first, Allocate(h, p, need)) && LivesKept(m0, m, h.bm, p)
  {
    var h' := Allocate(h, p, need);
    var n := p + h.bm[p].size;
    AllocateKeepsHeap(h, p, need);
    if n in h.bm {
      SuccessorNotFree(h.bm, h.lo, h.hi, p);
    }
    WordsSettle(m0, m, h.bm, h'.bm, {p, n});
    StacksSettle(m0, m, h.bm, h.lo, h.hi, p, first, h.quick, h.counter);
  }

  lemma AllocateSplitSettles(m0: Mem, m: Mem, first: seq<int>, h: Heap, p: int, need: int)
    requires WellFormed(h) && Repr(m0, first, h) && p in h.bm && h.bm[p].kind == Free
    requires GoodSize(need) && h.bm[p].size - need >= MIN_BLOCK
    requires Mid(m0, m, h.bm, h.lo, h.hi, {p}, p, Detach(h.main, FreeListIndex(h.bm[p].size), p))
    requires var bm' := TakeFirst(h.bm, p, need);
             && p + 8 in m && m[p + 8] == Word(bm'[p])
             && p + need + 8 in m && m[p + need + 8] == Word(bm'[p + need])
             && p + h.bm[p].size in m && m[p + h.bm[p].size] == Word(bm'[p + need])
    ensures var c := FreeListIndex(h.bm[p].size - need);
            && Head(c) + 16 in m
            && Repr(LinkFront(m, Head(c), p + need), first, Allocate(h, p, need))
            && LivesKept(m0, LinkFront(m, Head(c), p + need), h.bm, p)
  {
    var h', q := Allocate(h, p, need), p + need;
    var main1 := Detach(h.main, FreeListIndex(h.bm[p].size), p);
    AllocateKeepsHeap(h, p, need);
    TakeFirstTiles(h.bm, h.lo, h.hi, p, need);
    WordsSettle(m0, m, h.bm, h'.bm, {p, q});
    DetachTakesOff(h.bm, h.main, {}, p);
    assert {} + {p} == {p};
    OffIsUnseen(h.bm, h'.bm, main1, {p}, {q});
    hide LinkFront;
    Settle(m0, m, first, h, h', {p}, p, main1, q);
  }

  // ----- quick lists -----

  /** Pushing p on quick list k: its next link is the old first block. */
  lemma ToQuickSettles(m: Mem, first: seq<int>, h: Heap, p: int, count: int)
    requires WellFormed(h) && Repr(m, first, h) && p in h.bm && h.bm[p].kind == Live
    requires 0 <= QuickIndex(h.bm[p].size) && WellFormed(ToQuick(h, p, count))
    ensures var k := QuickIndex(h.bm[p].size);
            var m' := m[p + 16 := first[k]];
            Repr(m', first[k := p], ToQuick(h, p, count)) && LivesKept(m, m', h.bm, p)
  {
    var k, h' := QuickIndex(h.bm[p].size), ToQuick(h, p, count);
    var m' := m[p + 16 := first[k]];
    OwnedInHeap(h.bm, h.lo, h.hi, p);
    MidBegins(m, first, h, {p}, p);
    MidWrite(m, m, h.bm, h.lo, h.hi, {p}, p, h.main, p, p + 16, first[k]);
    StacksSettle(m, m', h.bm, h.lo, h.hi, p, first, h.quick, h.counter);
    assert HeaderOK(m, h.bm, p);
    WordsSettle(m, m', h.bm, h'.bm, {p});
    assert Stack(m', first[k], h.quick[k]);
    assert ([p] + h.quick[k])[1..] == h.quick[k];
    forall j | 0 <= j < 10
      ensures Stack(m', first[k := p][j], h'.quick[j])
    {
      assert Stack(m', first[j], h.quick[j]);
    }
  }

  /** Popping quick list k: the list starts at the next link, and the block's link is cleared. */
  lemma FromQuickSettles(m: Mem, first: seq<int>, h: Heap, k: int, count: int)
    requires WellFormed(h) && Repr(m, first, h) && 0 <= k < 10 && h.quick[k] != []
    requires h.quick[k][0] in h.bm && WellFormed(FromQuick(h, k, count))
    ensures var p := h.quick[k][0];
            && first[k] == p && p + 16 in m
            && var m' := m[p + 16 := NULL];
               Repr(m', first[k := m[p + 16]], FromQuick(h, k, count)) && LivesKept(m, m', h.bm, p)
  {
    HeadOfQuick(h, k);
    var p, h' := h.quick[k][0], FromQuick(h, k, count);
    assert Stack(m, first[k], h.quick[k]);
    OwnedInHeap(h.bm, h.lo, h.hi, p);
    var m' := m[p + 16 := NULL];
    var first' := first[k := m[p + 16]];
    MidBegins(m, first, h, {p}, p);
    MidWrite(m, m, h.bm, h.lo, h.hi, {p}, p, h.main, p, p + 16, NULL);
    assert HeaderOK(m, h.bm, p);
    WordsSettle(m, m', h.bm, h'.bm, {p});
    forall j | 0 <= j < 10
      ensures Stack(m, first'[j], h'.quick[j])
    {
      assert Stack(m, first[j], h.quick[j]);
    }
    forall x | x in h'.bm && h'.bm[x].kind != Free && x != p
      ensures SameBody(m, m', h'.bm, x)
    {
      assert SameBody(m, m', h.bm, x);
    }
    StacksSettle(m, m', h'.bm, h.lo, h.hi, p, first', h'.quick, h'.counter);
  }

  // ----- heap growth -----

  /** More mapped rows at the end change nothing for the blocks below. */
  lemma GrownSettles(m: Mem, m': Mem, first: seq<int>, h: Heap)
    requires WellFormed(h) && Repr(m, first, h)
    requires Mapped(m', h.hi + PAGE)
    requires forall a {:trigger a in m'} :: a in m && a != h.hi + 8 ==> a in m' && m'[a] == m[a]
    requires h.hi + 8 in m' && m'[h.hi + 8] == Word(WithPage(h).bm[h.hi])
    ensures WellFormed(WithPage(h)) && Repr(m', first, WithPage(h)) && LivesKept(m, m', h.bm, NULL)
  {
    var bm, lo, hi := h.bm, h.lo, h.hi;
    WithPageKeepsHeap(h);
    MidBegins(m, first, h, {}, hi);
    NothingAtEnd(bm, lo, hi);
    forall x | x in bm
      ensures SameWords(m, m', bm, x)
      ensures bm[x].kind != Free ==> SameBody(m, m', bm, x)
    {
      OwnedInHeap(bm, lo, hi, x);
      assert SameWords(m, m, bm, x);
      assert bm[x].kind != Free ==> SameBody(m, m, bm, x);
    }
    forall c | 0 <= c < 10
      ensures Ring(m', Head(c), h.main[c])
    {
      assert Ring(m, Head(c), h.main[c]);
      ChainMapped(m, Head(c), h.main[c], Head(c));
      forall x | x in h.main[c]
        ensures SameLinks(m, m', x)
      {
        assert OnMain(bm, c, x);
        OwnedInHeap(bm, lo, hi, x);
        assert SameLinks(m, m, x);
      }
      OwnedInHeap(bm, lo, hi, lo);
      RingFrame(m, m', bm, lo, hi, h.main, c);
    }
    WordsSettle(m, m', bm, WithPage(h).bm, {hi});
    forall x | x in WithPage(h).bm && WithPage(h).bm[x].kind != Free && x != hi
      ensures SameBody(m, m', WithPage(h).bm, x)
    {
      assert SameBody(m, m', bm, x);
    }
    StacksSettle(m, m', WithPage(h).bm, lo, hi + PAGE, hi, first, h.quick, h.counter);
  }

  // ----- the first writes of a release -----

  /** What add_footer and clear_prev_alloc_in_next_block write, as functions of memory. */
  function WithFooter(m: Mem, x: int): Mem
    requires x + 8 in m
  {
    m[x + SizeField(m[x + 8]) := m[x + 8]]
  }

  function Cleared(word: int): int {
    word - (if PrevBit(word) then 2 else 0)
  }

  function ClearedAfter(m: Mem, x: int, hi: int): Mem
    requires x + 8 in m && (x + SizeField(m[x + 8]) != hi ==> x + SizeField(m[x + 8]) + 8 in m)
  {
    var n := x + SizeField(m[x + 8]);
    if n == hi then m
    else
      var m1 := m[n + 8 := Cleared(m[n + 8])];
      if AllocBit(m1[n + 8]) then m1 else WithFooter(m1, n)
  }

  lemma ClearedHeader(size: int, alloc: bool, prev: bool)
    requires size % 16 == 0
    ensures Cleared(Header(size, alloc, prev)) == Header(size, alloc, false)
  {
    HeaderFields(size, alloc, prev);
  }

  /** The words found by coalesce: p marked free with its footer, p's successor told so. */
  ghost predicate ReleaseWords(m: Mem, bm: Blocks, p: int)
    requires p in bm
  {
    var w, n := Header(bm[p].size, false, bm[p].prev), p + bm[p].size;
    && p + 8 in m && m[p + 8] == w && n in m && m[n] == w
    && (n in bm ==>
          && n + 8 in m && m[n + 8] == Word(bm[n].(prev := false))
          && (bm[n].kind == Free ==> n + bm[n].size in m && m[n + bm[n].size] == m[n + 8]))
  }

  ghost predicate SuccessorIntact(m: Mem, bm: Blocks, n: int) {
    n in bm ==> HeaderOK(m, bm, n)
  }

  /** Marking p free and writing its footer. */
  lemma MarkFree(m0: Mem, first: seq<int>, h: Heap, p: int, v: int)
    requires WellFormed(h) && Repr(m0, first, h) && p in h.bm && h.bm[p].kind == Live
    requires v == Header(h.bm[p].size, false, h.bm[p].prev)
    ensures var m := m0[p + 8 := v];
            var n := p + h.bm[p].size;
            && WithFooter(m, p) == m[n := v] && n in m
            && Mid(m0, m[n := v], h.bm, h.lo, h.hi, {p, p + h.bm[p].size}, p, h.main)
            && SuccessorIntact(m[n := v], h.bm, n)
  {
    var bm, n, T := h.bm, p + h.bm[p].size, {p, p + h.bm[p].size};
    OwnedInHeap(bm, h.lo, h.hi, p);
    HeaderFields(bm[p].size, false, bm[p].prev);
    hide AllocBit, PrevBit, SizeField;
    MidBegins(m0, first, h, T, p);
    MidWrite(m0, m0, bm, h.lo, h.hi, T, p, h.main, p, p + 8, v);
    MidWrite(m0, m0[p + 8 := v], bm, h.lo, h.hi, T, p, h.main, p, n, v);
    if n in bm {
      assert HeaderOK(m0, bm, n);
      OwnedInHeap(bm, h.lo, h.hi, n);
    }
  }

  /** Clearing the successor's prev-allocated bit, in its footer too when it is free. */
  lemma ClearSuccessor(m0: Mem, m: Mem, h: Heap, p: int)
    requires WellFormed(h) && p in h.bm && h.bm[p].kind == Live
    requires Mid(m0, m, h.bm, h.lo, h.hi, {p, p + h.bm[p].size}, p, h.main)
    requires SuccessorIntact(m, h.bm, p + h.bm[p].size)
    requires var w := Header(h.bm[p].size, false, h.bm[p].prev);
             p + 8 in m && m[p + 8] == w && p + h.bm[p].size in m && m[p + h.bm[p].size] == w
    ensures SizeField(m[p + 8]) == h.bm[p].size
    ensures p + h.bm[p].size != h.hi ==> p + h.bm[p].size in h.bm && p + h.bm[p].size + 8 in m
    ensures Mid(m0, ClearedAfter(m, p, h.hi), h.bm, h.lo, h.hi, {p, p + h.bm[p].size}, p, h.main)
    ensures ReleaseWords(ClearedAfter(m, p, h.hi), h.bm, p)
  {
    var bm, n, T := h.bm, p + h.bm[p].size, {p, p + h.bm[p].size};
    OwnedInHeap(bm, h.lo, h.hi, p);
    HeaderFields(bm[p].size, false, bm[p].prev);
    assert Placed(bm, h.lo, h.hi, p);
    NothingAtEnd(bm, h.lo, h.hi);
    if n != h.hi {
      hide Mid, AllocBit, PrevBit, SizeField, Cleared, WithFooter, Placed;
      assert HeaderOK(m, bm, n);
      OwnedInHeap(bm, h.lo, h.hi, n);
      var b := bm[n];
      ClearedHeader(b.size, b.kind != Free, b.prev);
      HeaderFields(b.size, b.kind != Free, false);
      var w := Header(b.size, b.kind != Free, false);
      MidWrite(m0, m, bm, h.lo, h.hi, T, p, h.main, n, n + 8, w);
      if b.kind == Free {
        FooterOf(m[n + 8 := w], n, b.size, w);
        MidWrite(m0, m[n + 8 := w], bm, h.lo, h.hi, T, p, h.main, n, n + b.size, w);
      }
    }
  }

  lemma FooterOf(m: Mem, x: int, size: int, w: int)
    requires x + 8 in m && m[x + 8] == w && SizeField(w) == size
    ensures WithFooter(m, x) == m[x + size := w]
  {
  }

  // ----- coalescing -----

  lemma MidWiden(m0: Mem, m: Mem, bm: Blocks, lo: int, hi: int, T: set<int>, U: set<int>, p: int, main: Lists)
    requires Mid(m0, m, bm, lo, hi, T, p, main) && T <= U
    ensures Mid(m0, m, bm, lo, hi, U, p, main)
  {
  }

  /** Unlinking a free neighbour disturbs none of the words that coalesce reads. */
  lemma UnlinkNeighbour(m0: Mem, m: Mem, h: Heap, p: int, main: Lists, x: int)
    requires WellFormed(h) && p in h.bm && h.bm[p].kind == Live
    requires Mid(m0, m, h.bm, h.lo, h.hi, {p, p + h.bm[p].size}, p, main) && ReleaseWords(m, h.bm, p)
    requires x in h.bm && h.bm[x].kind == Free && x in main[FreeListIndex(h.bm[x].size)]
    ensures x + 16 in m && x + 24 in m
    ensures Mid(m0, Unlink(m, x), h.bm, h.lo, h.hi, {p, p + h.bm[p].size}, p,
                Detach(main, FreeListIndex(h.bm[x].size), x))
    ensures ReleaseWords(Unlink(m, x), h.bm, p)
  {
    var bm, n := h.bm, p + h.bm[p].size;
    MidUnlink(m0, m, bm, h.lo, h.hi, {p, n}, p, main, x);
    UnlinkLinksOnly(m, bm, h.lo, h.hi, main, FreeListIndex(bm[x].size), x);
    var m' := Unlink(m, x);
    hide Unlink, Mid;
    MidMapped(m0, m, h, {p, n}, p, main);
    OwnedInHeap(bm, h.lo, h.hi, p);
    LinksOnlyKeeps(m, m', bm, h.lo, h.hi, p);
    if n in bm {
      LinksOnlyKeeps(m, m', bm, h.lo, h.hi, n);
    }
  }

  lemma MidMapped(m0: Mem, m: Mem, h: Heap, T: set<int>, p: int, main: Lists)
    requires Mid(m0, m, h.bm, h.lo, h.hi, T, p, main)
    ensures h.lo >= LOWEST && Mapped(m, h.hi)
  {
  }

  /** The words of the block below p, which no write so far has touched. */
  lemma LowerWords(m0: Mem, m: Mem, first: seq<int>, h: Heap, p: int, main: Lists)
    requires WellFormed(h) && Repr(m0, first, h) && p in h.bm
    requires Mid(m0, m, h.bm, h.lo, h.hi, {p, p + h.bm[p].size}, p, main)
    requires LowEnd(h.bm, h.lo, h.hi, p) != p
    ensures var a := LowEnd(h.bm, h.lo, h.hi, p);
            a + 8 in m && m[a + 8] == Word(h.bm[a]) && p in m && m[p] == Word(h.bm[a])
  {
    var a := LowEnd(h.bm, h.lo, h.hi, p);
    OwnedInHeap(h.bm, h.lo, h.hi, p);
    OwnedInHeap(h.bm, h.lo, h.hi, a);
    assert SameWords(m0, m, h.bm, a) && HeaderOK(m0, h.bm, a);
  }

  /** Writing the coalesced header and footer. */
  lemma WriteMerged(m0: Mem, m: Mem, h: Heap, p: int, main: Lists)
    requires WellFormed(h) && p in h.bm && h.bm[p].kind == Live
    requires Mid(m0, m, h.bm, h.lo, h.hi, {p, p + h.bm[p].size}, p, main) && ReleaseWords(m, h.bm, p)
    ensures var a, z := LowEnd(h.bm, h.lo, h.hi, p), HighEnd(h.bm, p);
            var w := Header(z - a, false, h.bm[a].prev);
            && Mid(m0, m[a + 8 := w][z := w], h.bm, h.lo, h.hi, FreeSet(h, p), p, main)
            && FreeWords(m[a + 8 := w][z := w], h, p)
  {
    var bm, n, T := h.bm, p + h.bm[p].size, FreeSet(h, p);
    var a, z := LowEnd(bm, h.lo, h.hi, p), HighEnd(bm, p);
    var w := Header(z - a, false, bm[a].prev);
    FreeRange(bm, h.lo, h.hi, p);
    MidWiden(m0, m, bm, h.lo, h.hi, {p, n}, T, p, main);
    hide Mid;
    OwnedInHeap(bm, h.lo, h.hi, a);
    OwnedInHeap(bm, h.lo, h.hi, p);
    MidWrite(m0, m, bm, h.lo, h.hi, T, p, main, a, a + 8, w);
    if z == n {
      MidWrite(m0, m[a + 8 := w], bm, h.lo, h.hi, T, p, main, p, z, w);
    } else {
      OwnedInHeap(bm, h.lo, h.hi, n);
      MidWrite(m0, m[a + 8 := w], bm, h.lo, h.hi, T, p, main, n, z, w);
    }
  }
}
