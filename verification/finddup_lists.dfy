/**
  The lists of hw2/src/finddup.c as values: file descriptors, the sort order, content classes, and
  what one sweep of the duplicate scan leaves behind it.
*/
module FindDupLists {
  type Content = seq<bv8>

  /** FL_CRC, FL_DUP and FL_LNK are the three flags; `name` locates the file's name in the list. */
  datatype FileDesc = FileDesc(
    length: int, crc32: int, device: int, inode: int, name: nat, crcSet: bool, dup: bool, lnk: bool)

  /** What the names stand for, and a checksum that depends on nothing but the contents. */
  datatype World = World(content: nat -> Content, checksum: Content -> int)

  predicate Same(w: World, f: FileDesc, g: FileDesc) {
    w.content(f.name) == w.content(g.name)
  }

  predicate SameInode(f: FileDesc, g: FileDesc) {
    f.device == g.device && f.inode == g.inode
  }

  predicate SameKey(f: FileDesc, g: FileDesc) {
    f.length == g.length && f.crc32 == g.crc32
  }

  /** What lstat promises: true lengths, and one content per inode. */
  ghost predicate Consistent(w: World, s: seq<FileDesc>) {
    && (forall f :: f in s ==> f.length == |w.content(f.name)|)
    && forall f, g :: f in s && g in s && SameInode(f, g) ==> Same(w, f, g)
  }

  /** A checksum where there is one, and the files of one length have one or have none. */
  ghost predicate Keyed(w: World, s: seq<FileDesc>) {
    && (forall f :: f in s ==> f.crc32 == if f.crcSet then w.checksum(w.content(f.name)) else 0)
    && forall f, g :: f in s && g in s && f.length == g.length ==> f.crcSet == g.crcSet
  }

  // ----- the order of comp1 -----

  predicate AtMost(f: FileDesc, g: FileDesc) {
    if f.length != g.length then f.length < g.length
    else if f.crc32 != g.crc32 then f.crc32 < g.crc32
    else if f.device != g.device then f.device < g.device
    else f.inode <= g.inode
  }

  ghost predicate Sorted(s: seq<FileDesc>) {
    forall i, j :: 0 <= i < j < |s| ==> AtMost(s[i], s[j])
  }

  predicate KeyAtMost(f: FileDesc, g: FileDesc) {
    if f.length != g.length then f.length < g.length else f.crc32 <= g.crc32
  }

  ghost predicate KeySorted(s: seq<FileDesc>) {
    forall i, j :: 0 <= i < j < |s| ==> KeyAtMost(s[i], s[j])
  }

  const TWO32 := 0x1_0000_0000

  /** The difference of two fields as comp1 returns it: cut to 32 bits, two's complement. */
  function Narrow(d: int): int {
    var r := d % TWO32;
    if r < 0x8000_0000 then r else r - TWO32
  }

  function Comp1(f: FileDesc, g: FileDesc): int {
    if f.length != g.length then Narrow(f.length - g.length)
    else if f.crc32 != g.crc32 then Narrow(f.crc32 - g.crc32)
    else if f.device != g.device then Narrow(f.device - g.device)
    else Narrow(f.inode - g.inode)
  }

  /** The first difference that decides between f and g, or 0. */
  function Deciding(f: FileDesc, g: FileDesc): int {
    if f.length != g.length then f.length - g.length
    else if f.crc32 != g.crc32 then f.crc32 - g.crc32
    else if f.device != g.device then f.device - g.device
    else f.inode - g.inode
  }

  /** Which differences keep their sign in 32 bits. */
  predicate KeepsSign(d: int) {
    if d > 0 then 0 < d % TWO32 < 0x8000_0000 else d == 0 || d % TWO32 >= 0x8000_0000
  }

  /** comp1 orders two files as the intended order does exactly when the deciding difference keeps its sign. */
  lemma Comp1Exact(f: FileDesc, g: FileDesc)
    ensures (Comp1(f, g) < 0 <==> AtMost(f, g) && !AtMost(g, f)) && (Comp1(f, g) > 0 <==> !AtMost(f, g))
       <==> KeepsSign(Deciding(f, g))
  {
  }

  /** Three checksums that comp1 orders in a circle, so that no sorted order of such files exists. */
  lemma Comp1Cycle(f: FileDesc)
    ensures var a, b, c := f.(crc32 := 0), f.(crc32 := 0x6000_0000), f.(crc32 := 0xC000_0000);
            Comp1(a, b) < 0 && Comp1(b, c) < 0 && Comp1(c, a) < 0
  {
  }

  // ----- sorting and checksums -----

  function Insert(x: FileDesc, s: seq<FileDesc>): (r: seq<FileDesc>)
    ensures |r| == |s| + 1
  {
    if s == [] || AtMost(x, s[0]) then [x] + s else [s[0]] + Insert(x, s[1..])
  }

  function Ordered(s: seq<FileDesc>): (r: seq<FileDesc>)
    ensures |r| == |s|
  {
    if s == [] then [] else Insert(s[0], Ordered(s[1..]))
  }

  lemma AtMostIsOrder(f: FileDesc, g: FileDesc, h: FileDesc)
    ensures AtMost(f, g) && AtMost(g, h) ==> AtMost(f, h)
    ensures AtMost(f, g) || AtMost(g, f)
  {
  }

  lemma FrontSorts(x: FileDesc, s: seq<FileDesc>)
    requires Sorted(s) && forall f :: f in s ==> AtMost(x, f)
    ensures Sorted([x] + s)
  {
    var r := [x] + s;
    hide AtMost;
    forall i, j | 0 <= i < j < |r|
      ensures AtMost(r[i], r[j])
    {
      assert r[j] == s[j - 1] && s[j - 1] in s;
      if i > 0 {
        assert r[i] == s[i - 1];
      }
    }
  }

  lemma {:induction false} InsertSorts(x: FileDesc, s: seq<FileDesc>)
    requires Sorted(s)
    ensures Sorted(Insert(x, s)) && multiset(Insert(x, s)) == multiset(s) + multiset{x}
  {
    hide AtMost;
    if s == [] || AtMost(x, s[0]) {
      forall f | f in s
        ensures AtMost(x, f)
      {
        var j :| 0 <= j < |s| && s[j] == f;
        AtMostIsOrder(x, s[0], f);
      }
      FrontSorts(x, s);
    } else {
      var t := Insert(x, s[1..]);
      assert s == [s[0]] + s[1..];
      InsertSorts(x, s[1..]);
      AtMostIsOrder(x, s[0], s[0]);
      SameMembers(t, s[1..] + [x]);
      forall f | f in t
        ensures AtMost(s[0], f)
      {
        assert f in s[1..] + [x];
      }
      FrontSorts(s[0], t);
    }
  }

  lemma {:induction false} OrderedSorts(s: seq<FileDesc>)
    ensures Sorted(Ordered(s)) && multiset(Ordered(s)) == multiset(s)
  {
    if s != [] {
      OrderedSorts(s[1..]);
      InsertSorts(s[0], Ordered(s[1..]));
      assert s == [s[0]] + s[1..];
    }
  }

  /** No checksum and no flag yet. */
  ghost predicate Fresh(s: seq<FileDesc>) {
    forall f :: f in s ==> f.crc32 == 0 && !f.crcSet && !f.dup && !f.lnk
  }

  function WithCrc(w: World, f: FileDesc): FileDesc {
    if f.crcSet then f else f.(crc32 := w.checksum(w.content(f.name)), crcSet := true)
  }

  /** Whether i has a neighbour of its length among the first n files. */
  predicate HasTwin(s: seq<FileDesc>, n: nat, i: nat)
    requires i < |s|
  {
    || (0 < i < n && s[i - 1].length == s[i].length)
    || (i + 1 < n && i + 1 < |s| && s[i].length == s[i + 1].length)
  }

  function CheckedTo(w: World, s: seq<FileDesc>, n: nat): (t: seq<FileDesc>)
    ensures |t| == |s|
  {
    seq(|s|, i requires 0 <= i < |s| => if HasTwin(s, n, i) then WithCrc(w, s[i]) else s[i])
  }

  function Checked(w: World, s: seq<FileDesc>): (t: seq<FileDesc>)
    ensures |t| == |s|
  {
    CheckedTo(w, s, |s|)
  }

  lemma CheckedStep(w: World, s: seq<FileDesc>, n: nat)
    requires 0 < n < |s|
    ensures var t := CheckedTo(w, s, n);
            CheckedTo(w, s, n + 1) == if s[n - 1].length != s[n].length then t
                                      else t[n - 1 := WithCrc(w, t[n - 1])][n := WithCrc(w, t[n])]
  {
    var t, t' := CheckedTo(w, s, n), CheckedTo(w, s, n + 1);
    var u := if s[n - 1].length != s[n].length then t
             else t[n - 1 := WithCrc(w, t[n - 1])][n := WithCrc(w, t[n])];
    forall i | 0 <= i < |s|
      ensures t'[i] == u[i]
    {
      assert HasTwin(s, n + 1, i)
        <==> HasTwin(s, n, i) || ((i == n || i == n - 1) && s[n - 1].length == s[n].length);
    }
  }

  lemma CheckedAt(w: World, s: seq<FileDesc>, i: nat)
    requires Fresh(s) && i < |s|
    ensures var f := Checked(w, s)[i];
            && f.crc32 == (if f.crcSet then w.checksum(w.content(f.name)) else 0)
            && (f.crcSet <==> HasTwin(s, |s|, i))
            && f.length == s[i].length && Ident(f) == Ident(s[i])
  {
    assert s[i] in s;
  }

  lemma CheckedKeyed(w: World, s: seq<FileDesc>)
    requires Sorted(s) && Fresh(s)
    ensures Keyed(w, Checked(w, s)) && Map(Ident, Checked(w, s)) == Map(Ident, s)
    ensures forall i :: 0 <= i < |s| ==> (Checked(w, s)[i].crcSet <==> SharesLength(s, i))
  {
    var t := Checked(w, s);
    forall i | 0 <= i < |s|
      ensures t[i].crcSet <==> SharesLength(s, i)
    {
      CheckedSharing(w, s, i);
    }
    hide Checked, HasTwin, Sorted, Fresh;
    forall i | 0 <= i < |s|
      ensures t[i].crc32 == if t[i].crcSet then w.checksum(w.content(t[i].name)) else 0
      ensures Ident(t[i]) == Ident(s[i])
    {
      CheckedAt(w, s, i);
    }
    forall i, j | 0 <= i < j < |s| && t[i].length == t[j].length
      ensures t[i].crcSet == t[j].crcSet
    {
      CheckedAt(w, s, i);
      CheckedAt(w, s, j);
      TwinsMeet(s, i, j);
    }
  }

  predicate SharesLength(s: seq<FileDesc>, i: nat)
    requires i < |s|
  {
    exists j :: 0 <= j < |s| && j != i && s[j].length == s[i].length
  }

  lemma CheckedSharing(w: World, s: seq<FileDesc>, i: nat)
    requires Sorted(s) && Fresh(s) && i < |s|
    ensures Checked(w, s)[i].crcSet <==> SharesLength(s, i)
  {
    CheckedAt(w, s, i);
    assert s[i] in s;
    if SharesLength(s, i) {
      var j :| 0 <= j < |s| && j != i && s[j].length == s[i].length;
      TwinsMeet(s, if i < j then i else j, if i < j then j else i);
    }
  }

  lemma TwinsMeet(s: seq<FileDesc>, i: nat, j: nat)
    requires Sorted(s) && i < j < |s| && s[i].length == s[j].length
    ensures HasTwin(s, |s|, i) && HasTwin(s, |s|, j)
  {
    assert AtMost(s[i], s[i + 1]) && AtMost(s[j - 1], s[j]);
    assert i + 1 < j ==> AtMost(s[i + 1], s[j]) && AtMost(s[i], s[j - 1]);
  }

  // ----- permutations -----

  function Map<A, B>(f: A -> B, s: seq<A>): (r: seq<B>)
    ensures |r| == |s| && forall i :: 0 <= i < |s| ==> r[i] == f(s[i])
  {
    seq(|s|, i requires 0 <= i < |s| => f(s[i]))
  }

  lemma MapInserts<A, B>(f: A -> B, s: seq<A>, x: A, t: seq<A>)
    ensures multiset(Map(f, s + [x] + t)) == multiset(Map(f, s + t)) + multiset{f(x)}
  {
    assert Map(f, s + [x] + t) == Map(f, s) + [f(x)] + Map(f, t);
    assert Map(f, s + t) == Map(f, s) + Map(f, t);
  }

  lemma Inserted<A>(s: seq<A>, x: A, t: seq<A>)
    ensures multiset(s + [x] + t) == multiset(s + t) + multiset{x}
  {
  }

  lemma Cancel<A>(m: multiset<A>, n: multiset<A>, x: A)
    requires m + multiset{x} == n + multiset{x}
    ensures m == n
  {
    forall y
      ensures m[y] == n[y]
    {
      assert (m + multiset{x})[y] == (n + multiset{x})[y];
    }
  }

  /** The first file of s, found and taken out of a permutation of s. */
  lemma TakeOut<A>(s: seq<A>, t: seq<A>) returns (a: seq<A>, b: seq<A>)
    requires multiset(s) == multiset(t) && s != []
    ensures t == a + [s[0]] + b && |a + b| < |t|
    ensures multiset(s[1..]) == multiset(a + b)
  {
    SameMembers(s, t);
    var x := s[0];
    assert x in t;
    var k :| 0 <= k < |t| && t[k] == x;
    a, b := t[..k], t[k + 1..];
    assert s == [x] + s[1..] && multiset(s) == multiset{x} + multiset(s[1..]);
    Inserted(a, x, b);
    assert t == a + [x] + b;
    Cancel(multiset(s[1..]), multiset(a + b), x);
  }

  lemma {:induction false} MapMultiset<A, B>(f: A -> B, s: seq<A>, t: seq<A>)
    requires multiset(s) == multiset(t)
    ensures multiset(Map(f, s)) == multiset(Map(f, t))
    decreases |t|
  {
    hide Map;
    if s == [] {
      SameMembers(s, t);
      assert t == [];
    } else {
      var a, b := TakeOut(s, t);
      var u := s[1..];
      MapMultiset(f, u, a + b);
      MapInserts(f, [], s[0], u);
      MapInserts(f, a, s[0], b);
      assert [] + [s[0]] + u == s;
      assert [] + u == u;
    }
  }

  lemma SameMembers<A>(s: seq<A>, t: seq<A>)
    requires multiset(s) == multiset(t)
    ensures forall x :: x in s <==> x in t
  {
    assert forall x :: x in s <==> x in multiset(s);
    assert forall x :: x in t <==> x in multiset(t);
  }

  /** Everything but the duplicate flag, which is all the duplicate scan may change. */
  function Erase(f: FileDesc): FileDesc {
    f.(dup := false)
  }

  /** Everything lstat told about the file. */
  function Ident(f: FileDesc): FileDesc {
    f.(crc32 := 0, crcSet := false, dup := false, lnk := false)
  }

  ghost predicate SameFiles(s: seq<FileDesc>, t: seq<FileDesc>) {
    multiset(Map(Ident, s)) == multiset(Map(Ident, t))
  }

  ghost predicate SameButDup(s: seq<FileDesc>, t: seq<FileDesc>) {
    multiset(Map(Erase, s)) == multiset(Map(Erase, t))
  }

  lemma ErasedAreSameFiles(s: seq<FileDesc>, t: seq<FileDesc>)
    requires SameButDup(s, t)
    ensures SameFiles(s, t)
  {
    MapMultiset(Ident, Map(Erase, s), Map(Erase, t));
    assert Map(Ident, Map(Erase, s)) == Map(Ident, s);
    assert Map(Ident, Map(Erase, t)) == Map(Ident, t);
  }

  /** The first n files with their links marked. */
  function Marked(s: seq<FileDesc>, n: nat): (t: seq<FileDesc>)
    ensures |t| == |s|
  {
    seq(|s|, i requires 0 <= i < |s| => if 0 < i < n && SameInode(s[i - 1], s[i]) then s[i].(lnk := true) else s[i])
  }

  lemma KeyedMoves(w: World, s: seq<FileDesc>, t: seq<FileDesc>)
    requires Keyed(w, s) && multiset(s) == multiset(t)
    ensures Keyed(w, t)
  {
    SameMembers(s, t);
  }

  lemma ConsistentMoves(w: World, s: seq<FileDesc>, t: seq<FileDesc>)
    requires Consistent(w, s) && SameFiles(t, s)
    ensures Consistent(w, t)
  {
    SameMembers(Map(Ident, s), Map(Ident, t));
    forall f, g | f in t && g in t
      ensures f.length == |w.content(f.name)| && (SameInode(f, g) ==> Same(w, f, g))
    {
      var f0 := IdentMember(s, t, f);
      var g0 := IdentMember(s, t, g);
    }
  }

  lemma IdentMember(s: seq<FileDesc>, t: seq<FileDesc>, f: FileDesc) returns (g: FileDesc)
    requires SameFiles(t, s) && f in t
    ensures g in s && Ident(g) == Ident(f)
  {
    SameMembers(Map(Ident, s), Map(Ident, t));
    var i :| 0 <= i < |t| && t[i] == f;
    assert Map(Ident, t)[i] == Ident(f);
    assert Ident(f) in Map(Ident, s);
    var j :| 0 <= j < |s| && Map(Ident, s)[j] == Ident(f);
    g := s[j];
  }

  /** Every file of t is, but for its duplicate flag, one of s. */
  lemma ErasedMember(s: seq<FileDesc>, t: seq<FileDesc>, f: FileDesc) returns (g: FileDesc)
    requires SameButDup(s, t) && f in t
    ensures g in s && Erase(g) == Erase(f)
  {
    SameMembers(Map(Erase, s), Map(Erase, t));
    var i :| 0 <= i < |t| && t[i] == f;
    assert Map(Erase, t)[i] == Erase(f);
    assert Erase(f) in Map(Erase, s);
    var j :| 0 <= j < |s| && Map(Erase, s)[j] == Erase(f);
    g := s[j];
  }

  lemma StillConsistent(w: World, s: seq<FileDesc>, t: seq<FileDesc>)
    requires SameButDup(s, t)
    ensures Consistent(w, s) ==> Consistent(w, t)
    ensures Keyed(w, s) ==> Keyed(w, t)
  {
    forall f, g | f in t && g in t
      ensures Consistent(w, s) ==> f.length == |w.content(f.name)| && (SameInode(f, g) ==> Same(w, f, g))
      ensures Keyed(w, s) ==> f.crc32 == if f.crcSet then w.checksum(w.content(f.name)) else 0
      ensures Keyed(w, s) ==> f.length == g.length ==> f.crcSet == g.crcSet
    {
      var f0 := ErasedMember(s, t, f);
      var g0 := ErasedMember(s, t, g);
    }
  }

  // ----- one sweep of the duplicate scan -----

  /** The examined files with the contents of the head, flagged, in order. */
  function Matches(w: World, head: FileDesc, e: seq<FileDesc>): (m: seq<FileDesc>)
    ensures forall k :: 0 <= k < |m| ==> Same(w, head, m[k]) && m[k].dup
    ensures |m| <= |e| && (e != [] && Same(w, head, e[0]) ==> m != [])
    ensures e != [] && !Same(w, head, e[0]) ==> |m| < |e|
  {
    if e == [] then []
    else
      var n := |e| - 1;
      Matches(w, head, e[..n]) + if Same(w, head, e[n]) then [e[n].(dup := true)] else []
  }

  /** The examined files with other contents, in order. */
  function Others(w: World, head: FileDesc, e: seq<FileDesc>): (o: seq<FileDesc>)
    ensures forall k :: 0 <= k < |o| ==> o[k] in e && !Same(w, head, o[k])
    ensures |o| + |Matches(w, head, e)| == |e|
  {
    if e == [] then []
    else
      var n := |e| - 1;
      Others(w, head, e[..n]) + if Same(w, head, e[n]) then [] else [e[n]]
  }

  /** A match right behind the head is not counted as placed, so it trails behind all later ones. */
  predicate Trails(w: World, head: FileDesc, e: seq<FileDesc>) {
    e != [] && Same(w, head, e[0])
  }

  /** How the examined files stand once the sweep has moved the matches to the front. */
  function Arranged(w: World, head: FileDesc, e: seq<FileDesc>): (a: seq<FileDesc>)
    ensures |a| == |e|
  {
    var m, o := Matches(w, head, e), Others(w, head, e);
    if Trails(w, head, e) then m[1..] + [m[0]] + o else m + o
  }

  /** How far behind the first place after the head the next head is. */
  function Advance(w: World, head: FileDesc, e: seq<FileDesc>): (n: nat)
    ensures n <= |e| && (n == |e| ==> e == [])
  {
    |Matches(w, head, e)| - if Trails(w, head, e) then 1 else 0
  }

  lemma SweepMiss(w: World, head: FileDesc, e: seq<FileDesc>, x: FileDesc)
    requires !Same(w, head, x)
    ensures Arranged(w, head, e + [x]) == Arranged(w, head, e) + [x]
    ensures Advance(w, head, e + [x]) == Advance(w, head, e)
  {
    assert (e + [x])[..|e|] == e;
  }

  function InsertedAt(a: seq<FileDesc>, k: nat, x: FileDesc): seq<FileDesc>
    requires k <= |a|
  {
    a[..k] + [x] + a[k..]
  }

  lemma SweepHit(w: World, head: FileDesc, e: seq<FileDesc>, x: FileDesc)
    requires Same(w, head, x)
    ensures var a, n, x' := Arranged(w, head, e), Advance(w, head, e), x.(dup := true);
            Arranged(w, head, e + [x]) == InsertedAt(a, n, x')
    ensures Advance(w, head, e + [x]) == if e == [] then 0 else Advance(w, head, e) + 1
  {
    assert (e + [x])[..|e|] == e;
  }

  lemma HitPermutes(w: World, head: FileDesc, e: seq<FileDesc>, x: FileDesc)
    requires SameButDup(Arranged(w, head, e), e) && Same(w, head, x)
    ensures SameButDup(Arranged(w, head, e + [x]), e + [x])
  {
    SweepHit(w, head, e, x);
    var a, k := Arranged(w, head, e), Advance(w, head, e);
    hide Arranged, Advance, Map, Same;
    assert a[..k] + a[k..] == a;
    MapInserts(Erase, a[..k], x.(dup := true), a[k..]);
    MapInserts(Erase, e, x, []);
    assert e + [x] + [] == e + [x];
    assert e + [] == e;
  }

  lemma MissPermutes(w: World, head: FileDesc, e: seq<FileDesc>, x: FileDesc)
    requires SameButDup(Arranged(w, head, e), e) && !Same(w, head, x)
    ensures SameButDup(Arranged(w, head, e + [x]), e + [x])
  {
    SweepMiss(w, head, e, x);
    var a := Arranged(w, head, e);
    hide Arranged, Advance, Map, Same;
    MapInserts(Erase, a, x, []);
    MapInserts(Erase, e, x, []);
    assert a + [x] + [] == a + [x];
    assert a + [] == a;
    assert e + [x] + [] == e + [x];
    assert e + [] == e;
  }

  lemma {:induction false} ArrangedIsPermutation(w: World, head: FileDesc, e: seq<FileDesc>)
    ensures SameButDup(Arranged(w, head, e), e)
  {
    if e != [] {
      var n := |e| - 1;
      ArrangedIsPermutation(w, head, e[..n]);
      assert e == e[..n] + [e[n]];
      hide Arranged, SameButDup;
      if Same(w, head, e[n]) {
        HitPermutes(w, head, e[..n], e[n]);
      } else {
        MissPermutes(w, head, e[..n], e[n]);
      }
    }
  }

  /** One content per inode among the head and the files examined. */
  ghost predicate InodesAgree(w: World, head: FileDesc, e: seq<FileDesc>) {
    && (forall i :: 0 <= i < |e| && SameInode(head, e[i]) ==> Same(w, head, e[i]))
    && forall i, j :: 0 <= i < j < |e| && SameInode(e[i], e[j]) ==> Same(w, e[i], e[j])
  }

  /** A link follows its inode: what lets the scan skip the full compare. */
  ghost predicate LinksFollow(s: seq<FileDesc>, from: nat) {
    forall j {:trigger LinkFollows(s, j)} :: from < j < |s| ==> LinkFollows(s, j)
  }

  predicate LinkFollows(s: seq<FileDesc>, j: nat)
    requires 0 < j < |s|
  {
    s[j].lnk ==> SameInode(s[j - 1], s[j])
  }

  /** What a sweep passes over is itself a list whose links follow their inodes, the last file included. */
  ghost predicate OthersInOrder(w: World, head: FileDesc, e: seq<FileDesc>) {
    var o := Others(w, head, e);
    && LinksFollow(o, 0)
    && (o != [] ==> !o[0].lnk)
    && (e != [] && !Same(w, head, e[|e| - 1]) ==> o != [] && o[|o| - 1] == e[|e| - 1])
  }

  lemma OneMoreInOrder(w: World, head: FileDesc, e: seq<FileDesc>, x: FileDesc)
    requires OthersInOrder(w, head, e)
    requires var y := if e == [] then head else e[|e| - 1]; x.lnk ==> Same(w, y, x) && SameInode(y, x)
    ensures OthersInOrder(w, head, e + [x])
  {
    var o, o' := Others(w, head, e), Others(w, head, e + [x]);
    assert (e + [x])[..|e|] == e;
    assert o' == if Same(w, head, x) then o else o + [x];
    hide Others;
    forall j | 0 < j < |o'|
      ensures LinkFollows(o', j)
    {
      if j < |o| {
        assert LinkFollows(o, j);
      }
    }
  }

  /** The files passed over keep following, and the first of them is not a link to what was taken. */
  lemma {:induction false} OthersFollow(w: World, head: FileDesc, e: seq<FileDesc>)
    requires InodesAgree(w, head, e) && LinksFollow([head] + e, 0)
    ensures OthersInOrder(w, head, e)
  {
    if e != [] {
      var n := |e| - 1;
      var e0 := e[..n];
      assert [head] + e0 == ([head] + e)[..n + 1];
      LinksOfPrefix([head] + e, n + 1);
      OthersFollow(w, head, e0);
      assert LinkFollows([head] + e, n + 1);
      assert e == e0 + [e[n]];
      hide OthersInOrder;
      OneMoreInOrder(w, head, e0, e[n]);
    }
  }

  lemma LinksOfPrefix(s: seq<FileDesc>, n: nat)
    requires LinksFollow(s, 0) && n <= |s|
    ensures LinksFollow(s[..n], 0)
  {
    forall j | 0 < j < n
      ensures LinkFollows(s[..n], j)
    {
      assert LinkFollows(s, j);
    }
  }

  /** Files with the same contents have the same key. */
  lemma SameContentSameKey(w: World, s: seq<FileDesc>, f: FileDesc, g: FileDesc)
    requires Consistent(w, s) && Keyed(w, s) && f in s && g in s && Same(w, f, g)
    ensures SameKey(f, g)
  {
  }
}
