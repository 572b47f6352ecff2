/**
  The duplicate scan of hw2/src/finddup.c on lists: what holds at each head, and that one sweep over
  the files of one length and checksum keeps it.
*/
module FindDupScan {
  import opened FindDupLists

  predicate FlagRight(w: World, s: seq<FileDesc>, ix: nat, i: nat)
    requires i < |s|
  {
    s[i].dup <==> 0 < i <= ix && Same(w, s[i - 1], s[i])
  }

  /** Up to ix, a file is flagged exactly when it has the contents of the file before it. */
  ghost predicate FlagsRight(w: World, s: seq<FileDesc>, ix: nat) {
    forall i {:trigger FlagRight(w, s, ix, i)} :: 0 <= i < |s| ==> FlagRight(w, s, ix, i)
  }

  predicate Apart(w: World, s: seq<FileDesc>, i: nat, j: nat)
    requires i < |s| && j < |s|
  {
    !Same(w, s[i], s[j])
  }

  /** No file before ix has the contents of one behind ix; ix itself may be a left-over match. */
  ghost predicate Closed(w: World, s: seq<FileDesc>, ix: nat) {
    forall i, j {:trigger Apart(w, s, i, j)} :: 0 <= i < ix < j < |s| ==> Apart(w, s, i, j)
  }

  predicate Between(w: World, s: seq<FileDesc>, i: nat, k: nat, j: nat)
    requires i < |s| && k < |s| && j < |s|
  {
    Same(w, s[i], s[j]) ==> Same(w, s[i], s[k])
  }

  /** Among the first n files, whatever stands between two files of one content has that content. */
  ghost predicate Grouped(w: World, s: seq<FileDesc>, n: nat) {
    forall i, k, j {:trigger Between(w, s, i, k, j)} :: 0 <= i <= k <= j < n && j < |s| ==> Between(w, s, i, k, j)
  }

  /** The first of a group is not a link. */
  ghost predicate HeadsUnlinked(s: seq<FileDesc>, ix: nat) {
    forall i :: 0 <= i <= ix && i < |s| && s[i].lnk ==> s[i].dup
  }

  /** What holds when the scan comes to ix as its next head. */
  ghost predicate AtHead(w: World, s: seq<FileDesc>, ix: nat) {
    && KeySorted(s) && FlagsRight(w, s, ix) && Closed(w, s, ix) && Grouped(w, s, ix + 1)
    && LinksFollow(s, ix) && HeadsUnlinked(s, ix)
  }

  /** ix .. r are the files with the length and checksum of ix. */
  ghost predicate IsRun(s: seq<FileDesc>, ix: nat, r: nat) {
    && ix < r <= |s|
    && (forall k :: ix < k < r ==> SameKey(s[ix], s[k]))
    && (r < |s| ==> !SameKey(s[ix], s[r]))
  }

  function Joined(p: seq<FileDesc>, a: seq<FileDesc>, q: seq<FileDesc>): seq<FileDesc> {
    p + a + q
  }

  function Swept(w: World, s: seq<FileDesc>, ix: nat, r: nat): (t: seq<FileDesc>)
    requires ix < r <= |s|
    ensures |t| == |s|
  {
    Joined(s[..ix + 1], Arranged(w, s[ix], s[ix + 1..r]), s[r..])
  }

  function NextHead(w: World, s: seq<FileDesc>, ix: nat, r: nat): (n: nat)
    requires ix < r <= |s|
    ensures ix < n <= r
  {
    ix + 1 + Advance(w, s[ix], s[ix + 1..r])
  }

  lemma {:induction false} KeysOfRun(w: World, head: FileDesc, e: seq<FileDesc>)
    requires forall k :: 0 <= k < |e| ==> SameKey(head, e[k])
    ensures forall k :: 0 <= k < |e| ==> SameKey(head, Arranged(w, head, e)[k])
  {
    if e != [] {
      var n := |e| - 1;
      KeysOfRun(w, head, e[..n]);
      assert e == e[..n] + [e[n]];
      if Same(w, head, e[n]) {
        SweepHit(w, head, e[..n], e[n]);
      } else {
        SweepMiss(w, head, e[..n], e[n]);
      }
      hide Arranged;
    }
  }

  /** A swept list: as before up to the head, then its class, then the others and the rest. */
  ghost predicate Shape(w: World, s: seq<FileDesc>, t: seq<FileDesc>, ix: nat, r: nat, n: nat, x: nat) {
    && ix < r <= |s| == |t| && n < r - ix && ix < x && (x == ix + n || x == ix + 1 + n)
    && (forall k :: 0 <= k <= ix ==> t[k] == s[k])
    && (forall k {:trigger Taken(w, s, t, ix, k)} :: ix < k <= ix + n ==> Taken(w, s, t, ix, k))
    && (forall k {:trigger Passed(w, s, t, ix, k)} :: ix + n < k < |t| ==> Passed(w, s, t, ix, k))
  }

  predicate Taken(w: World, s: seq<FileDesc>, t: seq<FileDesc>, ix: nat, k: nat)
    requires ix < |s| && k < |t|
  {
    Same(w, s[ix], t[k]) && t[k].dup
  }

  predicate Passed(w: World, s: seq<FileDesc>, t: seq<FileDesc>, ix: nat, k: nat)
    requires ix < |s| && k < |t|
  {
    !Same(w, s[ix], t[k]) && exists j :: ix < j < |s| && s[j] == t[k]
  }

  lemma ArrangedParts(w: World, head: FileDesc, e: seq<FileDesc>)
    ensures var a, m, o := Arranged(w, head, e), Matches(w, head, e), Others(w, head, e);
            && |a| == |m| + |o|
            && (forall k :: 0 <= k < |m| ==> Same(w, head, a[k]) && a[k].dup)
            && (forall k :: |m| <= k < |a| ==> a[k] == o[k - |m|])
  {
    var m, o := Matches(w, head, e), Others(w, head, e);
    hide Matches, Others;
    var front := if Trails(w, head, e) then m[1..] + [m[0]] else m;
    assert Arranged(w, head, e) == front + o;
    hide Arranged, Trails;
    assert |front| == |m| && forall k :: 0 <= k < |front| ==> front[k] in m;
  }

  lemma SweptAt(w: World, s: seq<FileDesc>, ix: nat, r: nat)
    requires ix < r <= |s|
    ensures forall k :: 0 <= k <= ix || r <= k < |s| ==> Swept(w, s, ix, r)[k] == s[k]
    ensures forall k :: ix < k < r ==> Swept(w, s, ix, r)[k] == Arranged(w, s[ix], s[ix + 1..r])[k - ix - 1]
  {
    hide Arranged;
  }

  lemma SweptShape(w: World, s: seq<FileDesc>, ix: nat, r: nat)
    requires Consistent(w, s) && Keyed(w, s) && KeySorted(s) && IsRun(s, ix, r)
    ensures Shape(w, s, Swept(w, s, ix, r), ix, r, |Matches(w, s[ix], s[ix + 1..r])|, NextHead(w, s, ix, r))
  {
    var head, e, t := s[ix], s[ix + 1..r], Swept(w, s, ix, r);
    var n := |Matches(w, head, e)|;
    hide Arranged, Matches, Others, Swept, Consistent, Keyed, KeySorted, Passed, Taken, Same, NextHead;
    NextOfRun(w, s, ix, r);
    ArrangedParts(w, head, e);
    SweptAt(w, s, ix, r);
    forall k | ix < k < |t|
      ensures k <= ix + n ==> Taken(w, s, t, ix, k)
      ensures k > ix + n ==> Passed(w, s, t, ix, k)
    {
      if k < r {
        RunPlaced(w, s, ix, r, k, t);
      } else {
        BehindTheRun(w, s, ix, r, k);
        RestPassed(w, s, t, ix, k);
      }
    }
  }

  /** A file of the run is flagged as a match or one of the others. */
  lemma RunPlaced(w: World, s: seq<FileDesc>, ix: nat, r: nat, k: nat, t: seq<FileDesc>)
    requires ix < k < r <= |s| && t == Swept(w, s, ix, r)
    ensures var n := |Matches(w, s[ix], s[ix + 1..r])|;
            if k <= ix + n then Taken(w, s, t, ix, k) else Passed(w, s, t, ix, k)
  {
    hide *;
    SweptAt(w, s, ix, r);
    RunKinds(w, s, ix, s[ix + 1..r], k - ix - 1, t[k]);
    if k <= ix + |Matches(w, s[ix], s[ix + 1..r])| {
      MatchTaken(w, s, t, ix, k);
    } else {
      OthersPassed(w, s, t, ix, r, k);
    }
  }

  lemma RunKinds(w: World, s: seq<FileDesc>, ix: nat, e: seq<FileDesc>, i: nat, x: FileDesc)
    requires ix < |s| && i < |e| && x == Arranged(w, s[ix], e)[i]
    ensures if i < |Matches(w, s[ix], e)| then Same(w, s[ix], x) && x.dup else x in Others(w, s[ix], e)
  {
    ArrangedParts(w, s[ix], e);
    hide Arranged, Matches, Others, Same;
  }

  lemma MatchTaken(w: World, s: seq<FileDesc>, t: seq<FileDesc>, ix: nat, k: nat)
    requires ix < |s| && k < |t| && Same(w, s[ix], t[k]) && t[k].dup
    ensures Taken(w, s, t, ix, k)
  {
  }

  lemma RestPassed(w: World, s: seq<FileDesc>, t: seq<FileDesc>, ix: nat, k: nat)
    requires ix < k < |s| == |t| && t[k] == s[k] && !Same(w, s[ix], s[k])
    ensures Passed(w, s, t, ix, k)
  {
  }

  lemma OthersPassed(w: World, s: seq<FileDesc>, t: seq<FileDesc>, ix: nat, r: nat, k: nat)
    requires ix < r <= |s| && k < |t| && t[k] in Others(w, s[ix], s[ix + 1..r])
    ensures Passed(w, s, t, ix, k)
  {
    var e := s[ix + 1..r];
    assert t[k] in e && !Same(w, s[ix], t[k]);
    var j :| 0 <= j < |e| && e[j] == t[k];
    assert s[ix + 1 + j] == t[k];
  }

  lemma KeyAtMostTransitive(f: FileDesc, g: FileDesc, h: FileDesc)
    requires KeyAtMost(f, g) && KeyAtMost(g, h) && !SameKey(f, g)
    ensures !SameKey(f, h)
  {
  }

  /** Nothing behind the run has the contents of the head. */
  lemma BehindTheRun(w: World, s: seq<FileDesc>, ix: nat, r: nat, j: nat)
    requires Consistent(w, s) && Keyed(w, s) && KeySorted(s) && IsRun(s, ix, r) && r <= j < |s|
    ensures !Same(w, s[ix], s[j])
  {
    if r < j {
      KeyAtMostTransitive(s[ix], s[r], s[j]);
    }
    if Same(w, s[ix], s[j]) {
      SameContentSameKey(w, s, s[ix], s[j]);
      assert false;
    }
  }

  lemma SweptSorted(w: World, s: seq<FileDesc>, ix: nat, r: nat)
    requires KeySorted(s) && IsRun(s, ix, r)
    ensures KeySorted(Swept(w, s, ix, r))
  {
    var t, e := Swept(w, s, ix, r), s[ix + 1..r];
    KeysOfRun(w, s[ix], e);
    forall k | 0 <= k < |s|
      ensures SameKey(s[k], t[k])
    {
      if ix < k < r {
        assert t[k] == Arranged(w, s[ix], e)[k - ix - 1];
        assert s[k] == e[k - ix - 1];
      }
    }
    hide Swept;
    forall i, j | 0 <= i < j < |t|
      ensures KeyAtMost(t[i], t[j])
    {
      assert KeyAtMost(s[i], s[j]);
      assert SameKey(s[i], t[i]) && SameKey(s[j], t[j]);
    }
  }

  lemma SweptIsPermutation(w: World, s: seq<FileDesc>, ix: nat, r: nat)
    requires ix < r <= |s|
    ensures SameButDup(Swept(w, s, ix, r), s)
  {
    var e := s[ix + 1..r];
    var a := Arranged(w, s[ix], e);
    ArrangedIsPermutation(w, s[ix], e);
    assert s == s[..ix + 1] + e + s[r..];
    hide Arranged;
    MapJoins(Erase, s[..ix + 1], e, s[r..]);
    MapJoins(Erase, s[..ix + 1], a, s[r..]);
  }

  lemma MapJoins<A, B>(f: A -> B, a: seq<A>, b: seq<A>, c: seq<A>)
    ensures multiset(Map(f, a + b + c)) == multiset(Map(f, a)) + multiset(Map(f, b)) + multiset(Map(f, c))
  {
    assert Map(f, a + b + c) == Map(f, a) + Map(f, b) + Map(f, c);
  }

  /** Nothing behind the next head has contents met before it. */
  lemma ShapeClosed(w: World, s: seq<FileDesc>, t: seq<FileDesc>, ix: nat, r: nat, n: nat, x: nat)
    requires Closed(w, s, ix) && Shape(w, s, t, ix, r, n, x)
    ensures Closed(w, t, x)
  {
    forall i, j | 0 <= i < x < j < |t|
      ensures Apart(w, t, i, j)
    {
      assert Passed(w, s, t, ix, j);
      if ix < i {
        assert Taken(w, s, t, ix, i);
      } else if i < ix {
        PassedIsNew(w, s, t, ix, i, j);
      }
    }
  }

  lemma PassedIsNew(w: World, s: seq<FileDesc>, t: seq<FileDesc>, ix: nat, i: nat, j: nat)
    requires Closed(w, s, ix) && i < ix < |s| && j < |t| && Passed(w, s, t, ix, j)
    ensures !Same(w, s[i], t[j])
  {
    var j' :| ix < j' < |s| && s[j'] == t[j];
    assert Apart(w, s, i, j');
  }

  lemma ShapeGrouped(w: World, s: seq<FileDesc>, t: seq<FileDesc>, ix: nat, r: nat, n: nat, x: nat)
    requires Closed(w, s, ix) && Grouped(w, s, ix + 1) && Shape(w, s, t, ix, r, n, x)
    ensures Grouped(w, t, x + 1)
  {
    forall i, k, j | 0 <= i <= k <= j < x + 1 && j < |t|
      ensures Between(w, t, i, k, j)
    {
      if i < k < j {
        assert i > ix ==> Taken(w, s, t, ix, i);
        assert k > ix ==> Taken(w, s, t, ix, k);
        assert ix < j <= ix + n ==> Taken(w, s, t, ix, j);
        assert j > ix + n ==> Passed(w, s, t, ix, j);
        if i < ix {
          assert Between(w, s, i, if k <= ix then k else ix, if j <= ix then j else ix);
          if j > ix + n {
            PassedIsNew(w, s, t, ix, i, j);
          }
        }
      }
    }
  }

  lemma ShapeFlags(w: World, s: seq<FileDesc>, t: seq<FileDesc>, ix: nat, r: nat, n: nat, x: nat)
    requires FlagsRight(w, s, ix) && Shape(w, s, t, ix, r, n, x)
    ensures FlagsRight(w, t, x)
  {
    forall i | 0 <= i < |t|
      ensures FlagRight(w, t, x, i)
    {
      if i <= ix {
        assert FlagRight(w, s, ix, i);
      } else if i <= ix + n {
        assert Taken(w, s, t, ix, i);
        assert i - 1 > ix ==> Taken(w, s, t, ix, i - 1);
      } else {
        assert Passed(w, s, t, ix, i);
        var j :| ix < j < |s| && s[j] == t[i];
        assert FlagRight(w, s, ix, j);
        if i == x && i - 1 > ix {
          assert Taken(w, s, t, ix, i - 1);
        }
      }
    }
  }

  lemma RunFollows(w: World, s: seq<FileDesc>, ix: nat, r: nat)
    requires Consistent(w, s) && LinksFollow(s, ix) && ix < r <= |s|
    ensures OthersInOrder(w, s[ix], s[ix + 1..r])
  {
    var head, e := s[ix], s[ix + 1..r];
    forall i | 0 <= i < |e|
      ensures e[i] == s[ix + 1 + i] && e[i] in s
    {
    }
    forall j | 0 < j < |[head] + e|
      ensures LinkFollows([head] + e, j)
    {
      assert LinkFollows(s, ix + j);
    }
    assert head in s;
    assert InodesAgree(w, head, e);
    OthersFollow(w, head, e);
  }

  /** The first file behind the run is no link: a link has the length and checksum of its inode. */
  lemma RunEndsFresh(w: World, s: seq<FileDesc>, ix: nat, r: nat)
    requires Consistent(w, s) && Keyed(w, s) && LinksFollow(s, ix) && IsRun(s, ix, r) && r < |s|
    ensures !s[r].lnk
  {
    assert LinkFollows(s, r);
    assert s[r - 1] in s && s[r] in s;
    assert SameKey(s[ix], s[r - 1]);
    if s[r].lnk {
      SameContentSameKey(w, s, s[r - 1], s[r]);
      assert false;
    }
  }

  /** The links of a list t that is the others o from position p on, and then s from r on. */
  lemma LinksJoin(s: seq<FileDesc>, t: seq<FileDesc>, o: seq<FileDesc>, p: nat, r: nat)
    requires |t| == |s| && p + |o| == r <= |s|
    requires forall k :: p <= k < r ==> t[k] == o[k - p]
    requires forall k :: r <= k < |s| ==> t[k] == s[k]
    requires LinksFollow(o, 0) && LinksFollow(s, r) && (r < |s| ==> !s[r].lnk) && (o != [] ==> !o[0].lnk)
    ensures LinksFollow(t, p) && (p < |t| ==> !t[p].lnk)
  {
    forall j | p < j < |t|
      ensures LinkFollows(t, j)
    {
      if j > r {
        assert LinkFollows(s, j);
      } else if j < r {
        assert LinkFollows(o, j - p);
      }
    }
  }

  lemma OthersAt(w: World, s: seq<FileDesc>, ix: nat, r: nat, p: nat, k: nat)
    requires ix < r <= |s| && p == ix + 1 + |Matches(w, s[ix], s[ix + 1..r])| && p <= k < r
    ensures p + |Others(w, s[ix], s[ix + 1..r])| == r
    ensures Swept(w, s, ix, r)[k] == Others(w, s[ix], s[ix + 1..r])[k - p]
  {
    ArrangedParts(w, s[ix], s[ix + 1..r]);
    SweptAt(w, s, ix, r);
    hide Arranged, Matches, Others, Swept;
    assert Swept(w, s, ix, r)[k] == Arranged(w, s[ix], s[ix + 1..r])[k - ix - 1];
  }

  lemma FreshFollows(t: seq<FileDesc>, p: nat)
    requires LinksFollow(t, p) && (p < |t| ==> !t[p].lnk) && p > 0
    ensures LinksFollow(t, p - 1)
  {
    forall j | p - 1 < j < |t|
      ensures LinkFollows(t, j)
    {
    }
  }

  lemma SweptLinks(w: World, s: seq<FileDesc>, ix: nat, r: nat)
    requires Consistent(w, s) && Keyed(w, s) && LinksFollow(s, ix) && IsRun(s, ix, r)
    ensures LinksFollow(Swept(w, s, ix, r), NextHead(w, s, ix, r))
    ensures var t, x := Swept(w, s, ix, r), NextHead(w, s, ix, r);
            x < |t| && t[x].lnk ==> Trails(w, s[ix], s[ix + 1..r])
  {
    var t, o := Swept(w, s, ix, r), Others(w, s[ix], s[ix + 1..r]);
    var p := ix + 1 + |Matches(w, s[ix], s[ix + 1..r])|;
    hide Swept, Others, Matches, Consistent, Keyed, LinksFollow, LinkFollows, Same, NextHead, Trails;
    NextOfRun(w, s, ix, r);
    RunFollows(w, s, ix, r);
    if r < |s| {
      RunEndsFresh(w, s, ix, r);
    }
    LinksLater(s, ix, r);
    SweptAt(w, s, ix, r);
    hide *;
    OthersStand(w, s, ix, r, t, o, p);
    LinksJoin(s, t, o, p, r);
    FreshFollows(t, p);
  }

  lemma NextOfRun(w: World, s: seq<FileDesc>, ix: nat, r: nat)
    requires ix < r <= |s|
    ensures var p := ix + 1 + |Matches(w, s[ix], s[ix + 1..r])|;
            NextHead(w, s, ix, r) == if Trails(w, s[ix], s[ix + 1..r]) then p - 1 else p
  {
    hide Matches;
  }

  lemma LinksLater(s: seq<FileDesc>, from: nat, to: nat)
    requires LinksFollow(s, from) && from <= to
    ensures LinksFollow(s, to)
  {
  }

  lemma OthersStand(w: World, s: seq<FileDesc>, ix: nat, r: nat, t: seq<FileDesc>, o: seq<FileDesc>, p: nat)
    requires ix < r <= |s| && t == Swept(w, s, ix, r) && o == Others(w, s[ix], s[ix + 1..r])
    requires p == ix + 1 + |Matches(w, s[ix], s[ix + 1..r])|
    ensures p + |o| == r && forall k :: p <= k < r ==> t[k] == o[k - p]
  {
    ArrangedParts(w, s[ix], s[ix + 1..r]);
    hide *;
    forall k | p <= k < r
      ensures t[k] == o[k - p]
    {
      OthersAt(w, s, ix, r, p, k);
    }
  }

  lemma SweptHeads(w: World, s: seq<FileDesc>, t: seq<FileDesc>, ix: nat, r: nat, n: nat, x: nat)
    requires HeadsUnlinked(s, ix) && Shape(w, s, t, ix, r, n, x)
    requires x < |t| && t[x].lnk ==> x == ix + n
    ensures HeadsUnlinked(t, x)
  {
    forall i | 0 <= i <= x && i < |t| && t[i].lnk
      ensures t[i].dup
    {
      if ix < i {
        assert Taken(w, s, t, ix, i);
      }
    }
  }

  /** One sweep brings the scan from one head to the next, whatever it finds. */
  lemma SweepKeeps(w: World, s: seq<FileDesc>, ix: nat, r: nat)
    requires Consistent(w, s) && Keyed(w, s) && AtHead(w, s, ix) && IsRun(s, ix, r)
    ensures AtHead(w, Swept(w, s, ix, r), NextHead(w, s, ix, r))
    ensures SameButDup(Swept(w, s, ix, r), s)
  {
    var t, x, n := Swept(w, s, ix, r), NextHead(w, s, ix, r), |Matches(w, s[ix], s[ix + 1..r])|;
    SweptSorted(w, s, ix, r);
    SweptShape(w, s, ix, r);
    SweptLinks(w, s, ix, r);
    SweptIsPermutation(w, s, ix, r);
    hide Swept, Matches, Shape, Closed, Grouped, FlagsRight, HeadsUnlinked, LinksFollow, KeySorted, IsRun;
    ShapeClosed(w, s, t, ix, r, n, x);
    ShapeGrouped(w, s, t, ix, r, n, x);
    ShapeFlags(w, s, t, ix, r, n, x);
    SweptHeads(w, s, t, ix, r, n, x);
  }

  // ----- one file of a sweep -----

  /** The file at position `to` taken to position `from`, those between moved one up. */
  function Rotated(t: seq<FileDesc>, from: nat, to: nat): (u: seq<FileDesc>)
    requires from <= to < |t|
    ensures |u| == |t|
  {
    t[..from] + [t[to]] + t[from..to] + t[to + 1..]
  }

  /** The list while the loop shifts: the file at n1 stands there twice, the file at `to` nowhere. */
  function Shifting(t: seq<FileDesc>, n1: nat, to: nat): (u: seq<FileDesc>)
    requires n1 <= to < |t|
    ensures |u| == |t|
  {
    t[..n1] + (if n1 < to then [t[n1]] else [t[to]]) + t[n1..to] + t[to + 1..]
  }

  lemma ShiftStep(t: seq<FileDesc>, n1: nat, to: nat)
    requires 0 < n1 <= to < |t|
    ensures var u := Shifting(t, n1, to); u[n1 := u[n1 - 1]] == Shifting(t, n1 - 1, to)
  {
  }

  lemma ShiftEnds(t: seq<FileDesc>, from: nat, to: nat)
    requires from <= to < |t|
    ensures Shifting(t, to, to) == t && Shifting(t, from, to)[from := t[to]] == Rotated(t, from, to)
  {
  }

  lemma SweepBegins(w: World, s: seq<FileDesc>, ix: nat)
    requires ix < |s|
    ensures Swept(w, s, ix, ix + 1) == s && NextHead(w, s, ix, ix + 1) == ix + 1
  {
    assert s[ix + 1..ix + 1] == [];
  }

  lemma SweepPasses(w: World, s: seq<FileDesc>, ix: nat, r: nat)
    requires ix < r < |s| && !Same(w, s[ix], s[r])
    ensures Swept(w, s, ix, r + 1) == Swept(w, s, ix, r) && NextHead(w, s, ix, r + 1) == NextHead(w, s, ix, r)
  {
    var e := s[ix + 1..r];
    assert s[ix + 1..r + 1] == e + [s[r]];
    assert s[r..] == [s[r]] + s[r + 1..];
    SweepMiss(w, s[ix], e, s[r]);
    hide Arranged;
  }

  /** A sweep one file longer, taken apart as the shorter one is. */
  lemma SweptGrows(w: World, s: seq<FileDesc>, ix: nat, r: nat)
    requires ix < r < |s| && Same(w, s[ix], s[r])
    ensures var p, e, q := s[..ix + 1], s[ix + 1..r], s[r..];
            var a, k := Arranged(w, s[ix], e), Advance(w, s[ix], e);
            && Swept(w, s, ix, r + 1) == Joined(p, InsertedAt(a, k, s[r].(dup := true)), q[1..])
            && NextHead(w, s, ix, r + 1) == |p| + if e == [] then 0 else k + 1
  {
    var e := s[ix + 1..r];
    SliceGrows(s, ix + 1, r);
    SweptOf(w, s, ix, r + 1, s[..ix + 1], e + [s[r]], s[r..][1..]);
    SweepHit(w, s[ix], e, s[r]);
    hide *;
  }

  lemma SweptOf(w: World, s: seq<FileDesc>, ix: nat, r: nat, p: seq<FileDesc>, e: seq<FileDesc>, q: seq<FileDesc>)
    requires ix < r <= |s| && p == s[..ix + 1] && e == s[ix + 1..r] && q == s[r..]
    ensures Swept(w, s, ix, r) == Joined(p, Arranged(w, s[ix], e), q)
    ensures NextHead(w, s, ix, r) == |p| + Advance(w, s[ix], e)
  {
    hide Arranged, Advance, Joined;
  }

  lemma SliceGrows(s: seq<FileDesc>, from: nat, r: nat)
    requires from <= r < |s|
    ensures s[from..r + 1] == s[from..r] + [s[r]] && s[r + 1..] == s[r..][1..]
  {
  }

  lemma SweptSplits(w: World, s: seq<FileDesc>, ix: nat, r: nat)
    requires ix < r < |s|
    ensures var p, a, q, k := s[..ix + 1], Arranged(w, s[ix], s[ix + 1..r]), s[r..], Advance(w, s[ix], s[ix + 1..r]);
            && Swept(w, s, ix, r) == Joined(p, a, q) && NextHead(w, s, ix, r) == |p| + k && |p| + |a| == r
            && q[0] == s[r] && (k == |a| <==> s[ix + 1..r] == []) && k <= |a|
  {
    hide Arranged, Advance;
  }

  lemma NextOfTaken(w: World, s: seq<FileDesc>, ix: nat, r: nat)
    requires ix < r < |s| && Same(w, s[ix], s[r])
    ensures var n := NextHead(w, s, ix, r); NextHead(w, s, ix, r + 1) == if n == r then n else n + 1
  {
    SweepHit(w, s[ix], s[ix + 1..r], s[r]);
    SliceGrows(s, ix + 1, r);
    hide Arranged, Advance;
  }

  /** The scan counts a match as placed unless it already stands where the next one goes. */
  lemma SweepTakes(w: World, s: seq<FileDesc>, ix: nat, r: nat, t: seq<FileDesc>, t': seq<FileDesc>, n: nat)
    requires ix < r < |s| && Same(w, s[ix], s[r])
    requires t == Swept(w, s, ix, r) && n == NextHead(w, s, ix, r) && t' == Swept(w, s, ix, r + 1)
    ensures t[r] == s[r]
    ensures t' == if n == r then t[r := s[r].(dup := true)] else Rotated(t[r := s[r].(dup := true)], n, r)
  {
    var p, a, q, k := s[..ix + 1], Arranged(w, s[ix], s[ix + 1..r]), s[r..], Advance(w, s[ix], s[ix + 1..r]);
    SweptGrows(w, s, ix, r);
    SweptSplits(w, s, ix, r);
    hide *;
    TakenMoves(p, a, q, k, s[r].(dup := true), t, t', n, r);
  }

  lemma TakenMoves(p: seq<FileDesc>, a: seq<FileDesc>, q: seq<FileDesc>, k: nat, x: FileDesc, t: seq<FileDesc>,
      t': seq<FileDesc>, n: nat, r: nat)
    requires k <= |a| && q != [] && r == |p| + |a| && n == |p| + k
    requires t == Joined(p, a, q) && t' == Joined(p, InsertedAt(a, k, x), q[1..])
    ensures r < |t| && t[r] == q[0]
    ensures t' == if n == r then t[r := x] else Rotated(t[r := x], n, r)
  {
    var u := t[r := x];
    var a1, a2 := a[..k], a[k..];
    assert a == a1 + a2;
    assert u == p + (a1 + a2) + [x] + q[1..];
    hide Rotated;
    if k < |a| {
      RotatedParts(p, a1, a2, x, q[1..], u, n, r);
    }
  }

  lemma RotatedParts(p: seq<FileDesc>, a1: seq<FileDesc>, a2: seq<FileDesc>, x: FileDesc, q: seq<FileDesc>,
      u: seq<FileDesc>, n: nat, r: nat)
    requires u == p + (a1 + a2) + [x] + q && n == |p| + |a1| && r == n + |a2|
    ensures p + (a1 + [x] + a2) + q == Rotated(u, n, r)
  {
    assert u[..n] == p + a1;
    assert u[n..r] == a2;
    assert u[r + 1..] == q;
  }

  /** A file marked as a link behind a match is a match: the full compare may be skipped. */
  lemma SkipIsSound(w: World, s: seq<FileDesc>, ix: nat, r: nat)
    requires Consistent(w, s) && LinksFollow(s, ix) && ix < r < |s|
    requires s[r].lnk && Same(w, s[ix], s[r - 1])
    ensures SameInode(s[r - 1], s[r]) && Same(w, s[ix], s[r])
  {
    assert LinkFollows(s, r);
    assert s[r - 1] in s && s[r] in s;
  }
}
