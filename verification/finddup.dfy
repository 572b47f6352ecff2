/**
  hw2/src/finddup.c: the list of files, flagged, sorted and rotated in place. What a name stands
  for on disk is given by `world`; the report is the sequence of lines printed.
*/
module FindDup {
  import opened FindDupLists
  import opened FindDupScan
  import opened FindDupReport

  class Finder {
    var filelist: array<FileDesc>
    var out: seq<Line>
    const world: World
    const linkflag: bool

    constructor (files: array<FileDesc>, w: World, links: bool)
      ensures filelist == files && world == w && linkflag == links && out == []
    {
      filelist, world, linkflag, out := files, w, links, [];
    }

    /** qsort with comp1; which of two equal files comes first is not promised. */
    method Sort()
      modifies filelist
      ensures Sorted(filelist[..]) && multiset(filelist[..]) == multiset(old(filelist[..]))
    {
      var t := Ordered(filelist[..]);
      OrderedSorts(filelist[..]);
      forall i | 0 <= i < filelist.Length {
        filelist[i] := t[i];
      }
      assert filelist[..] == t;
    }

    /** Reads both files until they differ or one ends; equal exactly when both end together. */
    method FullCmp(v1: nat, v2: nat) returns (r: int)
      requires v1 < filelist.Length && v2 < filelist.Length
      ensures r == 0 || r == 1
      ensures r == 0 <==> Same(world, filelist[v1], filelist[v2])
    {
      var fp1, fp2 := world.content(filelist[v1].name), world.content(filelist[v2].name);
      var i := 0;
      while i < |fp1| && i < |fp2|
        invariant i <= |fp1| && i <= |fp2|
        invariant fp1[..i] == fp2[..i]
      {
        if fp1[i] != fp2[i] {
          break;
        }
        i := i + 1;
      }
      r := if i >= |fp1| && i >= |fp2| then 0 else 1;
    }

    method Checksum(i: nat)
      requires i < filelist.Length
      modifies filelist
      ensures filelist[..] == old(filelist[..])[i := WithCrc(world, old(filelist[i]))]
    {
      if !filelist[i].crcSet {
        filelist[i] := filelist[i].(crc32 := world.checksum(world.content(filelist[i].name)), crcSet := true);
      }
    }

    /** A checksum for every file that has the length of another, and the list sorted with it. */
    method Scan1()
      requires Sorted(filelist[..]) && Fresh(filelist[..])
      modifies filelist
      ensures Sorted(filelist[..]) && Keyed(world, filelist[..])
      ensures multiset(filelist[..]) == multiset(Checked(world, old(filelist[..])))
    {
      ghost var s := filelist[..];
      var ix, needsort := 1, false;
      assert CheckedTo(world, s, 1) == s;
      hide Sorted, Keyed, Fresh, WithCrc;
      while ix < filelist.Length
        invariant 1 <= ix && (ix <= filelist.Length || ix == 1)
        invariant filelist[..] == CheckedTo(world, s, ix)
        invariant !needsort ==> filelist[..] == s
      {
        CheckedStep(world, s, ix);
        assert filelist[..][ix].length == s[ix].length && filelist[..][ix - 1].length == s[ix - 1].length;
        if filelist[ix - 1].length == filelist[ix].length {
          Checksum(ix - 1);
          Checksum(ix);
          needsort := true;
        }
        ix := ix + 1;
      }
      assert filelist[..] == Checked(world, s);
      CheckedKeyed(world, s);
      if needsort {
        Sort();
        KeyedMoves(world, Checked(world, s), filelist[..]);
      }
    }

    /** A line for one link, after the lines that must come before it. */
    method PrintLink(ix: nat, ix2: nat, needHdr: bool, inmatch: bool)
      requires ix < filelist.Length && ix2 < filelist.Length
      modifies this`out
      ensures out == old(out) + LinkLines(needHdr, inmatch, filelist[ix].name, filelist[ix2].name)
    {
      if needHdr {
        out := out + [LinkTitle];
      }
      if !inmatch {
        out := out + [File(filelist[ix].name)];
      }
      out := out + [Listed(LINK, filelist[ix2].name)];
    }

    /** Marks every file with the inode of the one before it, and lists the links unless -l. */
    method MarkLinks()
      requires forall f :: f in filelist[..] ==> !f.lnk
      modifies filelist, this`out
      ensures filelist[..] == Marked(old(filelist[..]), filelist.Length)
      ensures out == old(out) + if linkflag then LinkSummary(filelist[..]) else []
    {
      ghost var s := filelist[..];
      var ix, needHdr := 0, true;
      while ix < filelist.Length
        invariant ix <= filelist.Length
        invariant filelist[..] == Marked(s, ix)
        invariant 0 < ix < |s| ==> !SameInode(s[ix - 1], s[ix])
        invariant Summarised(linkflag, old(out), out, filelist[..][..ix], needHdr)
      {
        assert s[ix] in s;
        ix, needHdr := MarkRun(s, ix, needHdr, old(out));
      }
      assert filelist[..][..ix] == filelist[..];
    }

    /** The links of one inode. */
    method MarkRun(ghost s: seq<FileDesc>, ix: nat, hdr: bool, ghost out0: seq<Line>)
      returns (ix2: nat, needHdr: bool)
      requires ix < filelist.Length == |s| && filelist[..] == Marked(s, ix)
      requires !s[ix].lnk && (0 < ix ==> !SameInode(s[ix - 1], s[ix]))
      requires Summarised(linkflag, out0, out, filelist[..][..ix], hdr)
      modifies filelist, this`out
      ensures ix < ix2 <= filelist.Length && filelist[..] == Marked(s, ix2)
      ensures ix2 < |s| ==> !SameInode(s[ix2 - 1], s[ix2])
      ensures Summarised(linkflag, out0, out, filelist[..][..ix2], needHdr)
    {
      MarkStarts(linkflag, s, filelist[..], ix, hdr, out0, out);
      hide *;
      ghost var inmatch;
      ix2, needHdr, inmatch := MarkAll(s, ix, hdr, out0);
      RunEnds(linkflag, s, filelist[..], ix, ix2, needHdr, inmatch, out0, out);
    }

    method MarkAll(ghost s: seq<FileDesc>, ix: nat, hdr: bool, ghost out0: seq<Line>)
      returns (ix2: nat, needHdr: bool, ghost match2: bool)
      requires ix < filelist.Length == |s|
      requires MarkState(linkflag, s, filelist[..], ix, ix + 1, hdr, false, out0, out)
      modifies filelist, this`out
      ensures ix < ix2 <= filelist.Length && (ix2 < filelist.Length ==> !SameInode(filelist[ix], filelist[ix2]))
      ensures MarkState(linkflag, s, filelist[..], ix, ix2, needHdr, match2, out0, out)
    {
      hide *;
      ix2, needHdr := ix + 1, hdr;
      var inmatch := false;
      while ix2 < filelist.Length && SameInode(filelist[ix], filelist[ix2])
        invariant ix < ix2 <= filelist.Length
        invariant MarkState(linkflag, s, filelist[..], ix, ix2, needHdr, inmatch, out0, out)
      {
        needHdr := MarkNext(s, ix, ix2, needHdr, inmatch, out0);
        inmatch := linkflag;
        ix2 := ix2 + 1;
      }
      match2 := inmatch;
    }

    method MarkNext(ghost s: seq<FileDesc>, ix: nat, ix2: nat, hdr: bool, inmatch: bool, ghost out0: seq<Line>)
      returns (needHdr: bool)
      requires ix < ix2 < filelist.Length == |s| && SameInode(filelist[ix], filelist[ix2])
      requires MarkState(linkflag, s, filelist[..], ix, ix2, hdr, inmatch, out0, out)
      modifies filelist, this`out
      ensures MarkState(linkflag, s, filelist[..], ix, ix2 + 1, needHdr, linkflag, out0, out)
    {
      hide *;
      ghost var t, before := filelist[..], out;
      filelist[ix2] := filelist[ix2].(lnk := true);
      assert filelist[..] == t[ix2 := filelist[ix2]];
      if linkflag {
        PrintLink(ix, ix2, hdr, inmatch);
      }
      needHdr := hdr && !linkflag;
      MarkGoesOn(linkflag, s, t, ix, ix2, hdr, inmatch, out0, before, filelist[ix2], out);
    }

    /** The file at ix2 goes to lastix; the files between move up by one. */
    method MoveUp(lastix: nat, ix2: nat)
      requires lastix < ix2 < filelist.Length
      modifies filelist
      ensures filelist[..] == Rotated(old(filelist[..]), lastix, ix2)
    {
      ghost var t := filelist[..];
      ShiftEnds(t, lastix, ix2);
      hide *;
      var wkdesc := filelist[ix2];
      var n1 := ix2;
      while n1 > lastix
        invariant lastix <= n1 <= ix2
        invariant filelist[..] == Shifting(t, n1, ix2)
      {
        ShiftStep(t, n1, ix2);
        filelist[n1] := filelist[n1 - 1];
        n1 := n1 - 1;
      }
      filelist[lastix] := wkdesc;
    }

    /** While the files behind the head ix are examined, s being the list when ix became head. */
    ghost predicate SweepState(s: seq<FileDesc>, ix: nat, ix2: nat, lastix: nat, lnkmatch: bool)
      requires ix < ix2 <= filelist.Length == |s|
      reads this, filelist
    {
      && filelist[..] == Swept(world, s, ix, ix2) && lastix == NextHead(world, s, ix, ix2)
      && (forall k :: ix < k < ix2 ==> SameKey(s[ix], s[k]))
      && (lnkmatch ==> Same(world, s[ix], s[ix2 - 1]))
    }

    lemma Untouched(s: seq<FileDesc>, ix: nat, ix2: nat)
      requires ix < ix2 < filelist.Length == |s| && filelist[..] == Swept(world, s, ix, ix2)
      ensures filelist[ix] == s[ix] && filelist[ix2] == s[ix2]
    {
      assert filelist[..][ix] == s[ix] && filelist[..][ix2] == s[ix2];
    }

    lemma BeginSweep(s: seq<FileDesc>, ix: nat)
      requires ix < filelist.Length && s == filelist[..] && AtHead(world, s, ix)
      ensures SweepState(s, ix, ix + 1, ix + 1, true) && LinksFollow(s, ix)
    {
      SweepBegins(world, s, ix);
      hide Swept, NextHead;
    }

    lemma EndOfRun(s: seq<FileDesc>, ix: nat, ix2: nat, lastix: nat, lnkmatch: bool)
      requires ix < ix2 <= filelist.Length == |s| && SweepState(s, ix, ix2, lastix, lnkmatch)
      requires ix2 < filelist.Length ==> !SameKey(filelist[ix], filelist[ix2])
      ensures IsRun(s, ix, ix2)
      ensures filelist[..] == Swept(world, s, ix, ix2) && lastix == NextHead(world, s, ix, ix2)
    {
      if ix2 < filelist.Length {
        Untouched(s, ix, ix2);
      }
      hide Swept, NextHead;
    }

    method SweepNext(ghost s: seq<FileDesc>, ix: nat, ix2: nat, last: nat, match0: bool)
      returns (lastix: nat, lnkmatch: bool)
      requires ix < ix2 < filelist.Length == |s| && SweepState(s, ix, ix2, last, match0)
      requires Consistent(world, s) && LinksFollow(s, ix) && SameKey(filelist[ix], filelist[ix2])
      modifies filelist
      ensures SweepState(s, ix, ix2 + 1, lastix, lnkmatch)
    {
      Untouched(s, ix, ix2);
      lastix := last;
      var same := filelist[ix2].lnk && match0;
      if same {
        SkipIsSound(world, s, ix, ix2);
      } else {
        var r := FullCmp(ix, ix2);
        same := r == 0;
      }
      hide *;
      lnkmatch := same;
      if same {
        ghost var t := filelist[..];
        SweepTakes(world, s, ix, ix2, t, Swept(world, s, ix, ix2 + 1), last);
        NextOfTaken(world, s, ix, ix2);
        filelist[ix2] := filelist[ix2].(dup := true);
        if lastix != ix2 {
          MoveUp(lastix, ix2);
          lastix := lastix + 1;
        }
      } else {
        SweepPasses(world, s, ix, ix2);
      }
    }

    /** Flags every file with the contents of an earlier one, bringing equal contents together. */
    method DupScan(ghost given: seq<FileDesc>)
      requires Consistent(world, filelist[..]) && Keyed(world, filelist[..]) && AtHead(world, filelist[..], 0)
      requires RepsApart(filelist[..]) && RepsExist(filelist[..]) && SameFiles(filelist[..], given)
      modifies filelist
      ensures Answer(world, given, filelist[..])
    {
      ghost var s0 := filelist[..];
      var ix := 0;
      while ix < filelist.Length
        invariant ix <= filelist.Length && AtHead(world, filelist[..], ix)
        invariant SameButDup(s0, filelist[..])
      {
        StillConsistent(world, s0, filelist[..]);
        ix := Sweep(ix);
      }
      StillConsistent(world, s0, filelist[..]);
      RepsStay(s0, filelist[..]);
      ErasedAreSameFiles(filelist[..], s0);
      ScanDone(world, given, filelist[..]);
    }

    /** One head, and the files of its length and checksum. */
    method Sweep(ix: nat) returns (lastix: nat)
      requires ix < filelist.Length && AtHead(world, filelist[..], ix)
      requires Consistent(world, filelist[..]) && Keyed(world, filelist[..])
      modifies filelist
      ensures ix < lastix <= filelist.Length && AtHead(world, filelist[..], lastix)
      ensures SameButDup(filelist[..], old(filelist[..]))
    {
      ghost var s := filelist[..];
      BeginSweep(s, ix);
      hide *;
      ghost var r;
      lastix, r := SweepRun(s, ix);
      SweepKeeps(world, s, ix, r);
    }

    method SweepRun(ghost s: seq<FileDesc>, ix: nat) returns (lastix: nat, ghost r: nat)
      requires ix < filelist.Length == |s| && SweepState(s, ix, ix + 1, ix + 1, true)
      requires Consistent(world, s) && LinksFollow(s, ix)
      modifies filelist
      ensures IsRun(s, ix, r) && filelist[..] == Swept(world, s, ix, r) && lastix == NextHead(world, s, ix, r)
    {
      hide *;
      var ix2, lnkmatch := ix + 1, true;
      lastix := ix2;
      while ix2 < filelist.Length && SameKey(filelist[ix], filelist[ix2])
        invariant ix < ix2 <= filelist.Length && SweepState(s, ix, ix2, lastix, lnkmatch)
      {
        lastix, lnkmatch := SweepNext(s, ix, ix2, lastix, lnkmatch);
        ix2 := ix2 + 1;
      }
      EndOfRun(s, ix, ix2, lastix, lnkmatch);
      r := ix2;
    }

    /** One line of the report: the title and the head's name come first if they are still to come. */
    method PrintDup(ix: nat, needHdr: bool, headfn: Fn)
      requires ix < filelist.Length && (linkflag || !filelist[ix].lnk)
      modifies this`out
      ensures out == old(out) + DupLines(linkflag, needHdr, headfn, filelist[ix])
    {
      if needHdr {
        out := out + [DupTitle(linkflag)];
      }
      if headfn != Null {
        out := out + [File(headfn.name)];
      }
      out := out + [Listed(DUP, filelist[ix].name)];
    }

    /** Prints every flagged file under the head of its class, links only without -l. */
    method Scan3()
      requires filelist.Length > 0 ==> !filelist[0].dup
      modifies this`out
      ensures out == old(out) + DupReport(linkflag, filelist[..])
    {
      var ix, inmatch, needHdr, headfn := 0, false, true, Null;
      ghost var t := filelist[..];
      while ix < filelist.Length
        invariant ix <= filelist.Length
        invariant Reported(linkflag, old(out), out, t[..ix], needHdr, inmatch, headfn)
      {
        needHdr, inmatch, headfn := ReportOne(t, ix, needHdr, inmatch, headfn, old(out));
        ix := ix + 1;
      }
      assert t[..ix] == t;
    }

    method ReportOne(ghost t: seq<FileDesc>, ix: nat, hdr: bool, match0: bool, fn: Fn, ghost out0: seq<Line>)
      returns (needHdr: bool, inmatch: bool, headfn: Fn)
      requires ix < filelist.Length && t == filelist[..] && (ix == 0 ==> !t[0].dup)
      requires Reported(linkflag, out0, out, t[..ix], hdr, match0, fn)
      modifies this`out
      ensures Reported(linkflag, out0, out, t[..ix + 1], needHdr, inmatch, headfn)
    {
      hide *;
      ghost var p, x := t[..ix], filelist[ix];
      NextSlice(t, ix);
      if filelist[ix].dup {
        ReportedDup(linkflag, out0, out, p, x, hdr, match0, fn);
        headfn := if match0 then fn else Fn(filelist[ix - 1].name);
        needHdr, headfn := ReportDup(ix, hdr, headfn);
        inmatch := true;
      } else {
        ReportedHead(linkflag, out0, out, p, x, hdr, match0, fn);
        needHdr, inmatch, headfn := hdr, false, fn;
      }
    }

    /** A duplicate: printed unless it is a link and links are not wanted. */
    method ReportDup(ix: nat, hdr: bool, fn: Fn) returns (needHdr: bool, headfn: Fn)
      requires ix < filelist.Length
      modifies this`out
      ensures out == old(out) + DupLines(linkflag, hdr, fn, filelist[ix])
      ensures var shown := linkflag || !filelist[ix].lnk;
              needHdr == (hdr && !shown) && headfn == if shown then Null else fn
    {
      needHdr, headfn := hdr, fn;
      if linkflag || !filelist[ix].lnk {
        PrintDup(ix, needHdr, headfn);
        needHdr, headfn := false, Null;
      }
    }

    /** The program from the list on: what it prints, and the list it leaves. */
    method FindDuplicates() returns (ghost linked: seq<FileDesc>)
      requires Consistent(world, filelist[..]) && Fresh(filelist[..])
      modifies filelist, this`out
      ensures Answer(world, old(filelist[..]), filelist[..])
      ensures SameFiles(linked, old(filelist[..])) && Sorted(linked) && LinksMarked(linked) && RepsApart(linked)
      ensures out == old(out) + (if linkflag then LinkSummary(linked) else []) + DupReport(linkflag, filelist[..])
    {
      ghost var given := filelist[..];
      Sort();
      ghost var sorted := filelist[..];
      MapMultiset(Ident, sorted, given);
      SameMembers(sorted, given);
      Scan1();
      ghost var s := filelist[..];
      CheckedKeyed(world, sorted);
      MapMultiset(Ident, s, Checked(world, sorted));
      ConsistentMoves(world, given, s);
      CheckedUnmarked(world, sorted, s);
      MarkLinks();
      linked := filelist[..];
      MarkedLinks(world, s);
      ConsistentMoves(world, given, linked);
      ScanStarts(world, linked);
      MarkedReps(world, linked);
      DupScan(given);
      Scan3();
    }
  }

  lemma NextSlice(t: seq<FileDesc>, ix: nat)
    requires ix < |t|
    ensures t[..ix + 1] == t[..ix] + [t[ix]]
    ensures ix > 0 ==> t[..ix] != [] && t[..ix][|t[..ix]| - 1] == t[ix - 1]
  {
  }

  lemma CheckedUnmarked(w: World, sorted: seq<FileDesc>, s: seq<FileDesc>)
    requires Fresh(sorted) && multiset(s) == multiset(Checked(w, sorted))
    ensures forall f :: f in s ==> !f.dup && !f.lnk
  {
    SameMembers(s, Checked(w, sorted));
    forall i | 0 <= i < |sorted|
      ensures !Checked(w, sorted)[i].dup && !Checked(w, sorted)[i].lnk
    {
      assert sorted[i] in sorted;
    }
  }

  lemma MarkedSorted(s: seq<FileDesc>)
    requires Sorted(s)
    ensures Sorted(Marked(s, |s|))
  {
    var t := Marked(s, |s|);
    forall i, j | 0 <= i < j < |t|
      ensures AtMost(t[i], t[j])
    {
      assert AtMost(s[i], s[j]);
    }
  }

  lemma MarkedKeyed(w: World, s: seq<FileDesc>)
    requires Keyed(w, s)
    ensures Keyed(w, Marked(s, |s|))
  {
    var t := Marked(s, |s|);
    forall f | f in t
      ensures exists g :: g in s && g.length == f.length && g.crc32 == f.crc32 && g.crcSet == f.crcSet && g.name == f.name
    {
      var i :| 0 <= i < |t| && t[i] == f;
      assert s[i] in s;
    }
  }

  lemma MarkedAt(s: seq<FileDesc>, i: nat)
    requires i < |s| && !s[i].dup && !s[i].lnk
    ensures var t := Marked(s, |s|); Ident(t[i]) == Ident(s[i]) && !t[i].dup && LinkMarked(t, i)
  {
  }

  /** Marking links moves nothing and leaves the order, the checksums and the duplicate flags alone. */
  lemma MarkedLinks(w: World, s: seq<FileDesc>)
    requires Sorted(s) && Keyed(w, s) && forall f :: f in s ==> !f.dup && !f.lnk
    ensures var t := Marked(s, |s|);
            Sorted(t) && Keyed(w, t) && LinksMarked(t) && Map(Ident, t) == Map(Ident, s) && forall f :: f in t ==> !f.dup
  {
    hide Sorted, Keyed, Marked, LinkMarked, Ident;
    MarkedSorted(s);
    MarkedKeyed(w, s);
    var t := Marked(s, |s|);
    forall i | 0 <= i < |s|
      ensures Ident(t[i]) == Ident(s[i]) && !t[i].dup && LinkMarked(t, i)
    {
      assert s[i] in s;
      MarkedAt(s, i);
    }
  }
}
