/**
  What hw2/src/finddup.c prints, as a function of the final list, and why that is the answer: the
  printed groups are the classes of files with equal contents.
*/
module FindDupReport {
  import opened FindDupLists
  import opened FindDupScan

  datatype Tag = LINK | DUP

  datatype Line = LinkTitle | DupTitle(links: bool) | File(name: nat) | Listed(tag: Tag, name: nat)

  predicate IsDup(f: FileDesc) {
    f.dup
  }

  predicate IsLnk(f: FileDesc) {
    f.lnk
  }

  /** The list cut into groups: a file that `joins` belongs with the file before it. */
  function Groups(joins: FileDesc -> bool, s: seq<FileDesc>): (gs: seq<seq<FileDesc>>)
    ensures (gs == [] <==> s == []) && forall i :: 0 <= i < |gs| ==> gs[i] != []
  {
    if s == [] then []
    else
      var n := |s| - 1;
      var gs := Groups(joins, s[..n]);
      if joins(s[n]) && n > 0 then gs[..|gs| - 1] + [gs[|gs| - 1] + [s[n]]] else gs + [[s[n]]]
  }

  function Flatten<T>(ss: seq<seq<T>>): seq<T> {
    if ss == [] then [] else Flatten(ss[..|ss| - 1]) + ss[|ss| - 1]
  }

  /** The members of a group that are listed under its head. */
  function Shown(links: bool, s: seq<FileDesc>): seq<FileDesc> {
    if s == [] then []
    else
      var n := |s| - 1;
      Shown(links, s[..n]) + if links || !s[n].lnk then [s[n]] else []
  }

  function Lines(tag: Tag, s: seq<FileDesc>): seq<Line> {
    seq(|s|, i requires 0 <= i < |s| => Listed(tag, s[i].name))
  }

  /** A group as it is printed: nothing unless something is listed under its head. */
  function Entry(tag: Tag, links: bool, g: seq<FileDesc>): seq<Line>
    requires g != []
  {
    var shown := Shown(links, g[1..]);
    if shown == [] then [] else [File(g[0].name)] + Lines(tag, shown)
  }

  function Entries(tag: Tag, links: bool, gs: seq<seq<FileDesc>>): seq<Line>
    requires forall i :: 0 <= i < |gs| ==> gs[i] != []
  {
    if gs == [] then [] else Entries(tag, links, gs[..|gs| - 1]) + Entry(tag, links, gs[|gs| - 1])
  }

  function Titled(title: Line, body: seq<Line>): seq<Line> {
    if body == [] then [] else [title] + body
  }

  // ----- printing file by file -----

  lemma GroupsOfMore(joins: FileDesc -> bool, s: seq<FileDesc>, x: FileDesc)
    ensures var gs := Groups(joins, s);
            Groups(joins, s + [x])
            == if joins(x) && s != [] then gs[..|gs| - 1] + [gs[|gs| - 1] + [x]] else gs + [[x]]
  {
    assert (s + [x])[..|s|] == s;
  }

  /** What x prints when it comes behind the group g: the head if it is the first listed, and itself. */
  function Added(tag: Tag, links: bool, g: seq<FileDesc>, x: FileDesc): seq<Line>
    requires g != []
  {
    if links || !x.lnk then
      (if Shown(links, g[1..]) == [] then [File(g[0].name)] else []) + [Listed(tag, x.name)]
    else []
  }

  lemma EntryGrows(tag: Tag, links: bool, g: seq<FileDesc>, x: FileDesc)
    requires g != []
    ensures Entry(tag, links, g + [x]) == Entry(tag, links, g) + Added(tag, links, g, x)
  {
    assert (g + [x])[1..] == g[1..] + [x] && (g + [x])[0] == g[0];
    ShownOfMore(links, g[1..], x);
    LinesOfMore(tag, Shown(links, g[1..]), x);
    hide Shown, Lines;
  }

  lemma LinesOfMore(tag: Tag, s: seq<FileDesc>, x: FileDesc)
    ensures Lines(tag, s + [x]) == Lines(tag, s) + [Listed(tag, x.name)]
    ensures Lines(tag, []) == []
  {
  }

  lemma ShownOfMore(links: bool, s: seq<FileDesc>, x: FileDesc)
    ensures Shown(links, s + [x]) == Shown(links, s) + if links || !x.lnk then [x] else []
  {
    assert (s + [x])[..|s|] == s;
  }

  lemma EntriesOfOneMore(tag: Tag, links: bool, gs: seq<seq<FileDesc>>, g: seq<FileDesc>)
    requires g != [] && forall i :: 0 <= i < |gs| ==> gs[i] != []
    ensures Entries(tag, links, gs + [g]) == Entries(tag, links, gs) + Entry(tag, links, g)
  {
    assert (gs + [g])[..|gs|] == gs;
    hide Entry;
  }

  /** What one more file adds to the duplicate report. */
  lemma EntriesOfMore(joins: FileDesc -> bool, tag: Tag, links: bool, s: seq<FileDesc>, x: FileDesc)
    requires s == [] ==> !joins(x)
    ensures Entries(tag, links, Groups(joins, s + [x])) == Entries(tag, links, Groups(joins, s))
              + if joins(x) then Added(tag, links, Groups(joins, s)[|Groups(joins, s)| - 1], x) else []
  {
    GroupsOfMore(joins, s, x);
    var gs := Groups(joins, s);
    if joins(x) {
      var g, m := gs[|gs| - 1], gs[..|gs| - 1];
      assert gs == m + [g];
      EntriesLonger(tag, links, m, g, x);
    } else {
      assert Entry(tag, links, [x]) == [];
      hide Entry;
      EntriesOfOneMore(tag, links, gs, [x]);
    }
  }

  lemma EntriesLonger(tag: Tag, links: bool, m: seq<seq<FileDesc>>, g: seq<FileDesc>, x: FileDesc)
    requires g != [] && forall i :: 0 <= i < |m| ==> m[i] != []
    ensures Entries(tag, links, m + [g + [x]]) == Entries(tag, links, m + [g]) + Added(tag, links, g, x)
  {
    EntryGrows(tag, links, g, x);
    EntriesOfOneMore(tag, links, m, g);
    EntriesOfOneMore(tag, links, m, g + [x]);
    Associates(Entries(tag, links, m), Entry(tag, links, g), Added(tag, links, g, x));
    hide *;
  }

  lemma Associates<T>(a: seq<T>, b: seq<T>, c: seq<T>)
    ensures a + (b + c) == (a + b) + c
  {
  }

  function LastGroup(joins: FileDesc -> bool, s: seq<FileDesc>): (g: seq<FileDesc>)
    requires s != []
    ensures g != []
  {
    var gs := Groups(joins, s);
    gs[|gs| - 1]
  }

  /** The summary of the links, and the report of the duplicates. */
  function Report(joins: FileDesc -> bool, title: Line, tag: Tag, links: bool, s: seq<FileDesc>): seq<Line> {
    Titled(title, Entries(tag, links, Groups(joins, s)))
  }

  function LinkSummary(s: seq<FileDesc>): seq<Line> {
    Report(IsLnk, LinkTitle, LINK, true, s)
  }

  function DupReport(links: bool, s: seq<FileDesc>): seq<Line> {
    Report(IsDup, DupTitle(links), DUP, links, s)
  }

  lemma ReportStarts(joins: FileDesc -> bool, title: Line, tag: Tag, links: bool, s: seq<FileDesc>, x: FileDesc)
    requires !joins(x)
    ensures Report(joins, title, tag, links, s + [x]) == Report(joins, title, tag, links, s)
    ensures LastGroup(joins, s + [x]) == [x]
  {
    EntriesOfMore(joins, tag, links, s, x);
    GroupsOfMore(joins, s, x);
  }

  lemma TitledGrows(title: Line, body: seq<Line>, more: seq<Line>)
    ensures Titled(title, body + more)
            == if more == [] then Titled(title, body)
               else Titled(title, body) + ((if Titled(title, body) == [] then [title] else []) + more)
  {
  }

  lemma ReportGrows(joins: FileDesc -> bool, title: Line, tag: Tag, links: bool, s: seq<FileDesc>, x: FileDesc)
    requires joins(x) && s != []
    ensures var r, added := Report(joins, title, tag, links, s), Added(tag, links, LastGroup(joins, s), x);
            Report(joins, title, tag, links, s + [x])
            == if added == [] then r else r + ((if r == [] then [title] else []) + added)
  {
    EntriesOfMore(joins, tag, links, s, x);
    TitledGrows(title, Entries(tag, links, Groups(joins, s)), Added(tag, links, LastGroup(joins, s), x));
    hide Entries, Added, Groups, Titled;
  }

  lemma LastGroupGrows(joins: FileDesc -> bool, s: seq<FileDesc>, x: FileDesc)
    requires joins(x) && s != []
    ensures LastGroup(joins, s + [x]) == LastGroup(joins, s) + [x]
  {
    GroupsOfMore(joins, s, x);
  }

  /** The lines for one link, after those that must come before it. */
  function LinkLines(needHdr: bool, inmatch: bool, head: nat, name: nat): seq<Line> {
    (if needHdr then [LinkTitle] else []) + ((if inmatch then [] else [File(head)]) + [Listed(LINK, name)])
  }

  /** One more link: the title if nothing was listed yet, the head if it is the first of its inode. */
  lemma SummaryGrows(s: seq<FileDesc>, x: FileDesc)
    requires x.lnk && s != []
    ensures var r, g := LinkSummary(s), LastGroup(IsLnk, s);
            LinkSummary(s + [x]) == r + LinkLines(r == [], |g| > 1, g[0].name, x.name)
  {
    ReportGrows(IsLnk, LinkTitle, LINK, true, s, x);
    var g := LastGroup(IsLnk, s);
    ShownAll(g[1..]);
    assert |g| > 1 <==> g[1..] != [];
    hide Report, LastGroup, Shown;
  }

  lemma {:induction false} ShownAll(s: seq<FileDesc>)
    ensures Shown(true, s) == s
  {
    if s != [] {
      ShownAll(s[..|s| - 1]);
    }
  }

  /** What has been printed of the body r, and whether its title is still to come. */
  predicate LoopState(out0: seq<Line>, out: seq<Line>, r: seq<Line>, needHdr: bool) {
    out == out0 + r && (needHdr <==> r == [])
  }

  lemma LoopStateGrows(out0: seq<Line>, out: seq<Line>, r: seq<Line>, needHdr: bool, more: seq<Line>)
    requires LoopState(out0, out, r, needHdr)
    ensures LoopState(out0, out + more, r + more, needHdr && more == [])
  {
    assert out + more == out0 + (r + more);
  }

  /** What has been printed, and whether the title is still to come, when the links of p are marked. */
  predicate Summarised(links: bool, out0: seq<Line>, out: seq<Line>, p: seq<FileDesc>, needHdr: bool) {
    if links then LoopState(out0, out, LinkSummary(p), needHdr) else out == out0
  }

  lemma SummarisedNext(links: bool, out0: seq<Line>, out: seq<Line>, p: seq<FileDesc>, x: FileDesc, hdr: bool,
      inmatch: bool)
    requires Summarised(links, out0, out, p, hdr) && x.lnk && p != [] && (inmatch <==> |LastGroup(IsLnk, p)| > 1)
    ensures var head := LastGroup(IsLnk, p)[0].name;
            Summarised(links, out0, if links then out + LinkLines(hdr, inmatch, head, x.name) else out, p + [x],
                       hdr && !links)
  {
    var more := LinkLines(hdr, inmatch, LastGroup(IsLnk, p)[0].name, x.name);
    assert more != [];
    if links {
      SummaryGrows(p, x);
      LoopStateGrows(out0, out, LinkSummary(p), hdr, more);
      hide LinkSummary, LastGroup, LinkLines;
      assert hdr <==> LinkSummary(p) == [];
      hide LoopState;
    }
  }

  /** ix .. ix2 are files of one inode. */
  ghost predicate InRun(s: seq<FileDesc>, ix: nat, ix2: nat) {
    forall k :: ix <= k < ix2 && k < |s| ==> SameInode(s[ix], s[k])
  }

  /**
    The marking loop at ix2, the links of ix being marked: s is the list before, t the list now, out
    what has been printed.
  */
  ghost predicate MarkState(links: bool, s: seq<FileDesc>, t: seq<FileDesc>, ix: nat, ix2: nat, needHdr: bool,
      inmatch: bool, out0: seq<Line>, out: seq<Line>)
  {
    && ix < ix2 <= |s| && t == Marked(s, ix2) && InRun(s, ix, ix2)
    && Summarised(links, out0, out, t[..ix2], needHdr)
    && LastGroup(IsLnk, t[..ix2]) == t[ix..ix2]
    && (links ==> (inmatch <==> ix2 > ix + 1))
  }

  lemma MarkStarts(links: bool, s: seq<FileDesc>, t: seq<FileDesc>, ix: nat, needHdr: bool, out0: seq<Line>,
      out: seq<Line>)
    requires ix < |s| && t == Marked(s, ix) && !s[ix].lnk && (0 < ix ==> !SameInode(s[ix - 1], s[ix]))
    requires Summarised(links, out0, out, t[..ix], needHdr)
    ensures MarkState(links, s, t, ix, ix + 1, needHdr, false, out0, out)
  {
    NothingMarked(s, ix);
    hide Marked;
    RunStarts(links, s, t, ix, needHdr, out0, out, t[..ix], t[ix]);
  }

  lemma NothingMarked(s: seq<FileDesc>, ix: nat)
    requires ix < |s| && !s[ix].lnk && (0 < ix ==> !SameInode(s[ix - 1], s[ix]))
    ensures Marked(s, ix + 1) == Marked(s, ix) && Marked(s, ix)[ix] == s[ix]
  {
  }

  lemma RunStarts(links: bool, s: seq<FileDesc>, t: seq<FileDesc>, ix: nat, needHdr: bool, out0: seq<Line>,
      out: seq<Line>, p: seq<FileDesc>, x: FileDesc)
    requires ix < |s| == |t| && t == Marked(s, ix + 1) && p == t[..ix] && x == t[ix] && !x.lnk
    requires Summarised(links, out0, out, p, needHdr)
    ensures MarkState(links, s, t, ix, ix + 1, needHdr, false, out0, out)
  {
    SummaryStarts(links, out0, out, p, x, needHdr);
    hide Summarised, LastGroup, Marked;
    assert t[..ix + 1] == p + [x];
    assert t[ix..ix + 1] == [x];
  }

  lemma SummaryStarts(links: bool, out0: seq<Line>, out: seq<Line>, p: seq<FileDesc>, x: FileDesc, needHdr: bool)
    requires Summarised(links, out0, out, p, needHdr) && !x.lnk
    ensures Summarised(links, out0, out, p + [x], needHdr) && LastGroup(IsLnk, p + [x]) == [x]
  {
    ReportStarts(IsLnk, LinkTitle, LINK, true, p, x);
    hide Report, LastGroup, LoopState;
  }

  lemma MarkedMore(s: seq<FileDesc>, ix2: nat)
    requires 0 < ix2 < |s| && SameInode(s[ix2 - 1], s[ix2])
    ensures var t := Marked(s, ix2); Marked(s, ix2 + 1) == t[ix2 := t[ix2].(lnk := true)]
  {
  }

  /** The next file has the inode of ix: it is marked, and printed if links are. */
  lemma MarkGoesOn(links: bool, s: seq<FileDesc>, t: seq<FileDesc>, ix: nat, ix2: nat, needHdr: bool, inmatch: bool,
      out0: seq<Line>, out: seq<Line>, x: FileDesc, out': seq<Line>)
    requires MarkState(links, s, t, ix, ix2, needHdr, inmatch, out0, out) && ix2 < |s| && SameInode(t[ix], t[ix2])
    requires x == t[ix2].(lnk := true)
    requires out' == if links then out + LinkLines(needHdr, inmatch, t[ix].name, x.name) else out
    ensures MarkState(links, s, t[ix2 := x], ix, ix2 + 1, needHdr && !links, links, out0, out')
  {
    var p, g := t[..ix2], t[ix..ix2];
    RunGoesOn(s, t, ix, ix2);
    MarkedMore(s, ix2);
    SummarisedNext(links, out0, out, p, x, needHdr, |g| > 1);
    LastGroupGrows(IsLnk, p, x);
    assert g[0] == t[ix];
    hide Marked, InRun, Summarised, LastGroup, LinkLines;
    assert t[ix2 := x][..ix2 + 1] == p + [x];
    assert t[ix2 := x][ix..ix2 + 1] == g + [x];
  }

  lemma RunGoesOn(s: seq<FileDesc>, t: seq<FileDesc>, ix: nat, ix2: nat)
    requires ix < ix2 < |s| && t == Marked(s, ix2) && InRun(s, ix, ix2) && SameInode(t[ix], t[ix2])
    ensures SameInode(s[ix2 - 1], s[ix2]) && InRun(s, ix, ix2 + 1)
  {
    assert SameInode(s[ix], s[ix2 - 1]);
  }

  lemma RunEnds(links: bool, s: seq<FileDesc>, t: seq<FileDesc>, ix: nat, ix2: nat, needHdr: bool, inmatch: bool,
      out0: seq<Line>, out: seq<Line>)
    requires MarkState(links, s, t, ix, ix2, needHdr, inmatch, out0, out)
    requires ix2 < |s| ==> !SameInode(t[ix], t[ix2])
    ensures ix2 < |s| ==> !SameInode(s[ix2 - 1], s[ix2])
    ensures t == Marked(s, ix2) && Summarised(links, out0, out, t[..ix2], needHdr)
  {
    assert SameInode(s[ix], s[ix2 - 1]);
    hide Summarised, LastGroup;
  }

  datatype Fn = Null | Fn(name: nat)

  /**
    The loop of the report when the files of p are done: what is printed, whether the title is still
    to come, and the name of the head for as long as it has not been printed.
  */
  predicate Reported(links: bool, out0: seq<Line>, out: seq<Line>, p: seq<FileDesc>, needHdr: bool, inmatch: bool,
      headfn: Fn)
  {
    && LoopState(out0, out, DupReport(links, p), needHdr)
    && (inmatch <==> p != [] && p[|p| - 1].dup)
    && (p != [] ==> HeadLeft(links, LastGroup(IsDup, p)) == if inmatch then headfn else Fn(p[|p| - 1].name))
  }

  function HeadLeft(links: bool, g: seq<FileDesc>): Fn
    requires g != []
  {
    if Shown(links, g[1..]) == [] then Fn(g[0].name) else Null
  }

  /** What is printed for a duplicate x, and the head that is then left to print. */
  function DupLines(links: bool, needHdr: bool, headfn: Fn, x: FileDesc): seq<Line> {
    if links || !x.lnk then
      (if needHdr then [DupTitle(links)] else [])
      + ((match headfn case Null => [] case Fn(n) => [File(n)]) + [Listed(DUP, x.name)])
    else []
  }

  lemma ReportedHead(links: bool, out0: seq<Line>, out: seq<Line>, p: seq<FileDesc>, x: FileDesc, needHdr: bool,
      inmatch: bool, headfn: Fn)
    requires Reported(links, out0, out, p, needHdr, inmatch, headfn) && !x.dup
    ensures Reported(links, out0, out, p + [x], needHdr, false, headfn)
  {
    ReportStarts(IsDup, DupTitle(links), DUP, links, p, x);
    HeadAlone(links, x);
    hide Report, LastGroup, HeadLeft;
  }

  lemma DupReportGrows(links: bool, p: seq<FileDesc>, x: FileDesc)
    requires x.dup && p != []
    ensures var r := DupReport(links, p);
            DupReport(links, p + [x]) == r + DupLines(links, r == [], HeadLeft(links, LastGroup(IsDup, p)), x)
  {
    ReportGrows(IsDup, DupTitle(links), DUP, links, p, x);
    hide Report, LastGroup, Shown;
  }

  lemma HeadLeftGrows(links: bool, g: seq<FileDesc>, x: FileDesc)
    requires g != []
    ensures HeadLeft(links, g + [x]) == if links || !x.lnk then Null else HeadLeft(links, g)
  {
    assert (g + [x])[1..] == g[1..] + [x] && (g + [x])[0] == g[0];
    ShownOfMore(links, g[1..], x);
    hide Shown;
  }

  lemma HeadAlone(links: bool, x: FileDesc)
    ensures HeadLeft(links, [x]) == Fn(x.name)
  {
  }

  lemma ReportedDup(links: bool, out0: seq<Line>, out: seq<Line>, p: seq<FileDesc>, x: FileDesc, needHdr: bool,
      inmatch: bool, headfn: Fn)
    requires Reported(links, out0, out, p, needHdr, inmatch, headfn) && x.dup && p != []
    ensures var h, shown := if inmatch then headfn else Fn(p[|p| - 1].name), links || !x.lnk;
            Reported(links, out0, out + DupLines(links, needHdr, h, x), p + [x], needHdr && !shown, true,
                     if shown then Null else h)
  {
    var h := if inmatch then headfn else Fn(p[|p| - 1].name);
    var more := DupLines(links, needHdr, h, x);
    LastGroupGrows(IsDup, p, x);
    DupReportGrows(links, p, x);
    HeadLeftGrows(links, LastGroup(IsDup, p), x);
    DupLinesEmpty(links, needHdr, h, x);
    LoopStateGrows(out0, out, DupReport(links, p), needHdr, more);
    hide DupReport, LastGroup, HeadLeft, DupLines;
    assert (needHdr <==> DupReport(links, p) == []) && h == HeadLeft(links, LastGroup(IsDup, p));
    hide LoopState;
    assert DupReport(links, p + [x]) == DupReport(links, p) + more;
  }

  lemma DupLinesEmpty(links: bool, needHdr: bool, headfn: Fn, x: FileDesc)
    ensures DupLines(links, needHdr, headfn, x) == [] <==> !links && x.lnk
  {
  }

  // ----- the groups are the content classes -----

  /** gs cuts s, in order, into the classes of equal contents. */
  ghost predicate Partition(w: World, gs: seq<seq<FileDesc>>, s: seq<FileDesc>) {
    && Flatten(gs) == s
    && (forall a :: 0 <= a < |gs| ==> OneContent(w, gs[a]))
    && forall a, b {:trigger Disjoint(w, gs[a], gs[b])} :: 0 <= a < b < |gs| ==> Disjoint(w, gs[a], gs[b])
  }

  ghost predicate OneContent(w: World, g: seq<FileDesc>) {
    forall x, y :: x in g && y in g ==> Same(w, x, y)
  }

  ghost predicate Disjoint(w: World, g: seq<FileDesc>, h: seq<FileDesc>) {
    forall x, y :: x in g && y in h ==> !Same(w, x, y)
  }

  lemma {:induction false} FlattenMembers<T>(ss: seq<seq<T>>)
    ensures forall i, x :: 0 <= i < |ss| && x in ss[i] ==> x in Flatten(ss)
  {
    if ss != [] {
      FlattenMembers(ss[..|ss| - 1]);
    }
  }

  lemma PrefixKeeps(w: World, s: seq<FileDesc>, n: nat)
    requires FlagsRight(w, s, |s|) && Grouped(w, s, |s|) && n <= |s|
    ensures FlagsRight(w, s[..n], n) && Grouped(w, s[..n], n)
  {
    var t := s[..n];
    forall i | 0 <= i < |t|
      ensures FlagRight(w, t, n, i)
    {
      assert FlagRight(w, s, |s|, i);
    }
    forall i, k, j | 0 <= i <= k <= j < n
      ensures Between(w, t, i, k, j)
    {
      assert Between(w, s, i, k, j);
    }
  }

  /** The last group ends with the last file. */
  lemma LastOfGroups(joins: FileDesc -> bool, s: seq<FileDesc>)
    requires s != []
    ensures var gs := Groups(joins, s); s[|s| - 1] in gs[|gs| - 1]
  {
  }

  lemma NewGroup(w: World, gs: seq<seq<FileDesc>>, s: seq<FileDesc>, x: FileDesc)
    requires Partition(w, gs, s) && forall f :: f in s ==> !Same(w, f, x)
    ensures Partition(w, gs + [[x]], s + [x])
  {
    FlattenMembers(gs);
    var hs := gs + [[x]];
    assert hs[..|gs|] == gs;
    forall a, b | 0 <= a < b < |hs|
      ensures Disjoint(w, hs[a], hs[b])
    {
      assert b < |gs| ==> Disjoint(w, gs[a], gs[b]);
    }
  }

  lemma LongerGroup(w: World, gs: seq<seq<FileDesc>>, s: seq<FileDesc>, y: FileDesc, x: FileDesc)
    requires Partition(w, gs, s) && gs != [] && y in gs[|gs| - 1] && Same(w, y, x)
    ensures Partition(w, gs[..|gs| - 1] + [gs[|gs| - 1] + [x]], s + [x])
  {
    var m := |gs| - 1;
    var hs := gs[..m] + [gs[m] + [x]];
    assert hs[..m] == gs[..m];
    assert OneContent(w, gs[m]);
    forall a, b | 0 <= a < b < |hs|
      ensures Disjoint(w, hs[a], hs[b])
    {
      assert Disjoint(w, gs[a], gs[b]);
    }
  }

  /** When the flags are right and equal contents stand together, the groups are the classes. */
  lemma {:induction false} GroupsPartition(w: World, s: seq<FileDesc>)
    requires FlagsRight(w, s, |s|) && Grouped(w, s, |s|)
    ensures Partition(w, Groups(IsDup, s), s)
  {
    if s != [] {
      var n := |s| - 1;
      var t, x := s[..n], s[n];
      PrefixKeeps(w, s, n);
      GroupsPartition(w, t);
      assert s == t + [x];
      GroupsOfMore(IsDup, t, x);
      assert FlagRight(w, s, |s|, n);
      if x.dup {
        LastOfGroups(IsDup, t);
        hide Partition, Groups;
        LongerGroup(w, Groups(IsDup, t), t, t[n - 1], x);
      } else {
        forall f | f in t
          ensures !Same(w, f, x)
        {
          var i :| 0 <= i < n && t[i] == f;
          assert Between(w, s, i, n - 1, n);
        }
        hide Partition, Groups;
        NewGroup(w, Groups(IsDup, t), t, x);
      }
    }
  }

  // ----- one name per inode -----

  /** No two files of the list that are not links have the same inode. */
  ghost predicate RepsApart(s: seq<FileDesc>) {
    forall i, j :: 0 <= i < j < |s| && !s[i].lnk && !s[j].lnk ==> !SameInode(s[i], s[j])
  }

  /** Every inode has a file that is not a link. */
  ghost predicate RepsExist(s: seq<FileDesc>) {
    forall f :: f in s ==> HasRep(s, f)
  }

  ghost predicate HasRep(s: seq<FileDesc>, f: FileDesc) {
    exists g :: g in s && !g.lnk && SameInode(f, g)
  }

  /** The links of a sorted list, marked: every file with the inode of the file before it. */
  ghost predicate LinksMarked(s: seq<FileDesc>) {
    forall i {:trigger LinkMarked(s, i)} :: 0 <= i < |s| ==> LinkMarked(s, i)
  }

  predicate LinkMarked(s: seq<FileDesc>, i: nat)
    requires i < |s|
  {
    s[i].lnk <==> i > 0 && SameInode(s[i - 1], s[i])
  }

  lemma {:induction false} RepBefore(s: seq<FileDesc>, i: nat)
    requires LinksMarked(s) && i < |s|
    ensures HasRep(s, s[i])
    decreases i
  {
    assert LinkMarked(s, i);
    if s[i].lnk {
      RepBefore(s, i - 1);
      var g :| g in s && !g.lnk && SameInode(s[i - 1], g);
      assert SameInode(s[i], g);
    } else {
      assert s[i] in s && SameInode(s[i], s[i]);
    }
  }

  lemma MarkedReps(w: World, s: seq<FileDesc>)
    requires Consistent(w, s) && Keyed(w, s) && Sorted(s) && LinksMarked(s)
    ensures RepsApart(s) && RepsExist(s)
  {
    forall i, j | 0 <= i < j < |s| && !s[i].lnk && !s[j].lnk
      ensures !SameInode(s[i], s[j])
    {
      assert LinkMarked(s, j) && s[i] in s && s[j] in s;
      assert AtMost(s[j - 1], s[j]) && (i < j - 1 ==> AtMost(s[i], s[j - 1]));
      if SameInode(s[i], s[j]) {
        SameContentSameKey(w, s, s[i], s[j]);
        assert false;
      }
    }
    forall f | f in s
      ensures HasRep(s, f)
    {
      var i :| 0 <= i < |s| && s[i] == f;
      RepBefore(s, i);
    }
  }

  lemma Twice<T>(s: seq<T>, i: nat, j: nat)
    requires i < j < |s| && s[i] == s[j]
    ensures multiset(s)[s[i]] >= 2
  {
    assert s == s[..i] + [s[i]] + s[i + 1..j] + [s[j]] + s[j + 1..];
  }

  lemma TwicePlaced<T>(s: seq<T>, x: T) returns (i: nat, j: nat)
    requires multiset(s)[x] >= 2
    ensures i < j < |s| && s[i] == x && s[j] == x
  {
    assert x in multiset(s);
    i :| 0 <= i < |s| && s[i] == x && x !in s[..i] by {
      FirstPlace(s, x);
    }
    var t := s[i + 1..];
    assert s == s[..i] + [x] + t;
    assert multiset(s[..i])[x] == 0;
    assert x in multiset(t);
    assert x in t;
    var k :| 0 <= k < |t| && t[k] == x;
    j := i + 1 + k;
  }

  lemma {:induction false} FirstPlace<T>(s: seq<T>, x: T)
    requires x in s
    ensures exists i :: 0 <= i < |s| && s[i] == x && x !in s[..i]
  {
    var n := |s| - 1;
    if x in s[..n] {
      FirstPlace(s[..n], x);
      var i :| 0 <= i < n && s[..n][i] == x && x !in s[..n][..i];
      assert s[..n][..i] == s[..i];
    } else {
      assert s[n] == x;
    }
  }

  /** A scan that only moves files and flags duplicates keeps one name per inode. */
  lemma RepsStay(s: seq<FileDesc>, t: seq<FileDesc>)
    requires RepsApart(s) && RepsExist(s) && SameButDup(s, t)
    ensures RepsApart(t) && RepsExist(t)
  {
    forall i, j | 0 <= i < j < |t| && !t[i].lnk && !t[j].lnk
      ensures !SameInode(t[i], t[j])
    {
      TwoReps(s, t, i, j);
    }
    forall f | f in t
      ensures HasRep(t, f)
    {
      var f0 := ErasedMember(s, t, f);
      assert HasRep(s, f0);
      var g0 :| g0 in s && !g0.lnk && SameInode(f0, g0);
      var g := ErasedMember(t, s, g0);
      assert SameInode(f, g);
    }
  }

  lemma TwoReps(s: seq<FileDesc>, t: seq<FileDesc>, i: nat, j: nat)
    requires RepsApart(s) && SameButDup(s, t)
    requires i < j < |t| && !t[i].lnk && !t[j].lnk
    ensures !SameInode(t[i], t[j])
  {
    var es, et := Map(Erase, s), Map(Erase, t);
    SameMembers(es, et);
    assert et[i] in et && et[j] in et;
    var a :| 0 <= a < |s| && es[a] == et[i];
    var b :| 0 <= b < |s| && es[b] == et[j];
    if a == b {
      Twice(et, i, j);
      var a', b' := TwicePlaced(es, et[i]);
      assert false;
    }
    assert !s[a].lnk && !s[b].lnk;
  }

  /** The reps of a group, head first: what is printed of it without -l's links. */
  ghost predicate OnePerInode(listed: seq<FileDesc>, g: seq<FileDesc>) {
    && PairwiseApart(listed)
    && (forall f :: f in listed ==> f in g)
    && forall f :: f in g ==> HasIn(listed, f)
  }

  lemma {:induction false} ShownMembers(links: bool, s: seq<FileDesc>)
    ensures forall f :: f in Shown(links, s) <==> f in s && (links || !f.lnk)
  {
    if s != [] {
      var n := |s| - 1;
      ShownMembers(links, s[..n]);
      assert s == s[..n] + [s[n]];
      assert forall f :: f in s <==> f in s[..n] || f == s[n];
    }
  }

  lemma {:induction false} ShownApart(s: seq<FileDesc>)
    requires RepsApart(s)
    ensures PairwiseApart(Shown(false, s))
  {
    if s != [] {
      var n := |s| - 1;
      ShownApart(s[..n]);
      ShownMembers(false, s[..n]);
    }
  }

  lemma ShownHead(g: seq<FileDesc>)
    requires g != [] && !g[0].lnk
    ensures Shown(false, g) == [g[0]] + Shown(false, g[1..])
    decreases |g|
  {
    var n := |g| - 1;
    if n > 0 {
      ShownHead(g[..n]);
      assert g[..n][1..] == g[1..][..n - 1];
    }
  }

  lemma {:induction false} GroupRepsApart(joins: FileDesc -> bool, s: seq<FileDesc>, a: nat)
    requires RepsApart(s) && a < |Groups(joins, s)|
    ensures RepsApart(Groups(joins, s)[a])
    ensures forall f :: f in Groups(joins, s)[a] ==> f in s
  {
    var n := |s| - 1;
    var gs, gs0 := Groups(joins, s), Groups(joins, s[..n]);
    if a < |gs0| {
      GroupRepsApart(joins, s[..n], a);
      if gs[a] != gs0[a] {
        assert gs[a] == gs0[a] + [s[n]];
        NoRepBefore(s, gs0[a]);
      }
    }
  }

  lemma NoRepBefore(s: seq<FileDesc>, g: seq<FileDesc>)
    requires RepsApart(s) && RepsApart(g) && s != [] && forall f :: f in g ==> f in s[..|s| - 1]
    ensures RepsApart(g + [s[|s| - 1]])
  {
    var n := |s| - 1;
    forall i | 0 <= i < |g| && !g[i].lnk && !s[n].lnk
      ensures !SameInode(g[i], s[n])
    {
      assert g[i] in g;
      var k :| 0 <= k < n && s[..n][k] == g[i];
      assert s[k] == g[i];
    }
  }

  lemma GroupHeads(joins: FileDesc -> bool, s: seq<FileDesc>, a: nat)
    requires (s != [] ==> !joins(s[0])) && a < |Groups(joins, s)|
    ensures var h := Groups(joins, s)[a][0]; !joins(h) && h in s
    decreases |s|
  {
    var n := |s| - 1;
    var gs0 := Groups(joins, s[..n]);
    if a < |gs0| {
      GroupHeads(joins, s[..n], a);
    }
  }

  ghost predicate InodesWhole(s: seq<FileDesc>, g: seq<FileDesc>) {
    forall x, y :: x in s && y in g && SameInode(x, y) ==> x in g
  }

  ghost predicate TwoInodes(g: seq<FileDesc>) {
    exists x, y :: x in g && y in g && !SameInode(x, y)
  }

  ghost predicate PairwiseApart(l: seq<FileDesc>) {
    forall i, j :: 0 <= i < j < |l| ==> !SameInode(l[i], l[j])
  }

  lemma RepListed(s: seq<FileDesc>, g: seq<FileDesc>, l: seq<FileDesc>, f: FileDesc)
    requires RepsExist(s) && f in s && f in g && InodesWhole(s, g)
    requires forall x :: x in g && !x.lnk ==> x in l
    ensures HasIn(l, f)
  {
    assert HasRep(s, f);
    var r :| r in s && !r.lnk && SameInode(f, r);
    assert SameInode(r, f) && r in g && r in l;
    var i :| 0 <= i < |l| && l[i] == r;
  }

  lemma FirstTwo(g: seq<FileDesc>, l: seq<FileDesc>)
    requires PairwiseApart(l) && (forall f :: f in l ==> f in g) && |l| > 1
    ensures TwoInodes(g)
  {
    assert l[0] in l && l[1] in l && !SameInode(l[0], l[1]);
  }

  lemma AtLeastTwo(g: seq<FileDesc>, l: seq<FileDesc>)
    requires (forall f :: f in g ==> HasIn(l, f)) && TwoInodes(g)
    ensures |l| > 1
  {
    var x, y :| x in g && y in g && !SameInode(x, y);
    assert HasIn(l, x) && HasIn(l, y);
    var i :| 0 <= i < |l| && SameInode(x, l[i]);
    var j :| 0 <= j < |l| && SameInode(y, l[j]);
    assert i != j;
  }

  lemma OneEach(s: seq<FileDesc>, g: seq<FileDesc>, l: seq<FileDesc>)
    requires RepsExist(s) && (forall f :: f in g ==> f in s) && InodesWhole(s, g)
    requires (forall f :: f in l <==> f in g && !f.lnk) && PairwiseApart(l)
    ensures OnePerInode(l, g) && (|l| > 1 <==> TwoInodes(g))
  {
    hide RepsExist, InodesWhole, PairwiseApart, HasIn, TwoInodes;
    forall f | f in g
      ensures HasIn(l, f)
    {
      RepListed(s, g, l, f);
    }
    if |l| > 1 {
      FirstTwo(g, l);
    }
    if TwoInodes(g) {
      AtLeastTwo(g, l);
    }
  }

  ghost predicate HasIn(l: seq<FileDesc>, f: FileDesc) {
    exists i :: 0 <= i < |l| && SameInode(f, l[i])
  }

  /**
    Without links, a class is printed exactly when it has at least two inodes, and what is printed
    of it, head included, is one name for each of its inodes.
  */
  lemma LinkFreeEntry(s: seq<FileDesc>, a: nat)
    requires RepsApart(s) && RepsExist(s) && HeadsUnlinked(s, |s|) && (s != [] ==> !s[0].dup)
    requires a < |Groups(IsDup, s)| && InodesWhole(s, Groups(IsDup, s)[a])
    ensures var g := Groups(IsDup, s)[a];
            && OnePerInode([g[0]] + Shown(false, g[1..]), g)
            && (Entry(DUP, false, g) != [] <==> TwoInodes(g))
  {
    var g := Groups(IsDup, s)[a];
    GroupRepsApart(IsDup, s, a);
    GroupHeads(IsDup, s, a);
    assert !g[0].lnk;
    var l := Shown(false, g);
    ShownHead(g);
    ShownMembers(false, g);
    ShownApart(g);
    assert PairwiseApart(l);
    assert Entry(DUP, false, g) != [] <==> Shown(false, g[1..]) != [];
    hide *;
    OneEach(s, g, l);
  }

  lemma {:induction false} FlattenCovers<T>(ss: seq<seq<T>>, x: T) returns (i: nat)
    requires x in Flatten(ss)
    ensures i < |ss| && x in ss[i]
  {
    var n := |ss| - 1;
    if x in ss[n] {
      i := n;
    } else {
      i := FlattenCovers(ss[..n], x);
    }
  }

  lemma ClassHasItsInodes(w: World, gs: seq<seq<FileDesc>>, s: seq<FileDesc>, a: nat)
    requires Consistent(w, s) && Partition(w, gs, s) && a < |gs|
    ensures InodesWhole(s, gs[a])
  {
    FlattenMembers(gs);
    forall x, y | x in s && y in gs[a] && SameInode(x, y)
      ensures x in gs[a]
    {
      var b := FlattenCovers(gs, x);
      assert a < b ==> Disjoint(w, gs[a], gs[b]);
      assert b < a ==> Disjoint(w, gs[b], gs[a]);
      assert Same(w, x, y) && Same(w, y, x);
    }
  }

  // ----- the answer -----

  /** The outcome of the whole scan on the files of `given`. */
  ghost predicate Answer(w: World, given: seq<FileDesc>, s: seq<FileDesc>) {
    && SameFiles(s, given) && Consistent(w, s)
    && Partition(w, Groups(IsDup, s), s)
    && RepsApart(s) && RepsExist(s) && HeadsUnlinked(s, |s|) && (s != [] ==> !s[0].dup)
  }

  /** l is part of g, in the order of g. */
  ghost predicate PartOf(l: seq<FileDesc>, g: seq<FileDesc>) {
    exists at: seq<nat> :: Picks(at, l, g)
  }

  predicate Picks(at: seq<nat>, l: seq<FileDesc>, g: seq<FileDesc>) {
    && |at| == |l|
    && (forall i :: 0 <= i < |at| ==> at[i] < |g| && l[i] == g[at[i]])
    && forall i, j :: 0 <= i < j < |at| ==> at[i] < at[j]
  }

  /** The lines for the files of l: none for fewer than two; else a File line for the first, a tagged line for each other. */
  predicate ListedAs(tag: Tag, l: seq<FileDesc>, e: seq<Line>) {
    if |l| < 2 then e == []
    else
      && |e| == |l| && e[0] == File(l[0].name)
      && forall i :: 0 < i < |l| ==> e[i] == Listed(tag, l[i].name)
  }

  /** The lines for a class without its links: its head and one more name for each other inode, in order. */
  ghost predicate ListedPerInode(g: seq<FileDesc>, e: seq<Line>) {
    g != [] && exists l :: l != [] && l[0] == g[0] && PartOf(l, g) && OnePerInode(l, g) && ListedAs(DUP, l, e)
  }

  lemma {:induction false} ShownPicks(links: bool, s: seq<FileDesc>) returns (at: seq<nat>)
    ensures Picks(at, Shown(links, s), s)
  {
    at := [];
    if s != [] {
      var n := |s| - 1;
      at := ShownPicks(links, s[..n]);
      if links || !s[n].lnk {
        at := at + [n];
      }
    }
  }

  lemma HeadPicks(g: seq<FileDesc>, l: seq<FileDesc>, at: seq<nat>)
    requires g != [] && Picks(at, l, g[1..])
    ensures PartOf([g[0]] + l, g)
  {
    var more: seq<nat> := [0] + seq(|at|, i requires 0 <= i < |at| => at[i] + 1);
    assert Picks(more, [g[0]] + l, g);
  }

  /**
    With -l, the lines of a class are one name for each of its inodes, in the order of the list: a File
    line and then DUP lines, and none at all if there is one inode.
  */
  lemma AnswerPerInode(w: World, given: seq<FileDesc>, s: seq<FileDesc>, a: nat)
    requires Answer(w, given, s) && a < |Groups(IsDup, s)|
    ensures var g := Groups(IsDup, s)[a];
            ListedPerInode(g, Entry(DUP, false, g)) && (Entry(DUP, false, g) != [] <==> TwoInodes(g))
  {
    ClassHasItsInodes(w, Groups(IsDup, s), s, a);
    LinkFreeEntry(s, a);
    var g := Groups(IsDup, s)[a];
    var l := [g[0]] + Shown(false, g[1..]);
    var at := ShownPicks(false, g[1..]);
    HeadPicks(g, Shown(false, g[1..]), at);
    EntryLines(DUP, false, g);
    hide *;
    assert l != [] && l[0] == g[0];
  }

  lemma EntryLines(tag: Tag, links: bool, g: seq<FileDesc>)
    requires g != []
    ensures ListedAs(tag, [g[0]] + Shown(links, g[1..]), Entry(tag, links, g))
  {
    hide Shown;
  }

  /** Without -l, they are all names of the class, if there are at least two. */
  lemma AnswerPerFile(w: World, given: seq<FileDesc>, s: seq<FileDesc>, a: nat)
    requires Answer(w, given, s) && a < |Groups(IsDup, s)|
    ensures ListedAs(DUP, Groups(IsDup, s)[a], Entry(DUP, true, Groups(IsDup, s)[a]))
  {
    var g := Groups(IsDup, s)[a];
    ShownAll(g[1..]);
    EntryLines(DUP, true, g);
    assert [g[0]] + g[1..] == g;
  }

  lemma {:induction false} EntriesInOrder(tag: Tag, links: bool, gs: seq<seq<FileDesc>>) returns (ls: seq<seq<Line>>)
    requires forall i :: 0 <= i < |gs| ==> gs[i] != []
    ensures |ls| == |gs| && Flatten(ls) == Entries(tag, links, gs)
    ensures forall a :: 0 <= a < |gs| ==> ls[a] == Entry(tag, links, gs[a])
  {
    hide Entry;
    if gs == [] {
      ls := [];
    } else {
      var n := |gs| - 1;
      var before := EntriesInOrder(tag, links, gs[..n]);
      ls := before + [Entry(tag, links, gs[n])];
      assert ls[..n] == before;
      assert forall a :: 0 <= a < n ==> gs[..n][a] == gs[a];
    }
  }

  /** A title, if anything is to be printed, and the parts in their order. */
  predicate TitledParts(title: Line, ls: seq<seq<Line>>, out: seq<Line>) {
    out == if Flatten(ls) == [] then [] else [title] + Flatten(ls)
  }

  /** The whole report with -l: its title, and class by class what AnswerPerInode says. */
  lemma ReportPerInode(w: World, given: seq<FileDesc>, s: seq<FileDesc>) returns (ls: seq<seq<Line>>)
    requires Answer(w, given, s)
    ensures |ls| == |Groups(IsDup, s)| && TitledParts(DupTitle(false), ls, DupReport(false, s))
    ensures forall a :: 0 <= a < |ls| ==> ListedPerInode(Groups(IsDup, s)[a], ls[a])
    ensures forall a :: 0 <= a < |ls| ==> (ls[a] != [] <==> TwoInodes(Groups(IsDup, s)[a]))
  {
    ls := EntriesInOrder(DUP, false, Groups(IsDup, s));
    hide Answer, ListedPerInode, TwoInodes, Entries, Entry, Groups, Flatten;
    forall a | 0 <= a < |ls|
      ensures ListedPerInode(Groups(IsDup, s)[a], ls[a]) && (ls[a] != [] <==> TwoInodes(Groups(IsDup, s)[a]))
    {
      AnswerPerInode(w, given, s, a);
    }
  }

  /** The whole report without -l. */
  lemma ReportPerFile(w: World, given: seq<FileDesc>, s: seq<FileDesc>) returns (ls: seq<seq<Line>>)
    requires Answer(w, given, s)
    ensures |ls| == |Groups(IsDup, s)| && TitledParts(DupTitle(true), ls, DupReport(true, s))
    ensures forall a :: 0 <= a < |ls| ==> ListedAs(DUP, Groups(IsDup, s)[a], ls[a])
  {
    ls := EntriesInOrder(DUP, true, Groups(IsDup, s));
    hide Answer, ListedAs, Entries, Entry, Groups, Flatten;
    forall a | 0 <= a < |ls|
      ensures ListedAs(DUP, Groups(IsDup, s)[a], ls[a])
    {
      AnswerPerFile(w, given, s, a);
    }
  }

  // ----- the summary of the links -----

  /** gs cuts s, in order, into its inodes. */
  ghost predicate InodePartition(gs: seq<seq<FileDesc>>, s: seq<FileDesc>) {
    && Flatten(gs) == s
    && (forall a :: 0 <= a < |gs| ==> OneInode(gs[a]))
    && forall a, b {:trigger InodesApart(gs[a], gs[b])} :: 0 <= a < b < |gs| ==> InodesApart(gs[a], gs[b])
  }

  ghost predicate OneInode(g: seq<FileDesc>) {
    forall x, y :: x in g && y in g ==> SameInode(x, y)
  }

  ghost predicate InodesApart(g: seq<FileDesc>, h: seq<FileDesc>) {
    forall x, y :: x in g && y in h ==> !SameInode(x, y)
  }

  lemma NewInode(gs: seq<seq<FileDesc>>, s: seq<FileDesc>, x: FileDesc)
    requires InodePartition(gs, s) && forall f :: f in s ==> !SameInode(f, x)
    ensures InodePartition(gs + [[x]], s + [x])
  {
    FlattenMembers(gs);
    var hs := gs + [[x]];
    assert hs[..|gs|] == gs;
    forall a, b | 0 <= a < b < |hs|
      ensures InodesApart(hs[a], hs[b])
    {
      assert b < |gs| ==> InodesApart(gs[a], gs[b]);
    }
  }

  lemma LongerInode(gs: seq<seq<FileDesc>>, s: seq<FileDesc>, y: FileDesc, x: FileDesc)
    requires InodePartition(gs, s) && gs != [] && y in gs[|gs| - 1] && SameInode(y, x)
    ensures InodePartition(gs[..|gs| - 1] + [gs[|gs| - 1] + [x]], s + [x])
  {
    var m := |gs| - 1;
    var hs := gs[..m] + [gs[m] + [x]];
    assert hs[..m] == gs[..m];
    assert OneInode(gs[m]);
    forall a, b | 0 <= a < b < |hs|
      ensures InodesApart(hs[a], hs[b])
    {
      assert InodesApart(gs[a], gs[b]);
    }
  }

  lemma MarkedPrefix(s: seq<FileDesc>, n: nat)
    requires LinksMarked(s) && RepsApart(s) && n <= |s|
    ensures LinksMarked(s[..n]) && RepsApart(s[..n])
  {
    forall i | 0 <= i < n
      ensures LinkMarked(s[..n], i)
    {
      assert LinkMarked(s, i);
    }
  }

  /** The groups of the marked list are its inodes. */
  lemma {:induction false} GroupsAreInodes(s: seq<FileDesc>)
    requires LinksMarked(s) && RepsApart(s)
    ensures InodePartition(Groups(IsLnk, s), s)
  {
    if s != [] {
      var n := |s| - 1;
      var t, x := s[..n], s[n];
      MarkedPrefix(s, n);
      GroupsAreInodes(t);
      assert s == t + [x];
      GroupsOfMore(IsLnk, t, x);
      assert LinkMarked(s, n);
      if x.lnk {
        LastOfGroups(IsLnk, t);
        hide InodePartition, Groups;
        LongerInode(Groups(IsLnk, t), t, t[n - 1], x);
      } else {
        forall f | f in t
          ensures !SameInode(f, x)
        {
          var i :| 0 <= i < n && t[i] == f;
          RepBefore(t, i);
          var r :| r in t && !r.lnk && SameInode(f, r);
          var k :| 0 <= k < n && t[k] == r;
          assert !SameInode(s[k], s[n]);
        }
        hide InodePartition, Groups;
        NewInode(Groups(IsLnk, t), t, x);
      }
    }
  }

  /** The summary: its title, and for each inode of several files the first name and LINK lines for the others. */
  lemma SummaryPerInode(s: seq<FileDesc>) returns (gs: seq<seq<FileDesc>>, ls: seq<seq<Line>>)
    requires LinksMarked(s) && RepsApart(s)
    ensures InodePartition(gs, s) && |ls| == |gs| && TitledParts(LinkTitle, ls, LinkSummary(s))
    ensures forall a :: 0 <= a < |ls| ==> ListedAs(LINK, gs[a], ls[a])
  {
    GroupsAreInodes(s);
    gs := Groups(IsLnk, s);
    ls := EntriesInOrder(LINK, true, gs);
    hide InodePartition, ListedAs, Entries, Entry, Groups, Flatten;
    forall a | 0 <= a < |ls|
      ensures ListedAs(LINK, gs[a], ls[a])
    {
      ShownAll(gs[a][1..]);
      EntryLines(LINK, true, gs[a]);
      assert [gs[a][0]] + gs[a][1..] == gs[a];
    }
  }

  lemma ScanDone(w: World, given: seq<FileDesc>, s: seq<FileDesc>)
    requires SameFiles(s, given) && Consistent(w, s) && AtHead(w, s, |s|) && RepsApart(s) && RepsExist(s)
    ensures Answer(w, given, s)
  {
    assert Grouped(w, s, |s|) by {
      forall i, k, j | 0 <= i <= k <= j < |s|
        ensures Between(w, s, i, k, j)
      {
      }
    }
    GroupsPartition(w, s);
    assert s != [] ==> FlagRight(w, s, |s|, 0);
  }

  /** What the link marking leaves is where the duplicate scan can start. */
  lemma ScanStarts(w: World, s: seq<FileDesc>)
    requires Sorted(s) && LinksMarked(s) && forall f :: f in s ==> !f.dup
    ensures AtHead(w, s, 0)
  {
    forall i | 0 <= i < |s|
      ensures FlagRight(w, s, 0, i) && LinkMarked(s, i)
    {
      assert s[i] in s;
    }
    forall j | 0 < j < |s|
      ensures LinkFollows(s, j)
    {
      assert LinkMarked(s, j);
    }
    assert s != [] ==> LinkMarked(s, 0);
    forall i, j | 0 <= i < j < |s|
      ensures KeyAtMost(s[i], s[j])
    {
      assert AtMost(s[i], s[j]);
    }
  }
}
