/** Why comparing a segment with the running hull of its predecessors is enough
    (src/utils/elf_util.cpp, ReadProgramHeaders). */
module ElfHull {
  import opened Wrappers
  import opened Words
  import opened Ranges
  import opened ElfFormat

  // Segment k starts below an earlier segment's top and ends above an earlier segment's base:
  // it meets the hull of its predecessors.
  predicate MeetsHull(segs: seq<Segment>, k: nat)
    requires k < |segs|
  {
    && (exists i :: 0 <= i < k && segs[i].memRange.base < segs[k].memRange.top)
    && (exists j :: 0 <= j < k && segs[k].memRange.base < segs[j].memRange.top)
  }

  ghost predicate HullFree(segs: seq<Segment>) {
    forall k :: 0 <= k < |segs| ==> !MeetsHull(segs, k)
  }

  // Segment k lies below all earlier segments, or above all of them.
  predicate OnOneSide(segs: seq<Segment>, k: nat)
    requires k < |segs|
  {
    || (forall i :: 0 <= i < k ==> segs[k].memRange.top <= segs[i].memRange.base)
    || (forall i :: 0 <= i < k ==> segs[i].memRange.top <= segs[k].memRange.base)
  }

  lemma HullFreeExactly(segs: seq<Segment>)
    ensures HullFree(segs) <==> forall k: nat :: k < |segs| ==> OnOneSide(segs, k)
  {
    forall k: nat | k < |segs|
      ensures MeetsHull(segs, k) <==> !OnOneSide(segs, k)
    {
    }
  }

  // hull is the least range that encloses exactly the segments of segs that satisfy keep.
  ghost predicate IsHull(segs: seq<Segment>, keep: Segment -> bool, hull: Range) {
    && (forall i :: 0 <= i < |segs| && keep(segs[i]) ==> hull.ContainsRange(segs[i].memRange))
    && ((forall i :: 0 <= i < |segs| ==> !keep(segs[i])) ==> hull == EMPTY)
    && ((exists i :: 0 <= i < |segs| && keep(segs[i])) ==>
          && (exists i :: 0 <= i < |segs| && keep(segs[i]) && segs[i].memRange.base == hull.base)
          && (exists j :: 0 <= j < |segs| && keep(segs[j]) && segs[j].memRange.top == hull.top))
  }

  const AnySegment: Segment -> bool := (s: Segment) => true
  const Executable: Segment -> bool := (s: Segment) => s.prot.exec

  // The bounds enclose each segment, or each executable one, and begin and end with one of them.
  predicate TightBounds(segs: seq<Segment>, codeOnly: bool, base: nat, top: nat) {
    && (forall i :: 0 <= i < |segs| && (codeOnly ==> segs[i].prot.exec) ==>
          base <= segs[i].memRange.base && segs[i].memRange.top <= top)
    && (exists i :: 0 <= i < |segs| && (codeOnly ==> segs[i].prot.exec) && segs[i].memRange.base == base)
    && (exists j :: 0 <= j < |segs| && (codeOnly ==> segs[j].prot.exec) && segs[j].memRange.top == top)
  }

  // The hull of all segments, and the hull of those that are executable.
  lemma HullsTight(segs: seq<Segment>, total: Range, exec: Range)
    requires IsHull(segs, AnySegment, total) && IsHull(segs, Executable, exec) && exec.base < exec.top
    ensures TightBounds(segs, false, total.base, total.top) && TightBounds(segs, true, exec.base, exec.top)
  {
    var i :| 0 <= i < |segs| && Executable(segs[i]) && segs[i].memRange.base == exec.base;
    assert AnySegment(segs[i]);
    forall k | 0 <= k < |segs|
      ensures total.ContainsRange(segs[k].memRange) && (segs[k].prot.exec ==> exec.ContainsRange(segs[k].memRange))
    {
      assert AnySegment(segs[k]) && (segs[k].prot.exec <==> Executable(segs[k]));
    }
  }

  // The hull, segment by segment.
  ghost function HullOf(segs: seq<Segment>, keep: Segment -> bool): Range {
    if segs == [] then EMPTY
    else
      var n := |segs| - 1;
      var hull := HullOf(segs[..n], keep);
      if keep(segs[n]) then hull.Enlarge(segs[n].memRange) else hull
  }

  lemma {:induction false} HullOfIsHull(segs: seq<Segment>, keep: Segment -> bool)
    requires forall i :: 0 <= i < |segs| ==> segs[i].memRange.base < TWO64
    ensures IsHull(segs, keep, HullOf(segs, keep))
  {
    if segs != [] {
      var n := |segs| - 1;
      HullOfIsHull(segs[..n], keep);
      HullSnoc(segs[..n], keep, segs[n], HullOf(segs[..n], keep));
      assert segs[..n] + [segs[n]] == segs;
    }
  }

  lemma HullUnique(segs: seq<Segment>, keep: Segment -> bool, h: Range, h': Range)
    requires IsHull(segs, keep, h) && IsHull(segs, keep, h')
    ensures h == h'
  {
    if exists i :: 0 <= i < |segs| && keep(segs[i]) {
      var i :| 0 <= i < |segs| && keep(segs[i]) && segs[i].memRange.base == h.base;
      var i' :| 0 <= i' < |segs| && keep(segs[i']) && segs[i'].memRange.base == h'.base;
      var j :| 0 <= j < |segs| && keep(segs[j]) && segs[j].memRange.top == h.top;
      var j' :| 0 <= j' < |segs| && keep(segs[j']) && segs[j'].memRange.top == h'.top;
      assert h.ContainsRange(segs[i'].memRange) && h'.ContainsRange(segs[i].memRange);
      assert h.ContainsRange(segs[j'].memRange) && h'.ContainsRange(segs[j].memRange);
    }
  }

  lemma {:induction false} LoadsBases(phs: seq<Option<Phdr>>, p: nat)
    requires p > 0
    ensures forall i :: 0 <= i < |Loads(phs, p)| ==> Loads(phs, p)[i].memRange.base < TWO64
  {
    if phs != [] {
      LoadsBases(phs[..|phs| - 1], p);
    }
  }

  // A hull of a file's segments is the one that the loop computes.
  lemma LoadsHull(phs: seq<Option<Phdr>>, p: nat, keep: Segment -> bool, hull: Range)
    requires p > 0
    ensures IsHull(Loads(phs, p), keep, hull) <==> hull == HullOf(Loads(phs, p), keep)
  {
    LoadsBases(phs, p);
    HullOfIsHull(Loads(phs, p), keep);
    if IsHull(Loads(phs, p), keep, hull) {
      HullUnique(Loads(phs, p), keep, hull, HullOf(Loads(phs, p), keep));
    }
  }

  lemma {:induction false} LoadsPrefix(phs: seq<Option<Phdr>>, n: nat, p: nat)
    requires p > 0 && n <= |phs|
    ensures Loads(phs[..n], p) <= Loads(phs, p)
  {
    if n == |phs| {
      assert phs[..n] == phs;
    } else {
      var m := |phs| - 1;
      LoadsPrefix(phs[..m], n, p);
      assert phs[..m][..n] == phs[..n];
    }
  }

  // What the loop of ReadProgramHeaders knows after i headers.
  ghost predicate Progress(phs: seq<Option<Phdr>>, i: nat, p: nat, segs: seq<Segment>, total: Range, exec: Range)
    requires p > 0 && i <= |phs|
  {
    && segs == Loads(phs[..i], p)
    && (forall j :: 0 <= j < i ==> GoodHeader(phs[j]))
    && HullFree(segs)
    && IsHull(segs, AnySegment, total)
    && IsHull(segs, Executable, exec)
  }

  // Header i is the one at which ReadProgramHeaders gives up: those before it are good and their
  // segments do not meet, and it is not good or its segment meets their hull.
  ghost predicate StopsAt(phs: seq<Option<Phdr>>, i: nat, p: nat)
    requires p > 0
  {
    && i < |phs| && GoodHeaders(phs[..i]) && HullFree(Loads(phs[..i], p))
    && (GoodHeader(phs[i]) ==> IsLoad(phs[i]) && !HullFree(Loads(phs[..i + 1], p)))
  }

  // What a failed ReadProgramHeaders leaves behind: the segments of the headers before the one at
  // which it stopped, after those that were there, and their hulls.
  ghost predicate LeftBehind(phs: seq<Option<Phdr>>, p: nat, before: seq<Segment>, segs: seq<Segment>,
                             total: Range, exec: Range)
    requires p > 0
  {
    exists i: nat :: StopsAt(phs, i, p) && segs == before + Loads(phs[..i], p)
                     && IsHull(Loads(phs[..i], p), AnySegment, total) && IsHull(Loads(phs[..i], p), Executable, exec)
  }

  lemma ProgressSkip(phs: seq<Option<Phdr>>, i: nat, p: nat, segs: seq<Segment>, total: Range, exec: Range)
    requires p > 0 && i < |phs| && Progress(phs, i, p, segs, total, exec)
    requires GoodHeader(phs[i]) && !IsLoad(phs[i])
    ensures Progress(phs, i + 1, p, segs, total, exec)
  {
    assert phs[..i + 1][..i] == phs[..i];
  }

  lemma ProgressStop(phs: seq<Option<Phdr>>, i: nat, p: nat, segs: seq<Segment>, total: Range, exec: Range)
    requires p > 0 && i < |phs| && Progress(phs, i, p, segs, total, exec)
    requires IsLoad(phs[i]) && total.Intersects(SegmentOf(phs[i].value, p).memRange)
    ensures !HullFree(Loads(phs, p)) && !HullFree(Loads(phs[..i + 1], p))
  {
    var info := SegmentOf(phs[i].value, p);
    assert phs[..i + 1][..i] == phs[..i];
    LoadsPrefix(phs, i + 1, p);
    HullMeets(segs, info, total);
    MeetsHullStays(segs, info, Loads(phs[..i + 1], p));
    MeetsHullStays(segs, info, Loads(phs, p));
  }

  lemma ProgressLeaves(phs: seq<Option<Phdr>>, i: nat, p: nat, segs: seq<Segment>, total: Range, exec: Range,
                       before: seq<Segment>)
    requires p > 0 && i < |phs| && Progress(phs, i, p, segs, total, exec)
    requires GoodHeader(phs[i]) ==> IsLoad(phs[i]) && !HullFree(Loads(phs[..i + 1], p))
    ensures LeftBehind(phs, p, before, before + segs, total, exec)
  {
    assert StopsAt(phs, i, p);
  }

  lemma ProgressTake(phs: seq<Option<Phdr>>, i: nat, p: nat, segs: seq<Segment>, total: Range, exec: Range)
    requires p > 0 && i < |phs| && Progress(phs, i, p, segs, total, exec)
    requires GoodHeader(phs[i]) && IsLoad(phs[i])
    requires !total.Intersects(SegmentOf(phs[i].value, p).memRange)
    ensures var info := SegmentOf(phs[i].value, p);
      Progress(phs, i + 1, p, segs + [info], total.Enlarge(info.memRange),
               if Executable(info) then exec.Enlarge(info.memRange) else exec)
  {
    var info := SegmentOf(phs[i].value, p);
    assert phs[..i + 1][..i] == phs[..i];
    HullMeets(segs, info, total);
    HullFreeSnoc(segs, info);
    HullSnoc(segs, AnySegment, info, total);
    HullSnoc(segs, Executable, info, exec);
  }

  // What header i does to the loop of ReadProgramHeaders: it is skipped, its segment is taken, or
  // the call fails.
  lemma ProgressStep(phs: seq<Option<Phdr>>, i: nat, p: nat, segs: seq<Segment>, total: Range, exec: Range,
                     before: seq<Segment>)
    requires p > 0 && i < |phs| && Progress(phs, i, p, segs, total, exec)
    ensures !GoodHeader(phs[i]) ==> LeftBehind(phs, p, before, before + segs, total, exec)
    ensures GoodHeader(phs[i]) && !IsLoad(phs[i]) ==>
      Progress(phs, i + 1, p, segs, total, exec) && Loads(phs[..i + 1], p) == segs
    ensures GoodHeader(phs[i]) && IsLoad(phs[i]) ==>
      var info := SegmentOf(phs[i].value, p);
      && Loads(phs[..i + 1], p) == segs + [info]
      && if total.Intersects(info.memRange)
      then !HullFree(Loads(phs, p)) && LeftBehind(phs, p, before, before + segs, total, exec)
      else Progress(phs, i + 1, p, segs + [info], total.Enlarge(info.memRange),
                    if Executable(info) then exec.Enlarge(info.memRange) else exec)
  {
    assert phs[..i + 1][..i] == phs[..i];
    if !GoodHeader(phs[i]) {
      ProgressLeaves(phs, i, p, segs, total, exec, before);
    } else if !IsLoad(phs[i]) {
      ProgressSkip(phs, i, p, segs, total, exec);
    } else if total.Intersects(SegmentOf(phs[i].value, p).memRange) {
      ProgressStop(phs, i, p, segs, total, exec);
      ProgressLeaves(phs, i, p, segs, total, exec, before);
    } else {
      ProgressTake(phs, i, p, segs, total, exec);
    }
  }

  // Comparing with the running hull is comparing with every pair of earlier segments.
  lemma HullMeets(segs: seq<Segment>, seg: Segment, hull: Range)
    requires IsHull(segs, AnySegment, hull)
    requires seg.memRange.top < TWO64
    ensures hull.Intersects(seg.memRange) <==> MeetsHull(segs + [seg], |segs|)
  {
    var all, k := segs + [seg], |segs|;
    assert all[k] == seg && forall i :: 0 <= i < k ==> all[i] == segs[i] && AnySegment(segs[i]);
    if k > 0 {
      assert AnySegment(segs[0]);
      var i :| 0 <= i < k && segs[i].memRange.base == hull.base;
      var j :| 0 <= j < k && segs[j].memRange.top == hull.top;
      assert all[i] == segs[i] && all[j] == segs[j];
      if MeetsHull(all, k) {
        var i' :| 0 <= i' < k && all[i'].memRange.base < seg.memRange.top;
        var j' :| 0 <= j' < k && seg.memRange.base < all[j'].memRange.top;
        assert hull.ContainsRange(segs[i'].memRange) && hull.ContainsRange(segs[j'].memRange);
      }
    }
  }

  lemma MeetsHullStays(segs: seq<Segment>, seg: Segment, all: seq<Segment>)
    requires segs + [seg] <= all && MeetsHull(segs + [seg], |segs|)
    ensures !HullFree(all)
  {
    var k := |segs|;
    var i :| 0 <= i < k && (segs + [seg])[i].memRange.base < seg.memRange.top;
    var j :| 0 <= j < k && seg.memRange.base < (segs + [seg])[j].memRange.top;
    assert all[k] == (segs + [seg])[k] && all[i] == (segs + [seg])[i] && all[j] == (segs + [seg])[j];
    assert MeetsHull(all, k);
  }

  lemma HullFreeSnoc(segs: seq<Segment>, seg: Segment)
    requires HullFree(segs) && !MeetsHull(segs + [seg], |segs|)
    ensures HullFree(segs + [seg])
  {
    var all := segs + [seg];
    forall k | 0 <= k < |all|
      ensures !MeetsHull(all, k)
    {
      if k < |segs| {
        assert !MeetsHull(segs, k);
        assert forall i :: 0 <= i <= k ==> all[i] == segs[i];
      }
    }
  }

  lemma HullSnoc(segs: seq<Segment>, keep: Segment -> bool, seg: Segment, hull: Range)
    requires IsHull(segs, keep, hull)
    requires seg.memRange.base < TWO64
    ensures IsHull(segs + [seg], keep, if keep(seg) then hull.Enlarge(seg.memRange) else hull)
  {
    var all, n := segs + [seg], |segs|;
    assert all[n] == seg && forall i :: 0 <= i < n ==> all[i] == segs[i];
    if exists i :: 0 <= i < n && keep(segs[i]) {
      var i :| 0 <= i < n && keep(segs[i]) && segs[i].memRange.base == hull.base;
      var j :| 0 <= j < n && keep(segs[j]) && segs[j].memRange.top == hull.top;
      assert keep(all[i]) && keep(all[j]);
    }
  }

  // Segments accepted by the running-hull test share no page, in whatever order they appear.
  lemma AcceptedPagesDisjoint(segs: seq<Segment>, p: nat)
    requires p > 0 && HullFree(segs)
    requires forall i :: 0 <= i < |segs| ==> Aligned(segs[i].memRange.base, p)
    ensures PagesDisjoint(segs, p)
  {
    forall i, j | 0 <= i < j < |segs|
      ensures PagesApart(segs[i], segs[j], p)
    {
      assert !MeetsHull(segs, j);
      RoundUpLeast(segs[i].memRange.top, p);
      RoundUpLeast(segs[j].memRange.top, p);
    }
  }

  // Segments in ascending order, as the gABI demands, never meet the hull of their predecessors.
  lemma AscendingAccepted(segs: seq<Segment>)
    requires forall i, j :: 0 <= i < j < |segs| ==> segs[i].memRange.top <= segs[j].memRange.base
    ensures HullFree(segs)
  {
    forall k | 0 <= k < |segs|
      ensures !MeetsHull(segs, k)
    {
      assert forall j :: 0 <= j < k ==> segs[j].memRange.top <= segs[k].memRange.base;
    }
  }
}
