/**
 elf_utils.py, get_spike_memory_map from the list of segments on: low segments
 and the tohost and fromhost pages are rounded to pages and merged where they
 overlap.
 */
module RegionMerge {

  const DRAM_BASE := 0x8000_0000
  const PAGE := 0x1000

  datatype Region = Region(base: nat, size: nat) {
    function End(): nat { base + size }

    predicate Contains(a: int) {
      base <= a < End()
    }
  }

  datatype Option<T> = None | Some(value: T)

  /** Intervals that share no address. */
  predicate Apart(r: Region, s: Region) {
    r.End() <= s.base || s.End() <= r.base
  }

  // ------------------------------------------------------------- inputs

  /** A segment rounded to pages. */
  function Rounded(vaddr: nat, memsz: nat): Region {
    var base := vaddr / PAGE * PAGE;
    Region(base, (vaddr + memsz + PAGE - 1) / PAGE * PAGE - base)
  }

  /** The regions to map: low segments in order, then the pages of tohost and fromhost. */
  function Inputs(segments: seq<(nat, nat)>, comm: seq<nat>): seq<Region> {
    LowSegments(segments) + LowPages(comm)
  }

  function LowSegments(segments: seq<(nat, nat)>): seq<Region> {
    if segments == [] then []
    else
      var (vaddr, memsz) := segments[|segments| - 1];
      LowSegments(segments[..|segments| - 1]) + LowRegion(Rounded(vaddr, memsz))
  }

  /** Nothing at or above the start of DRAM needs a mapping. */
  function LowRegion(r: Region): seq<Region> {
    if r.base >= DRAM_BASE then [] else [r]
  }

  function LowPages(comm: seq<nat>): seq<Region> {
    if comm == [] then []
    else
      var a := comm[|comm| - 1];
      LowPages(comm[..|comm| - 1]) + (if a != 0 && a < DRAM_BASE then [Region(a / PAGE * PAGE, PAGE)] else [])
  }

  predicate Aligned(r: Region) {
    r.base % PAGE == 0 && r.size % PAGE == 0
  }

  // --------------------------------------------------------------- union

  ghost predicate Covered(list: seq<Region>, a: int) {
    exists i :: 0 <= i < |list| && list[i].Contains(a)
  }

  /** Two neighbouring addresses lie in one region. */
  predicate Spans(r: Region, a: int) {
    r.Contains(a) && r.Contains(a + 1)
  }

  ghost predicate Joined(list: seq<Region>, a: int) {
    exists i :: 0 <= i < |list| && Spans(list[i], a)
  }

  predicate PairwiseApart(list: seq<Region>) {
    forall i, j :: 0 <= i < j < |list| ==> Apart(list[i], list[j])
  }

  predicate NonEmpty(list: seq<Region>) {
    forall i :: 0 <= i < |list| ==> list[i].size > 0
  }

  predicate AllAligned(list: seq<Region>) {
    forall i :: 0 <= i < |list| ==> Aligned(list[i])
  }

  predicate Sorted(list: seq<Region>) {
    forall i, j :: 0 <= i < j < |list| ==> list[i].base <= list[j].base
  }

  /** The same addresses, grouped alike: neighbours lie in one region of one list exactly if they do in the other. */
  ghost predicate SameUnion(a: seq<Region>, b: seq<Region>) {
    forall x: int :: Covered(a, x) <==> Covered(b, x)
  }

  ghost predicate SameGroups(a: seq<Region>, b: seq<Region>) {
    forall x: int :: Joined(a, x) <==> Joined(b, x)
  }

  // --------------------------------------------------------------- merge

  /** The regions that do not overlap a new one. */
  function Keep(list: seq<Region>, r: Region): seq<Region> {
    if list == [] then []
    else Keep(list[..|list| - 1], r) + (if Apart(r, list[|list| - 1]) then [list[|list| - 1]] else [])
  }

  function Min(a: nat, b: nat): nat {
    if a < b then a else b
  }

  function Max(a: nat, b: nat): nat {
    if a < b then b else a
  }

  /** The new region grown to take in those that overlap it. */
  function Grown(list: seq<Region>, r: Region): (g: Region)
    ensures g.base <= r.base && r.End() <= g.End()
  {
    if list == [] then r
    else
      var g := Grown(list[..|list| - 1], r);
      var last := list[|list| - 1];
      if Apart(r, last) then g else Span(Min(g.base, last.base), Max(g.End(), last.End()))
  }

  function Span(lo: nat, hi: nat): Region
    requires lo <= hi
  {
    Region(lo, hi - lo)
  }

  /** One round of the loops over segments and over tohost and fromhost. */
  method MergeInto(regions: seq<Region>, r: Region) returns (out: seq<Region>)
    ensures out == Keep(regions, r) + [Grown(regions, r)]
  {
    hide Keep, Grown, Listed, Min, Max;
    var newEnd := r.End();
    var mergedBase: nat, mergedEnd: nat := r.base, newEnd;
    var indices: seq<nat> := [];
    GrownNone(r);
    ListedNone(regions, r);
    for i := 0 to |regions|
      invariant mergedBase <= mergedEnd && Span(mergedBase, mergedEnd) == Grown(regions[..i], r)
      invariant Listed(regions, i, indices, r)
    {
      var existing := regions[i];
      GrownStep(regions, i, r);
      ListedStep(regions, i, indices, r);
      if !(newEnd <= existing.base || r.base >= existing.End()) {
        mergedBase := Min(mergedBase, existing.base);
        mergedEnd := Max(mergedEnd, existing.End());
        indices := indices + [i];
      }
    }
    assert regions[..|regions|] == regions;
    out := Remove(regions, indices, r);
    out := out + [Region(mergedBase, mergedEnd - mergedBase)];
  }

  lemma GrownNone(r: Region)
    ensures Grown([], r) == r
  {
  }

  lemma GrownStep(regions: seq<Region>, i: nat, r: Region)
    requires i < |regions|
    ensures var g, s := Grown(regions[..i], r), regions[i];
            && Min(g.base, s.base) <= Max(g.End(), s.End())
            && Grown(regions[..i + 1], r)
               == (if Apart(r, s) then g else Span(Min(g.base, s.base), Max(g.End(), s.End())))
  {
    hide Apart;
    assert regions[..i + 1][..i] == regions[..i];
  }

  /** The indices below a bound, in order, of the regions that overlap a new one. */
  ghost predicate Listed(regions: seq<Region>, n: nat, indices: seq<nat>, r: Region) {
    && n <= |regions|
    && (forall k :: 0 <= k < |indices| ==> indices[k] < n && !Apart(r, regions[indices[k]]))
    && (forall k, l :: 0 <= k < l < |indices| ==> indices[k] < indices[l])
    && (forall j: nat :: j < n && !Apart(r, regions[j]) ==> j in indices)
  }

  lemma ListedNone(regions: seq<Region>, r: Region)
    ensures Listed(regions, 0, [], r)
  {
  }

  lemma ListedStep(regions: seq<Region>, i: nat, indices: seq<nat>, r: Region)
    requires i < |regions| && Listed(regions, i, indices, r)
    ensures Listed(regions, i + 1, if Apart(r, regions[i]) then indices else indices + [i], r)
  {
    hide Apart;
    var next := if Apart(r, regions[i]) then indices else indices + [i];
    assert forall k :: 0 <= k < |indices| ==> next[k] == indices[k];
    forall j: nat | j < i + 1 && !Apart(r, regions[j])
      ensures j in next
    {
      if j == i {
        assert next[|indices|] == i;
      }
    }
  }

  /** Deleting the overlapped regions from the back. */
  method Remove(regions: seq<Region>, indices: seq<nat>, ghost r: Region) returns (out: seq<Region>)
    requires Listed(regions, |regions|, indices, r)
    ensures out == Keep(regions, r)
  {
    hide Keep, Apart;
    out := regions;
    var k := |indices|;
    ghost var p := |regions|;
    KeepNone([], r);
    assert regions[p..] == [];
    while k > 0
      invariant 0 <= k <= |indices| && p <= |regions|
      invariant out == regions[..p] + Keep(regions[p..], r)
      invariant p == if k == |indices| then |regions| else indices[k]
    {
      k := k - 1;
      var i := indices[k];
      KeepBetween(regions, indices, k, p, r);
      KeepDrop(regions, i, p, r, out);
      out := out[..i] + out[i + 1..];
      p := i;
    }
    KeepFront(regions, indices, p, r);
    KeepConcat(regions[..p], regions[p..], r);
    assert regions[..p] + regions[p..] == regions;
  }

  lemma {:induction false} KeepConcat(a: seq<Region>, b: seq<Region>, r: Region)
    ensures Keep(a + b, r) == Keep(a, r) + Keep(b, r)
  {
    hide Apart;
    if b == [] {
      assert a + b == a;
    } else {
      assert (a + b)[..|a + b| - 1] == a + b[..|b| - 1];
      KeepConcat(a, b[..|b| - 1], r);
    }
  }

  lemma {:induction false} KeepNone(list: seq<Region>, r: Region)
    requires forall i :: 0 <= i < |list| ==> Apart(r, list[i])
    ensures Keep(list, r) == list
  {
    hide Apart;
    if list != [] {
      KeepNone(list[..|list| - 1], r);
    }
  }

  /** Between two listed indices nothing overlaps. */
  lemma KeepBetween(regions: seq<Region>, indices: seq<nat>, k: nat, p: nat, r: Region)
    requires k < |indices| && p <= |regions| && p == (if k + 1 == |indices| then |regions| else indices[k + 1])
    requires Listed(regions, |regions|, indices, r)
    ensures indices[k] < p && !Apart(r, regions[indices[k]])
    ensures Keep(regions[indices[k] + 1..p], r) == regions[indices[k] + 1..p]
  {
    hide Apart, Keep;
    var mid := regions[indices[k] + 1..p];
    forall i | 0 <= i < |mid|
      ensures Apart(r, mid[i])
    {
      var j: nat := indices[k] + 1 + i;
      assert forall l :: 0 <= l < |indices| ==> indices[l] != j;
      assert j !in indices && mid[i] == regions[j];
    }
    KeepNone(mid, r);
  }

  /** Deleting one listed region. */
  lemma KeepDrop(regions: seq<Region>, i: nat, p: nat, r: Region, out: seq<Region>)
    requires i < p <= |regions| && !Apart(r, regions[i]) && Keep(regions[i + 1..p], r) == regions[i + 1..p]
    requires out == regions[..p] + Keep(regions[p..], r)
    ensures i < |out| && out[..i] + out[i + 1..] == regions[..i] + Keep(regions[i..], r)
  {
    var x := [regions[i]];
    assert regions[i..] == x + (regions[i + 1..p] + regions[p..]);
    KeepConcat(x, regions[i + 1..p] + regions[p..], r);
    KeepConcat(regions[i + 1..p], regions[p..], r);
    assert x[..0] == [] && Keep(x, r) == [];
    hide Apart, Keep;
    assert out[..i] == regions[..i];
    assert out[i + 1..] == regions[i + 1..p] + Keep(regions[p..], r);
  }

  /** Before the first listed index nothing overlaps. */
  lemma KeepFront(regions: seq<Region>, indices: seq<nat>, p: nat, r: Region)
    requires p <= |regions| && p == (if indices == [] then |regions| else indices[0])
    requires Listed(regions, |regions|, indices, r)
    ensures Keep(regions[..p], r) == regions[..p]
  {
    hide Apart, Keep;
    forall i: nat | i < p
      ensures Apart(r, regions[i])
    {
      assert forall l :: 0 <= l < |indices| ==> indices[l] != i;
      assert i !in indices;
    }
    KeepNone(regions[..p], r);
  }

  // ------------------------------------------------- what one merge keeps

  lemma {:induction false} KeepHas(list: seq<Region>, r: Region)
    ensures forall i :: 0 <= i < |list| && Apart(r, list[i]) ==> list[i] in Keep(list, r)
    ensures forall s :: s in Keep(list, r) ==> s in list && Apart(r, s)
  {
    hide Apart;
    if list != [] {
      KeepHas(list[..|list| - 1], r);
    }
  }

  lemma {:induction false} KeepApart(list: seq<Region>, r: Region)
    requires PairwiseApart(list)
    ensures PairwiseApart(Keep(list, r))
  {
    hide Apart;
    if list != [] {
      var n := |list| - 1;
      KeepApart(list[..n], r);
      KeepHas(list[..n], r);
      assert forall s :: s in list[..n] ==> Apart(s, list[n]);
    }
  }

  /** The grown region stays on its own side of every region that the new one does not overlap. */
  lemma {:induction false} GrownApart(list: seq<Region>, r: Region, k: Region)
    requires forall i :: 0 <= i < |list| && !Apart(r, list[i]) ==> Apart(list[i], k)
    requires Apart(r, k)
    ensures Apart(Grown(list, r), k)
    ensures k.End() <= r.base ==> k.End() <= Grown(list, r).base
    ensures r.End() <= k.base ==> Grown(list, r).End() <= k.base
  {
    if list != [] {
      GrownApart(list[..|list| - 1], r, k);
    }
  }

  /** An address is in the grown region exactly if it is in the new one or in one that overlaps it. */
  lemma {:induction false} GrownContains(list: seq<Region>, r: Region, a: int)
    ensures Grown(list, r).Contains(a) <==> r.Contains(a) || Touches(list, r, a)
    ensures Spans(Grown(list, r), a) <==> Spans(r, a) || Bridges(list, r, a)
    ensures Grown(list, r).base <= a < r.base ==> Bridges(list, r, a)
    ensures r.End() <= a + 1 < Grown(list, r).End() ==> Bridges(list, r, a)
  {
    if list != [] {
      GrownContains(list[..|list| - 1], r, a);
      TouchesSnoc(list, r, a);
      hide Touches, Bridges;
    }
  }

  lemma TouchesSnoc(list: seq<Region>, r: Region, a: int)
    requires list != []
    ensures var front, last := list[..|list| - 1], list[|list| - 1];
            && (Touches(list, r, a) <==> Touches(front, r, a) || (!Apart(r, last) && last.Contains(a)))
            && (Bridges(list, r, a) <==> Bridges(front, r, a) || (!Apart(r, last) && Spans(last, a)))
  {
    hide Apart, Spans;
    assert list == list[..|list| - 1] + [list[|list| - 1]];
  }

  /** A region that overlaps the new one and holds the address, or the address and the next. */
  ghost predicate Touches(list: seq<Region>, r: Region, a: int) {
    exists i :: 0 <= i < |list| && !Apart(r, list[i]) && list[i].Contains(a)
  }

  ghost predicate Bridges(list: seq<Region>, r: Region, a: int) {
    exists i :: 0 <= i < |list| && !Apart(r, list[i]) && Spans(list[i], a)
  }

  /** One merge of a region into a list. */
  ghost function Merge(list: seq<Region>, r: Region): seq<Region> {
    Keep(list, r) + [Grown(list, r)]
  }

  lemma MergeApart(list: seq<Region>, r: Region)
    requires PairwiseApart(list)
    ensures PairwiseApart(Merge(list, r))
  {
    KeepApart(list, r);
    KeepHas(list, r);
    forall k | k in Keep(list, r)
      ensures Apart(k, Grown(list, r))
    {
      hide Keep, Grown;
      var j :| 0 <= j < |list| && list[j] == k;
      forall i | 0 <= i < |list| && !Apart(r, list[i])
        ensures Apart(list[i], k)
      {
        assert i < j ==> Apart(list[i], list[j]);
        assert i > j ==> Apart(list[j], list[i]);
      }
      GrownApart(list, r, k);
    }
  }

  /** The addresses of the merge are those of the list and the new region, joined alike. */
  lemma MergeCovers(list: seq<Region>, r: Region, a: int)
    ensures Covered(Merge(list, r), a) <==> Covered(list, a) || r.Contains(a)
    ensures Joined(Merge(list, r), a) <==> Joined(list, a) || Spans(r, a)
  {
    var kept, g := Keep(list, r), Grown(list, r);
    KeepHas(list, r);
    GrownContains(list, r, a);
    hide Keep, Grown, Apart;
    var out := Merge(list, r);
    assert out == kept + [g] && out[|kept|] == g;
    assert forall s :: s in kept ==> s in out;
    if Covered(out, a) {
      var i :| 0 <= i < |out| && out[i].Contains(a);
      assert i < |kept| ==> out[i] in kept;
    }
    if Joined(out, a) {
      var i :| 0 <= i < |out| && Spans(out[i], a);
      assert i < |kept| ==> out[i] in kept;
    }
    forall i | 0 <= i < |list|
      ensures list[i].Contains(a) ==> Covered(out, a)
      ensures Spans(list[i], a) ==> Joined(out, a)
    {
      if Apart(r, list[i]) {
        assert list[i] in out;
      }
    }
  }

  /** Regions whose two ends are page boundaries. */
  lemma PageEnds(r: Region)
    ensures Aligned(r) <==> r.base % PAGE == 0 && r.End() % PAGE == 0
  {
  }

  lemma {:induction false} GrownAligned(list: seq<Region>, r: Region)
    requires AllAligned(list) && Aligned(r)
    ensures Aligned(Grown(list, r))
  {
    hide Apart;
    if list != [] {
      var front, last := list[..|list| - 1], list[|list| - 1];
      GrownAligned(front, r);
      var g := Grown(front, r);
      PageEnds(g);
      PageEnds(last);
      PageEnds(Span(Min(g.base, last.base), Max(g.End(), last.End())));
      hide Aligned;
    }
  }

  lemma MergeKeeps(list: seq<Region>, r: Region)
    ensures AllAligned(list) && Aligned(r) ==> AllAligned(Merge(list, r))
    ensures NonEmpty(list) && r.size > 0 ==> NonEmpty(Merge(list, r))
  {
    KeepHas(list, r);
    if AllAligned(list) && Aligned(r) {
      GrownAligned(list, r);
    }
    var kept, g := Keep(list, r), Grown(list, r);
    assert g.size >= r.size;
    hide Keep, Grown, Aligned;
    assert forall i :: 0 <= i < |kept| ==> kept[i] in list;
  }

  // ------------------------------------------------------ all the merges

  ghost function Merged(inputs: seq<Region>): seq<Region> {
    if inputs == [] then [] else Merge(Merged(inputs[..|inputs| - 1]), inputs[|inputs| - 1])
  }

  lemma {:induction false} MergedApart(inputs: seq<Region>)
    ensures PairwiseApart(Merged(inputs))
    ensures AllAligned(inputs) ==> AllAligned(Merged(inputs))
    ensures NonEmpty(inputs) ==> NonEmpty(Merged(inputs))
  {
    hide Merge;
    if inputs != [] {
      var front, r := inputs[..|inputs| - 1], inputs[|inputs| - 1];
      MergedApart(front);
      MergeApart(Merged(front), r);
      MergeKeeps(Merged(front), r);
    }
  }

  lemma {:induction false} MergedCovers(inputs: seq<Region>, a: int)
    ensures Covered(Merged(inputs), a) <==> Covered(inputs, a)
    ensures Joined(Merged(inputs), a) <==> Joined(inputs, a)
  {
    hide Merge;
    if inputs != [] {
      var front, r := inputs[..|inputs| - 1], inputs[|inputs| - 1];
      MergedCovers(front, a);
      MergeCovers(Merged(front), r, a);
      assert inputs == front + [r];
    }
  }

  // ------------------------------------------------------------- sorting

  /** Stable insertion by base. */
  function Insert(list: seq<Region>, r: Region): seq<Region> {
    if list == [] || list[|list| - 1].base <= r.base then list + [r]
    else Insert(list[..|list| - 1], r) + [list[|list| - 1]]
  }

  function SortByBase(list: seq<Region>): seq<Region> {
    if list == [] then [] else Insert(SortByBase(list[..|list| - 1]), list[|list| - 1])
  }

  lemma SortedSnoc(list: seq<Region>, r: Region)
    requires Sorted(list) && forall s :: s in list ==> s.base <= r.base
    ensures Sorted(list + [r])
  {
    forall i, j | 0 <= i < j < |list + [r]|
      ensures (list + [r])[i].base <= (list + [r])[j].base
    {
      if j == |list| {
        assert list[i] in list;
      }
    }
  }

  lemma {:induction false} InsertSorts(list: seq<Region>, r: Region)
    requires Sorted(list)
    ensures Sorted(Insert(list, r)) && multiset(Insert(list, r)) == multiset(list) + multiset{r}
  {
    if list == [] || list[|list| - 1].base <= r.base {
      SortedSnoc(list, r);
    } else {
      var front, last := list[..|list| - 1], list[|list| - 1];
      assert list == front + [last];
      InsertSorts(front, r);
      var out := Insert(front, r);
      assert Insert(list, r) == out + [last];
      hide Insert;
      forall s | s in out
        ensures s.base <= last.base
      {
        assert s in multiset(out) && (s == r || s in multiset(front));
      }
      SortedSnoc(out, last);
    }
  }

  lemma {:induction false} SortSorts(list: seq<Region>)
    ensures Sorted(SortByBase(list)) && multiset(SortByBase(list)) == multiset(list)
  {
    if list != [] {
      var front, last := list[..|list| - 1], list[|list| - 1];
      assert list == front + [last];
      SortSorts(front);
      InsertSorts(SortByBase(front), last);
    }
  }

  lemma SnocApart(list: seq<Region>, r: Region)
    requires PairwiseApart(list) && forall s :: s in list ==> Apart(s, r)
    ensures PairwiseApart(list + [r])
  {
    hide Apart;
    forall i, j | 0 <= i < j < |list + [r]|
      ensures Apart((list + [r])[i], (list + [r])[j])
    {
      if j == |list| {
        assert list[i] in list;
      }
    }
  }

  lemma {:induction false} InsertApart(list: seq<Region>, r: Region)
    requires PairwiseApart(list) && forall s :: s in list ==> Apart(s, r)
    ensures PairwiseApart(Insert(list, r))
    ensures forall s :: s in Insert(list, r) ==> s == r || s in list
  {
    if list == [] || list[|list| - 1].base <= r.base {
      SnocApart(list, r);
    } else {
      var front, last := list[..|list| - 1], list[|list| - 1];
      assert list == front + [last];
      InsertApart(front, r);
      var out := Insert(front, r);
      assert Insert(list, r) == out + [last];
      assert Apart(last, r) && forall s :: s in front ==> Apart(s, last);
      SnocApart(out, last);
    }
  }

  lemma {:induction false} SortApart(list: seq<Region>)
    requires PairwiseApart(list)
    ensures PairwiseApart(SortByBase(list))
  {
    if list != [] {
      var front, last := list[..|list| - 1], list[|list| - 1];
      assert list == front + [last];
      SortApart(front);
      SortSorts(front);
      var out := SortByBase(front);
      hide SortByBase, Apart;
      forall s | s in out
        ensures Apart(s, last)
      {
        assert s in multiset(out) && s in front;
      }
      InsertApart(out, last);
    }
  }

  // -------------------------------------------------------- the whole map

  /** The segment loop, the loop over tohost and fromhost, and the sort. */
  method SpikeMemoryMap(segments: seq<(nat, nat)>, tohost: nat, fromhost: nat) returns (map_: Option<seq<Region>>)
    ensures map_.None? <==> segments == [] || Inputs(segments, [tohost, fromhost]) == []
    ensures map_.Some? ==> map_.value == SortByBase(Merged(Inputs(segments, [tohost, fromhost])))
    ensures map_.Some? ==>
              var inputs := Inputs(segments, [tohost, fromhost]);
              && Sorted(map_.value) && AllAligned(map_.value) && PairwiseApart(map_.value)
              && SameUnion(map_.value, inputs) && SameGroups(map_.value, inputs)
  {
    hide Merge, SortByBase, LowSegments, LowPages, Merged, AllAligned, PairwiseApart, Sorted, SameUnion, SameGroups,
         NonEmpty;
    InputsAligned(segments, [tohost, fromhost]);
    MapShape(Inputs(segments, [tohost, fromhost]));
    MapMeans(Inputs(segments, [tohost, fromhost]));
    if segments == [] {
      return None;
    }
    var regions := MergeSegments(segments);
    regions := MergePages(LowSegments(segments), regions, [tohost, fromhost]);
    MergedEmpty(Inputs(segments, [tohost, fromhost]));
    var sorted := SortByBase(regions);
    if regions == [] {
      return None;
    }
    return Some(sorted);
  }

  lemma InputsAligned(segments: seq<(nat, nat)>, comm: seq<nat>)
    ensures AllAligned(Inputs(segments, comm))
    ensures (forall i :: 0 <= i < |segments| ==> segments[i].1 > 0) ==> NonEmpty(Inputs(segments, comm))
  {
    SegmentsRounded(segments);
    PagesRounded(comm);
    hide LowSegments, LowPages, Aligned;
  }

  method MergeSegments(segments: seq<(nat, nat)>) returns (regions: seq<Region>)
    ensures regions == Merged(LowSegments(segments))
  {
    hide Merge, Rounded, Keep, Grown, Merged, LowSegments;
    regions := [];
    LowNone();
    for i := 0 to |segments|
      invariant regions == Merged(LowSegments(segments[..i]))
    {
      var (vaddr, memsz) := segments[i];
      var r := Rounded(vaddr, memsz);
      ghost var low := LowSegments(segments[..i]);
      LowSnoc(segments, i);
      assert low + [] == low;
      if r.base < DRAM_BASE {
        MergedSnoc(low, r);
        MergeIs(regions, r);
        regions := MergeInto(regions, r);
      }
    }
    assert segments[..|segments|] == segments;
  }

  lemma LowNone()
    ensures LowSegments([]) == [] && Merged([]) == []
  {
  }

  lemma LowSnoc(segments: seq<(nat, nat)>, i: nat)
    requires i < |segments|
    ensures LowSegments(segments[..i + 1])
            == LowSegments(segments[..i]) + LowRegion(Rounded(segments[i].0, segments[i].1))
  {
    assert segments[..i + 1][..i] == segments[..i];
  }

  method MergePages(ghost low: seq<Region>, regions: seq<Region>, comm: seq<nat>) returns (out: seq<Region>)
    requires regions == Merged(low)
    ensures out == Merged(low + LowPages(comm))
  {
    hide Merge, Keep, Grown;
    out := regions;
    assert low + [] == low;
    for i := 0 to |comm|
      invariant out == Merged(low + LowPages(comm[..i]))
    {
      assert comm[..i + 1][..i] == comm[..i];
      var a := comm[i];
      ghost var pages := LowPages(comm[..i]);
      assert pages + [] == pages;
      if a != 0 && a < DRAM_BASE {
        var r := Region(a / PAGE * PAGE, PAGE);
        MergedSnoc(low + pages, r);
        assert low + pages + [r] == low + (pages + [r]);
        MergeIs(out, r);
        out := MergeInto(out, r);
      }
    }
    assert comm[..|comm|] == comm;
  }

  lemma MergeIs(list: seq<Region>, r: Region)
    ensures Merge(list, r) == Keep(list, r) + [Grown(list, r)]
  {
  }

  lemma MergedSnoc(inputs: seq<Region>, r: Region)
    ensures Merged(inputs + [r]) == Merge(Merged(inputs), r)
  {
    assert (inputs + [r])[..|inputs|] == inputs;
  }

  lemma MergedEmpty(inputs: seq<Region>)
    ensures Merged(inputs) == [] <==> inputs == []
  {
  }

  lemma {:induction false} SegmentsRounded(segments: seq<(nat, nat)>)
    ensures AllAligned(LowSegments(segments))
    ensures (forall i :: 0 <= i < |segments| ==> segments[i].1 > 0) ==> NonEmpty(LowSegments(segments))
  {
    hide Rounded, Aligned;
    if segments != [] {
      var n := |segments| - 1;
      SegmentsRounded(segments[..n]);
      RoundedPages(segments[n].0, segments[n].1);
    }
  }

  lemma {:induction false} PagesRounded(comm: seq<nat>)
    ensures AllAligned(LowPages(comm)) && NonEmpty(LowPages(comm))
  {
    hide Aligned;
    if comm != [] {
      var n := |comm| - 1;
      PagesRounded(comm[..n]);
      RoundedPages(comm[n], 0);
    }
  }

  /** Rounding covers the segment, starts and ends on page boundaries, and adds less than a page at each end. */
  lemma RoundedPages(vaddr: nat, memsz: nat)
    ensures Aligned(Rounded(vaddr, memsz)) && Aligned(Region(vaddr / PAGE * PAGE, PAGE))
    ensures Rounded(vaddr, memsz).base <= vaddr < Rounded(vaddr, memsz).base + PAGE
    ensures vaddr + memsz <= Rounded(vaddr, memsz).End() < vaddr + memsz + PAGE
    ensures memsz > 0 ==> Rounded(vaddr, memsz).size > 0
  {
    hide Aligned;
    PageEnds(Rounded(vaddr, memsz));
    PageEnds(Region(vaddr / PAGE * PAGE, PAGE));
  }

  /** The map is sorted, page aligned and disjoint. */
  lemma MapShape(inputs: seq<Region>)
    ensures var m := SortByBase(Merged(inputs));
            && Sorted(m) && PairwiseApart(m)
            && (AllAligned(inputs) ==> AllAligned(m))
            && (NonEmpty(inputs) ==> NonEmpty(m))
  {
    var list := Merged(inputs);
    MergedApart(inputs);
    SortSorts(list);
    SortApart(list);
    var m := SortByBase(list);
    hide Merged, SortByBase, Apart, Aligned;
    SameMembers(list, m);
    assert forall i :: 0 <= i < |m| ==> m[i] in list;
  }

  /** The map covers exactly what its inputs cover, and joins neighbours alike. */
  lemma MapMeans(inputs: seq<Region>)
    ensures SameUnion(SortByBase(Merged(inputs)), inputs) && SameGroups(SortByBase(Merged(inputs)), inputs)
  {
    var list := Merged(inputs);
    SortSorts(list);
    var m := SortByBase(list);
    hide Merged, SortByBase, Covered, Joined;
    SameMembers(list, m);
    forall x: int
      ensures Covered(m, x) <==> Covered(inputs, x)
      ensures Joined(m, x) <==> Joined(inputs, x)
    {
      MergedCovers(inputs, x);
    }
  }

  /** Lists that are permutations of each other say the same of every address. */
  lemma SameMembers(a: seq<Region>, b: seq<Region>)
    requires multiset(a) == multiset(b)
    ensures SameUnion(a, b) && SameGroups(a, b)
    ensures forall s :: s in a <==> s in b
  {
    forall s
      ensures s in a <==> s in b
    {
      assert s in a <==> s in multiset(a);
    }
    forall x: int
      ensures Covered(a, x) <==> Covered(b, x)
      ensures Joined(a, x) <==> Joined(b, x)
    {
      CoveredIn(a, x);
      CoveredIn(b, x);
    }
  }

  lemma CoveredIn(list: seq<Region>, x: int)
    ensures Covered(list, x) <==> exists s :: s in list && s.Contains(x)
    ensures Joined(list, x) <==> exists s :: s in list && Spans(s, x)
  {
  }

  // ------------------------------------------------------ uniqueness

  /** Where a list of disjoint regions has nothing of a region, the tail has it all. */
  lemma TailMeans(a: seq<Region>, x: int)
    requires a != [] && PairwiseApart(a)
    ensures Covered(a[1..], x) <==> Covered(a, x) && !a[0].Contains(x)
    ensures Joined(a[1..], x) <==> Joined(a, x) && !Spans(a[0], x)
  {
    assert a == [a[0]] + a[1..];
    assert forall i :: 0 < i < |a| ==> a[1..][i - 1] == a[i];
  }

  /** The first region of one sorted list does not reach past that of another with the same groups. */
  lemma FirstInside(a: seq<Region>, b: seq<Region>)
    requires a != [] && b != [] && PairwiseApart(a) && PairwiseApart(b) && NonEmpty(a) && NonEmpty(b)
    requires Sorted(a) && Sorted(b) && SameUnion(a, b) && SameGroups(a, b)
    ensures a[0].base >= b[0].base
    ensures a[0].base == b[0].base ==> a[0].End() <= b[0].End()
  {
    var x := a[0].base;
    assert a[0].Contains(x) && Covered(a, x) && Covered(b, x);
    var i :| 0 <= i < |b| && b[i].Contains(x);
    assert b[0].base <= b[i].base;
    var y := b[0].End() - 1;
    LastUnjoined(b);
    assert a[0].base == b[0].base && a[0].End() > b[0].End() ==> Spans(a[0], y);
  }

  /** The last address of a region is not joined to its successor. */
  lemma LastUnjoined(b: seq<Region>)
    requires b != [] && PairwiseApart(b) && NonEmpty(b)
    ensures !Joined(b, b[0].End() - 1)
  {
    var y := b[0].End() - 1;
    assert b[0].Contains(y) && !Spans(b[0], y);
    assert forall j :: 0 < j < |b| ==> Apart(b[0], b[j]);
  }

  /** Sorted disjoint non-empty regions are determined by what they cover and join. */
  lemma {:induction false} MapUnique(a: seq<Region>, b: seq<Region>)
    requires PairwiseApart(a) && PairwiseApart(b) && NonEmpty(a) && NonEmpty(b)
    requires Sorted(a) && Sorted(b) && SameUnion(a, b) && SameGroups(a, b)
    ensures a == b
  {
    assert a != [] ==> a[0].Contains(a[0].base) && Covered(a, a[0].base) && Covered(b, a[0].base);
    assert b != [] ==> b[0].Contains(b[0].base) && Covered(b, b[0].base) && Covered(a, b[0].base);
    if a != [] {
      FirstInside(a, b);
      FirstInside(b, a);
      assert a[0] == b[0];
      forall x: int
        ensures Covered(a[1..], x) <==> Covered(b[1..], x)
        ensures Joined(a[1..], x) <==> Joined(b[1..], x)
      {
        TailMeans(a, x);
        TailMeans(b, x);
      }
      MapUnique(a[1..], b[1..]);
      assert a == [a[0]] + a[1..] && b == [b[0]] + b[1..];
    }
  }

  /** The order of the segments does not change the map. */
  lemma OrderIndependent(a: seq<Region>, b: seq<Region>)
    requires multiset(a) == multiset(b) && NonEmpty(a)
    ensures SortByBase(Merged(a)) == SortByBase(Merged(b))
  {
    SameMembers(a, b);
    assert forall i :: 0 <= i < |b| ==> b[i] in a;
    MapShape(a);
    MapShape(b);
    MapMeans(a);
    MapMeans(b);
    hide Merged, SortByBase, Covered, Joined;
    MapUnique(SortByBase(Merged(a)), SortByBase(Merged(b)));
  }

  // ------------------------------------------------ connected components

  predicate Inside(r: Region, o: Region) {
    o.base <= r.base && r.End() <= o.End()
  }

  /** A chain of inputs from one to another in which neighbours overlap. */
  predicate Chain(inputs: seq<Region>, path: seq<nat>, i: nat, j: nat) {
    && path != [] && path[0] == i && path[|path| - 1] == j
    && (forall k :: 0 <= k < |path| ==> path[k] < |inputs|)
    && (forall k :: 0 < k < |path| ==> !Apart(inputs[path[k - 1]], inputs[path[k]]))
  }

  ghost predicate Linked(inputs: seq<Region>, i: nat, j: nat) {
    exists path :: Chain(inputs, path, i, j)
  }

  /** An input that starts in a region of the map stays in it. */
  lemma {:induction false} StaysInside(inputs: seq<Region>, m: seq<Region>, i: nat, k: nat, a: nat)
    requires i < |inputs| && k < |m| && PairwiseApart(m) && SameGroups(m, inputs)
    requires inputs[i].base <= a < inputs[i].End() && m[k].Contains(inputs[i].base)
    ensures m[k].Contains(a)
    decreases a
  {
    if a > inputs[i].base {
      StaysInside(inputs, m, i, k, a - 1);
      assert Spans(inputs[i], a - 1) && Joined(inputs, a - 1) && Joined(m, a - 1);
      var l :| 0 <= l < |m| && Spans(m[l], a - 1);
      SameRegion(m, k, l, a - 1);
    }
  }

  lemma SameRegion(m: seq<Region>, k: nat, l: nat, a: int)
    requires k < |m| && l < |m| && PairwiseApart(m) && m[k].Contains(a) && m[l].Contains(a)
    ensures k == l
  {
    assert !Apart(m[k], m[l]) && !Apart(m[l], m[k]);
  }

  /** Every input lies in exactly one region of the map. */
  lemma InsideOne(inputs: seq<Region>, m: seq<Region>, i: nat)
    requires i < |inputs| && NonEmpty(inputs) && PairwiseApart(m) && SameUnion(m, inputs) && SameGroups(m, inputs)
    ensures exists k :: 0 <= k < |m| && Inside(inputs[i], m[k])
    ensures forall k, l :: 0 <= k < |m| && 0 <= l < |m| && Inside(inputs[i], m[k]) && Inside(inputs[i], m[l]) ==> k == l
  {
    var a := inputs[i].base;
    assert inputs[i].Contains(a) && Covered(inputs, a) && Covered(m, a);
    var k :| 0 <= k < |m| && m[k].Contains(a);
    StaysInside(inputs, m, i, k, inputs[i].End() - 1);
    assert Inside(inputs[i], m[k]);
    forall k, l | 0 <= k < |m| && 0 <= l < |m| && Inside(inputs[i], m[k]) && Inside(inputs[i], m[l])
      ensures k == l
    {
      SameRegion(m, k, l, a);
    }
  }

  /** A chain of overlaps never leaves a region. */
  lemma {:induction false} ChainInside(inputs: seq<Region>, m: seq<Region>, path: seq<nat>, i: nat, j: nat, k: nat)
    requires NonEmpty(inputs) && PairwiseApart(m) && SameUnion(m, inputs) && SameGroups(m, inputs)
    requires k < |m| && Chain(inputs, path, i, j) && Inside(inputs[i], m[k])
    ensures Inside(inputs[j], m[k])
    decreases |path|
  {
    if |path| > 1 {
      var n := |path| - 1;
      var p := path[n - 1];
      assert Chain(inputs, path[..n], i, p);
      ChainInside(inputs, m, path[..n], i, p, k);
      InsideOne(inputs, m, j);
      var l: nat :| l < |m| && Inside(inputs[j], m[l]);
      assert !Apart(inputs[p], inputs[j]);
      SameRegion(m, k, l, Max(inputs[p].base, inputs[j].base));
    }
  }

  /** From an input, chains reach every later address of its region. */
  lemma {:induction false} Reaches(inputs: seq<Region>, m: seq<Region>, k: nat, i: nat, a: nat) returns (path: seq<nat>, y: nat)
    requires NonEmpty(inputs) && SameGroups(m, inputs) && k < |m| && i < |inputs|
    requires Inside(inputs[i], m[k]) && inputs[i].base <= a < m[k].End()
    ensures Chain(inputs, path, i, y) && inputs[y].Contains(a)
    decreases a
  {
    if a == inputs[i].base {
      path, y := [i], i;
    } else {
      var front, x := Reaches(inputs, m, k, i, a - 1);
      assert Spans(m[k], a - 1) && Joined(m, a - 1) && Joined(inputs, a - 1);
      y :| y < |inputs| && Spans(inputs[y], a - 1);
      path := front + [y];
    }
  }

  lemma ReverseChain(inputs: seq<Region>, path: seq<nat>, i: nat, j: nat)
    requires Chain(inputs, path, i, j)
    ensures Linked(inputs, j, i)
  {
    var n := |path|;
    var back := seq(n, k requires 0 <= k < n => path[n - 1 - k]);
    forall k | 0 < k < n
      ensures !Apart(inputs[back[k - 1]], inputs[back[k]])
    {
      assert !Apart(inputs[path[n - k - 1]], inputs[path[n - k]]);
    }
    assert Chain(inputs, back, j, i);
  }

  /** Two inputs in one region of the map are linked by overlaps. */
  lemma InsideLinked(inputs: seq<Region>, m: seq<Region>, k: nat, i: nat, j: nat)
    requires NonEmpty(inputs) && SameGroups(m, inputs) && k < |m| && i < |inputs| && j < |inputs|
    requires Inside(inputs[i], m[k]) && Inside(inputs[j], m[k]) && inputs[i].base <= inputs[j].base
    ensures Linked(inputs, i, j) && Linked(inputs, j, i)
  {
    var path, y := Reaches(inputs, m, k, i, inputs[j].base);
    assert Chain(inputs, path + [j], i, j);
    ReverseChain(inputs, path + [j], i, j);
  }

  /** The regions of the map are the connected components of the overlap relation on its inputs. */
  lemma MapComponents(inputs: seq<Region>, k: nat, i: nat, j: nat)
    requires NonEmpty(inputs) && k < |SortByBase(Merged(inputs))| && i < |inputs| && j < |inputs|
    requires Inside(inputs[i], SortByBase(Merged(inputs))[k])
    ensures Inside(inputs[j], SortByBase(Merged(inputs))[k]) <==> Linked(inputs, i, j)
  {
    var m := SortByBase(Merged(inputs));
    MapShape(inputs);
    MapMeans(inputs);
    hide Merged, SortByBase, SameUnion, SameGroups, PairwiseApart, NonEmpty, Chain;
    if Inside(inputs[j], m[k]) {
      if inputs[i].base <= inputs[j].base {
        InsideLinked(inputs, m, k, i, j);
      } else {
        InsideLinked(inputs, m, k, j, i);
      }
    }
    if Linked(inputs, i, j) {
      var path :| Chain(inputs, path, i, j);
      ChainInside(inputs, m, path, i, j, k);
    }
  }
}
