/** The threaded scanner: how the image is divided among threads, and how their findings are merged. */
module ThreadedScanner {
  import opened RawImage
  import opened Carving
  import opened ScanMerge
  import StableSorting

  datatype Region = Region(start: nat, end: nat, id: nat)

  datatype RegionResult = RegionResult(id: nat, files: seq<CarvedFile>)

  function Threads(requested: int): (r: nat)
    ensures 1 <= r <= 64
  {
    Max(1, Min(requested, 64))
  }

  // ---- the partition ----

  /** How far apart regions start. */
  function Stride(size: nat, threads: nat, overlap: nat): nat
    requires threads > 0
  {
    Max(size / threads, overlap)
  }

  ghost predicate InOrder(regions: seq<Region>, size: nat)
  {
    forall i :: 0 <= i < |regions| ==> regions[i].id == i && regions[i].start <= regions[i].end <= size
  }

  /** Each region but the last reaches over the start of the next by the overlap, or holds all that is left. */
  ghost predicate Overlapping(regions: seq<Region>, size: nat, overlap: nat)
  {
    forall i :: 0 <= i < |regions| - 1 ==> Reaches(regions[i], regions[i + 1], size, overlap)
  }

  predicate Reaches(r: Region, next: Region, size: nat, overlap: nat)
  {
    r.start <= next.start && (r.end == next.start + overlap || r.end == size)
  }

  /** What a partition of `size` bytes is for. */
  ghost predicate Partitioned(regions: seq<Region>, size: nat, overlap: nat)
  {
    |regions| > 0 && forall i :: 0 <= i < |regions| ==> InPlace(regions, i, size, overlap)
  }

  /** Region `i` has its number and starts at zero if it is the first; it ends with the image if it is the last, and
      else reaches over the start of the next. */
  predicate InPlace(regions: seq<Region>, i: nat, size: nat, overlap: nat)
    requires i < |regions|
  {
    var r := regions[i];
    && r.id == i && r.start <= r.end <= size && (i == 0 ==> r.start == 0)
    && if i == |regions| - 1 then r.end == size else Reaches(r, regions[i + 1], size, overlap)
  }

  ghost predicate Even(regions: seq<Region>, stride: nat)
  {
    forall i :: 0 <= i < |regions| ==> regions[i].start == i * stride
  }

  /** `ThreadedScanner._partition`. */
  method Partition(size: int, requested: int, overlap: nat) returns (regions: seq<Region>)
    ensures size <= 0 ==> regions == []
    ensures size > 0 ==> Partitioned(regions, size, overlap) && |regions| <= Threads(requested)
    ensures size > 0 && (Threads(requested) == 1 || size < 2 * overlap) ==> |regions| == 1
    ensures size > 0 && Threads(requested) > 1 && size >= 2 * overlap ==>
      Even(regions, Stride(size, Threads(requested), overlap))
      && (|regions| == Threads(requested) || |regions| * Stride(size, Threads(requested), overlap) >= size)
    ensures size > 0 ==>
      var threads := if requested < 1 then 1 else if requested > 64 then 64 else requested;
      var stride := if size / threads < overlap then overlap else size / threads;
      if threads == 1 || size < 2 * overlap then regions == [Region(0, size, 0)]
      else
        && |regions| <= threads
        && (|regions| == threads || |regions| * stride >= size)
        && forall i :: 0 <= i < |regions| ==> regions[i].start == i * stride
  {
    hide *;
    if size <= 0 { return []; }
    var threads := Threads(requested);
    ThreadsIs(requested);
    if threads <= 1 || size < overlap * 2 {
      regions := [Region(0, size, 0)];
      WholeIsPartition(size, overlap);
      return;
    }
    var chunk := size / threads;
    if chunk < overlap { chunk := overlap; }
    StrideIs(size, threads, overlap);
    regions := [];
    var i := 0;
    DivideStart(size, threads, overlap, chunk);
    while i < threads
      invariant 0 <= i == |regions| <= threads
      invariant Dividing(regions, size, threads, overlap, chunk)
    {
      var start := i * chunk;
      if start >= size { break; }
      DivideStep(regions, size, threads, overlap, chunk);
      regions := regions + [Region(start, EndOfRegion(start, i, size, threads, overlap, chunk), i)];
      i := i + 1;
    }
    DivideEnd(regions, size, threads, overlap, chunk);
    EvenIs(regions, chunk);
  }

  lemma ThreadsIs(requested: int)
    ensures Threads(requested) == if requested < 1 then 1 else if requested > 64 then 64 else requested
  {}

  lemma EvenIs(regions: seq<Region>, stride: nat)
    requires Even(regions, stride)
    ensures forall i :: 0 <= i < |regions| ==> regions[i].start == i * stride
  {}

  /** All but the last thread stop one overlap behind the start of the next region. */
  function EndOfRegion(start: nat, i: nat, size: nat, threads: nat, overlap: nat, chunk: nat): nat
  {
    if i < threads - 1 then Min(start + chunk + overlap, size) else size
  }

  ghost predicate Dividing(regions: seq<Region>, size: nat, threads: nat, overlap: nat, stride: nat)
  {
    InOrder(regions, size) && Overlapping(regions, size, overlap) && Even(regions, stride)
    && (regions != [] ==>
      regions[0].start == 0
      && regions[|regions| - 1].end
        == EndOfRegion(regions[|regions| - 1].start, |regions| - 1, size, threads, overlap, stride))
  }

  lemma WholeIsPartition(size: nat, overlap: nat)
    ensures Partitioned([Region(0, size, 0)], size, overlap)
  {}

  lemma StrideIs(size: nat, threads: nat, overlap: nat)
    requires threads > 0
    ensures Stride(size, threads, overlap) == if size / threads < overlap then overlap else size / threads
  {}

  lemma DivideStart(size: nat, threads: nat, overlap: nat, stride: nat)
    ensures Dividing([], size, threads, overlap, stride)
  {}

  lemma DivideStep(regions: seq<Region>, size: nat, threads: nat, overlap: nat, stride: nat)
    requires Dividing(regions, size, threads, overlap, stride) && |regions| < threads && |regions| * stride < size
    ensures var n := |regions|; var start := n * stride;
      Dividing(regions + [Region(start, EndOfRegion(start, n, size, threads, overlap, stride), n)], size, threads,
        overlap, stride)
  {
    var n, start := |regions|, |regions| * stride;
    var r := Region(start, EndOfRegion(start, n, size, threads, overlap, stride), n);
    if n > 0 { NextReached(regions[n - 1], r, n, size, threads, overlap, stride); }
    hide Reaches;
    AddRegion(regions, size, overlap, stride, r);
    hide InOrder, Overlapping, Even;
  }

  lemma NextReached(r: Region, next: Region, n: nat, size: nat, threads: nat, overlap: nat, stride: nat)
    requires 0 < n < threads && r.start == (n - 1) * stride && next.start == n * stride < size
    requires r.end == EndOfRegion(r.start, n - 1, size, threads, overlap, stride)
    ensures Reaches(r, next, size, overlap)
  {
    assert n * stride == (n - 1) * stride + stride;
  }

  lemma AddRegion(regions: seq<Region>, size: nat, overlap: nat, stride: nat, r: Region)
    requires InOrder(regions, size) && Overlapping(regions, size, overlap) && Even(regions, stride)
    requires r.id == |regions| && r.start <= r.end <= size && r.start == |regions| * stride
    requires regions != [] ==> Reaches(regions[|regions| - 1], r, size, overlap)
    ensures InOrder(regions + [r], size) && Overlapping(regions + [r], size, overlap) && Even(regions + [r], stride)
  {
    hide Reaches;
    var rs := regions + [r];
    forall i | 0 <= i < |rs| ensures rs[i].start == i * stride {
      if i < |regions| { assert rs[i] == regions[i]; }
    }
  }

  /** The loop stops when every thread has a region or the image is used up. */
  lemma DivideEnd(regions: seq<Region>, size: nat, threads: nat, overlap: nat, stride: nat)
    requires Dividing(regions, size, threads, overlap, stride) && |regions| <= threads && size > 0 && threads > 0
    requires |regions| == threads || |regions| * stride >= size
    ensures Partitioned(regions, size, overlap) && Even(regions, stride)
  {
    hide Reaches;
    var n := |regions|;
    if n > 0 {
      assert n * stride == (n - 1) * stride + stride;
      assert regions[n - 1].start == (n - 1) * stride;
      assert regions[n - 1].end == size;
    }
    hide Even, EndOfRegion;
  }

  ghost predicate Lies(r: Region, a: nat, b: nat) { r.start <= a && b <= r.end }

  /** Every stretch of at most one byte more than the overlap lies in one region: the last one that starts before it. */
  lemma RegionHolds(regions: seq<Region>, size: nat, overlap: nat, a: nat, b: nat)
    requires Partitioned(regions, size, overlap) && a < b <= size && b - a <= overlap + 1
    ensures exists k :: 0 <= k < |regions| && Lies(regions[k], a, b)
  {
    var k := |regions| - 1;
    assert InPlace(regions, 0, size, overlap);
    while regions[k].start > a
      invariant 0 <= k < |regions| && (k < |regions| - 1 ==> a < regions[k + 1].start)
      decreases k
    {
      k := k - 1;
    }
    assert InPlace(regions, k, size, overlap);
    assert Lies(regions[k], a, b);
  }

  // ---- the merge ----

  /** What the threads that finished report, in the order of their regions. */
  function Reported(results: seq<Option<RegionResult>>): seq<CarvedFile>
  {
    if results == [] then []
    else
      var last := results[|results| - 1];
      Reported(results[..|results| - 1]) + if last.None? then [] else last.value.files
  }

  /** Every file of every finished region is reported, in the place its region and its rank give it. */
  lemma {:induction false} ReportedHolds(results: seq<Option<RegionResult>>, r: nat)
    requires r < |results| && results[r].Some?
    ensures var at := |Reported(results[..r])|;
      && at + |results[r].value.files| <= |Reported(results)|
      && Reported(results)[at..at + |results[r].value.files|] == results[r].value.files
    decreases |results|
  {
    var init := results[..|results| - 1];
    if r == |results| - 1 {
    } else {
      ReportedHolds(init, r);
      assert init[..r] == results[..r];
    }
  }

  lemma {:induction false} ReportedIff(results: seq<Option<RegionResult>>, f: CarvedFile)
    ensures f in Reported(results)
       <==> exists r :: 0 <= r < |results| && results[r].Some? && f in results[r].value.files
  {
    if results == [] {
    } else {
      ReportedIff(results[..|results| - 1], f);
      assert results == results[..|results| - 1] + [results[|results| - 1]];
    }
  }

  predicate StartsBy(f: CarvedFile, g: CarvedFile) { f.start <= g.start }

  /** `list.sort` by the start offset. */
  function SortByStart(fs: seq<CarvedFile>): seq<CarvedFile> { StableSorting.StableSort(fs, StartsBy) }

  /** The end of `ThreadedScanner.scan`, after the threads were joined. */
  method MergeRegions(results: seq<Option<RegionResult>>) returns (files: seq<CarvedFile>)
    ensures files == SortByStart(Merge([], Reported(results)))
  {
    hide Merge, SortByStart;
    var all: seq<CarvedFile> := [];
    var lastEnd := 0;
    MergeNothing([]);
    for r := 0 to |results|
      invariant all == Merge([], Reported(results[..r])) && lastEnd == LastEnd(all)
    {
      assert results[..r + 1][..r] == results[..r];
      if results[r].None? {
        assert Reported(results[..r + 1]) == Reported(results[..r]);
        continue;
      }
      var found := results[r].value.files;
      ghost var before := all;
      MergeNothing(before);
      for j := 0 to |found|
        invariant all == Merge(before, found[..j]) && lastEnd == LastEnd(all)
      {
        assert found[..j + 1] == found[..j] + [found[j]];
        MergeSnoc(before, found[..j], found[j]);
        if found[j].start < lastEnd { continue; }
        all := all + [found[j]];
        lastEnd := found[j].end;
      }
      assert found[..|found|] == found;
      MergeConcat([], Reported(results[..r]), found);
    }
    assert results[..|results|] == results;
    files := SortByStart(all);
  }

  lemma {:induction false} SortOfDisjoint(fs: seq<CarvedFile>)
    requires Disjoint(fs)
    ensures SortByStart(fs) == fs
  {
    if fs == [] {
    } else {
      var init, last := fs[..|fs| - 1], fs[|fs| - 1];
      if init != [] {
        var f := init[|init| - 1];
        assert FilesApart(fs[|init| - 1], fs[|init|], false) && FilesApart(fs[|init| - 1], fs[|init| - 1], true);
      }
      SortOfDisjoint(init);
      assert init + [last] == fs;
    }
  }

  /** The final sort changes nothing: the merged files already stand in order, and none reaches into the next. */
  lemma MergedIsDisjoint(results: seq<Option<RegionResult>>)
    requires AllForward(Reported(results))
    ensures Disjoint(Merge([], Reported(results)))
    ensures SortByStart(Merge([], Reported(results))) == Merge([], Reported(results))
  {
    hide Merge, SortByStart;
    MergeDisjoint([], Reported(results));
    SortOfDisjoint(Merge([], Reported(results)));
  }

  /** A file some thread reported is returned, or one that was returned ends behind its start. */
  lemma ReturnedOrPassed(results: seq<Option<RegionResult>>, f: CarvedFile)
    requires AllForward(Reported(results)) && f in Reported(results)
    ensures f in SortByStart(Merge([], Reported(results)))
         || exists g :: g in SortByStart(Merge([], Reported(results))) && f.start < g.end
  {
    hide Merge, SortByStart, Disjoint;
    MergedIsDisjoint(results);
    KeptOrPassed([], Reported(results), f);
  }

  /** When the regions' reports ascend, only files that overlap a returned one are left out. */
  lemma AscendingReportsLoseOverlaps(results: seq<Option<RegionResult>>, f: CarvedFile)
    requires AllForward(Reported(results)) && StartsAscend(Reported(results)) && f in Reported(results)
    ensures f in SortByStart(Merge([], Reported(results)))
         || exists g :: g in SortByStart(Merge([], Reported(results))) && Overlaps(g, f)
  {
    hide Merge, SortByStart, Disjoint;
    MergedIsDisjoint(results);
    assert [] + Reported(results) == Reported(results);
    AscendingDropsOverlaps([], Reported(results), f);
  }
}
