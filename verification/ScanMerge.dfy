/** What the scanners do with the files their windows or regions report: keep a file when it starts at or
    behind the end of the last one kept. */
module ScanMerge {
  import opened RawImage
  import opened Carving

  function LastEnd(kept: seq<CarvedFile>): nat { if kept == [] then 0 else kept[|kept| - 1].end }

  /** The files of `found` that are kept, after those of `kept`. */
  function Merge(kept: seq<CarvedFile>, found: seq<CarvedFile>): seq<CarvedFile>
    decreases |found|
  {
    if found == [] then kept
    else Merge(if found[0].start < LastEnd(kept) then kept else kept + [found[0]], found[1..])
  }

  lemma {:induction false} MergeConcat(kept: seq<CarvedFile>, a: seq<CarvedFile>, b: seq<CarvedFile>)
    ensures Merge(kept, a + b) == Merge(Merge(kept, a), b)
    decreases |a|
  {
    if a == [] {
      assert a + b == b;
    } else {
      assert (a + b)[1..] == a[1..] + b;
      MergeConcat(if a[0].start < LastEnd(kept) then kept else kept + [a[0]], a[1..], b);
    }
  }

  lemma MergeNothing(kept: seq<CarvedFile>)
    ensures Merge(kept, []) == kept
  {}

  lemma MergeSnoc(kept: seq<CarvedFile>, found: seq<CarvedFile>, f: CarvedFile)
    ensures Merge(kept, found + [f])
         == var m := Merge(kept, found); if f.start < LastEnd(m) then m else m + [f]
  {
    MergeConcat(kept, found, [f]);
    assert [f][1..] == [];
  }

  ghost predicate Forward(f: CarvedFile) { f.start <= f.end }

  /** In ascending order, and no file reaches into the next. */
  ghost predicate Disjoint(fs: seq<CarvedFile>)
  {
    forall i, j :: 0 <= i <= j < |fs| ==> FilesApart(fs[i], fs[j], i == j)
  }

  ghost predicate FilesApart(f: CarvedFile, g: CarvedFile, same: bool) { if same then Forward(f) else f.end <= g.start }

  lemma DisjointSnoc(fs: seq<CarvedFile>, f: CarvedFile)
    requires Disjoint(fs) && Forward(f) && LastEnd(fs) <= f.start
    ensures Disjoint(fs + [f])
  {
    var gs := fs + [f];
    forall i, j | 0 <= i <= j < |gs| ensures FilesApart(gs[i], gs[j], i == j) {
      if i < |fs| {
        assert FilesApart(fs[i], fs[|fs| - 1], i == |fs| - 1) && FilesApart(fs[|fs| - 1], fs[|fs| - 1], true);
        if j < |fs| { assert FilesApart(fs[i], fs[j], i == j); }
      }
    }
  }

  ghost predicate AllForward(fs: seq<CarvedFile>) { forall f :: f in fs ==> Forward(f) }

  lemma {:induction false} MergeDisjoint(kept: seq<CarvedFile>, found: seq<CarvedFile>)
    requires Disjoint(kept) && AllForward(found)
    ensures Disjoint(Merge(kept, found))
    decreases |found|
  {
    hide Disjoint;
    if found == [] {
    } else {
      if found[0].start >= LastEnd(kept) { DisjointSnoc(kept, found[0]); }
      MergeDisjoint(if found[0].start < LastEnd(kept) then kept else kept + [found[0]], found[1..]);
    }
  }

  /** Files that already follow one another behind those kept are all kept. */
  lemma {:induction false} MergeKeepsAll(kept: seq<CarvedFile>, found: seq<CarvedFile>)
    requires Disjoint(kept + found)
    ensures Merge(kept, found) == kept + found
    decreases |found|
  {
    if found == [] {
      assert kept + found == kept;
    } else {
      var fs := kept + found;
      if kept != [] { assert FilesApart(fs[|kept| - 1], fs[|kept|], false); }
      assert kept + [found[0]] + found[1..] == fs;
      hide Disjoint;
      MergeKeepsAll(kept + [found[0]], found[1..]);
    }
  }

  /** Nothing at all is dropped exactly when the files were reported in ascending order without overlaps. */
  lemma AllKeptIff(found: seq<CarvedFile>)
    requires AllForward(found)
    ensures Merge([], found) == found <==> Disjoint(found)
  {
    MergeDisjoint([], found);
    assert [] + found == found;
    if Disjoint(found) { MergeKeepsAll([], found); }
  }

  /** Files that all start before the end of the last one kept are all dropped. */
  lemma {:induction false} MergeDropsAll(kept: seq<CarvedFile>, found: seq<CarvedFile>)
    requires forall f :: f in found ==> f.start < LastEnd(kept)
    ensures Merge(kept, found) == kept
    decreases |found|
  {
    if found == [] {
    } else {
      MergeDropsAll(kept, found[1..]);
    }
  }

  /** Nothing is made up: what is kept was kept before or was found. */
  lemma {:induction false} MergeMembers(kept: seq<CarvedFile>, found: seq<CarvedFile>, f: CarvedFile)
    requires f in Merge(kept, found)
    ensures f in kept || f in found
    decreases |found|
  {
    if found == [] {
    } else {
      MergeMembers(if found[0].start < LastEnd(kept) then kept else kept + [found[0]], found[1..], f);
    }
  }

  lemma EndsByLast(fs: seq<CarvedFile>, f: CarvedFile)
    requires Disjoint(fs) && f in fs
    ensures f.end <= LastEnd(fs)
  {
    var i :| 0 <= i < |fs| && fs[i] == f;
    assert FilesApart(fs[i], fs[|fs| - 1], i == |fs| - 1) && FilesApart(fs[|fs| - 1], fs[|fs| - 1], true);
  }

  /** `f` starts at or behind the end of every file of `kept`. */
  ghost predicate Behind(kept: seq<CarvedFile>, f: CarvedFile) { forall g :: g in kept ==> g.end <= f.start }

  /** The exact rule: at its turn a file is kept if it lies behind every file kept before it, and else dropped for
      good. */
  lemma KeptIffBehind(kept: seq<CarvedFile>, before: seq<CarvedFile>, f: CarvedFile, after: seq<CarvedFile>)
    requires Disjoint(kept) && AllForward(before)
    ensures var m := Merge(kept, before);
      Merge(kept, before + [f] + after) == Merge(if Behind(m, f) then m + [f] else m, after)
  {
    hide Disjoint, Merge;
    var m := Merge(kept, before);
    MergeDisjoint(kept, before);
    MergeConcat(kept, before + [f], after);
    MergeSnoc(kept, before, f);
    BehindLast(m, f);
  }

  lemma BehindLast(kept: seq<CarvedFile>, f: CarvedFile)
    requires Disjoint(kept)
    ensures Behind(kept, f) <==> LastEnd(kept) <= f.start
  {
    hide Disjoint;
    if kept != [] { assert kept[|kept| - 1] in kept; }
    forall g | g in kept ensures g.end <= LastEnd(kept) { EndsByLast(kept, g); }
  }

  /** A file that was found is kept, or one that was kept ends behind its start.  That one may lie wholly behind it
      (LostBehindLater). */
  lemma {:induction false} KeptOrPassed(kept: seq<CarvedFile>, found: seq<CarvedFile>, f: CarvedFile)
    requires f in found
    ensures f in Merge(kept, found) || exists g :: g in Merge(kept, found) && f.start < g.end
    decreases |found|
  {
    var next := if found[0].start < LastEnd(kept) then kept else kept + [found[0]];
    MergeExtends(next, found[1..]);
    if f in found[1..] {
      KeptOrPassed(next, found[1..], f);
    } else if next == kept {
      assert kept[|kept| - 1] in Merge(kept, found);
    }
  }

  /** A file reported before is kept even if it lies behind: then the earlier one is lost though it overlaps nothing. */
  lemma LostBehindLater(f: CarvedFile, g: CarvedFile)
    requires Forward(f) && f.end <= g.start < g.end
    ensures Merge([], [g, f]) == [g]
    ensures Merge([], [f, g]) == [f, g]
  {
    assert [g, f] == [g] + [f] && [f, g] == [f] + [g];
    MergeSnoc([], [g], f);
    MergeSnoc([], [f], g);
    MergeSnoc([], [], g);
    MergeSnoc([], [], f);
    MergeNothing([]);
    assert [] + [g] == [g] && [] + [f] == [f];
  }

  /** The files start in ascending order. */
  ghost predicate StartsAscend(fs: seq<CarvedFile>) { forall i, j :: 0 <= i < j < |fs| ==> fs[i].start <= fs[j].start }

  predicate Overlaps(g: CarvedFile, f: CarvedFile) { g.start <= f.start < g.end }

  /** When files are reported in ascending order of their starts, only files that overlap a kept one are dropped. */
  lemma {:induction false} AscendingDropsOverlaps(kept: seq<CarvedFile>, found: seq<CarvedFile>, f: CarvedFile)
    requires StartsAscend(kept + found) && f in found
    ensures f in Merge(kept, found) || exists g :: g in Merge(kept, found) && Overlaps(g, f)
    decreases |found|
  {
    var all := kept + found;
    var next := if found[0].start < LastEnd(kept) then kept else kept + [found[0]];
    MergeExtends(next, found[1..]);
    if f == found[0] {
      if next == kept {
        var g := kept[|kept| - 1];
        assert all[|kept| - 1] == g && all[|kept|] == f;
        assert g in Merge(kept, found) && Overlaps(g, f);
      }
    } else {
      AscendRest(kept, found, next);
      AscendingDropsOverlaps(next, found[1..], f);
    }
  }

  lemma AscendRest(kept: seq<CarvedFile>, found: seq<CarvedFile>, next: seq<CarvedFile>)
    requires StartsAscend(kept + found) && found != [] && (next == kept || next == kept + [found[0]])
    ensures StartsAscend(next + found[1..])
  {
    var all, rest := kept + found, next + found[1..];
    if next == kept {
      forall i, j | 0 <= i < j < |rest| ensures rest[i].start <= rest[j].start {
        assert rest[i] == all[if i < |kept| then i else i + 1] && rest[j] == all[if j < |kept| then j else j + 1];
      }
    } else {
      assert rest == all;
    }
  }

  lemma {:induction false} MergeExtends(kept: seq<CarvedFile>, found: seq<CarvedFile>)
    ensures kept <= Merge(kept, found)
    decreases |found|
  {
    if found != [] { MergeExtends(if found[0].start < LastEnd(kept) then kept else kept + [found[0]], found[1..]); }
  }
}
