/** What each validation code says about a run list: an issue is raised exactly when the numbers of the list are so. */
module NtfsIssues {
  import opened RawImage
  import opened NtfsMapping
  import opened NtfsValidation

  /** `last` is where the last non-empty run before run `i` ends, or -1 when there is none. */
  ghost predicate EndsBefore(runs: seq<DataRun>, i: nat, last: int)
    requires i <= |runs|
  {
    || (last == -1 && forall j :: 0 <= j < i ==> runs[j].clusterCount == 0)
    || exists k :: 0 <= k < i && LastNonEmpty(runs, k, i) && runs[k].vcnEnd == last
  }

  ghost predicate LastNonEmpty(runs: seq<DataRun>, k: nat, i: nat)
    requires k < i <= |runs|
  {
    runs[k].clusterCount > 0 && forall j :: k < j < i ==> runs[j].clusterCount == 0
  }

  /** Run `k` holds clusters on the volume: the ones from `first` to `last`. */
  predicate OnClusters(run: DataRun, first: int, last: int)
  {
    !run.isSparse && run.clusterCount > 0 && first == run.lcn && last == run.lcn + run.clusterCount - 1
  }

  /** The allocated non-empty runs among the first `n`. */
  function AllocatedRuns(runs: seq<DataRun>, n: nat): nat
    requires n <= |runs|
  {
    if n == 0 then 0
    else AllocatedRuns(runs, n - 1) + if !runs[n - 1].isSparse && runs[n - 1].clusterCount > 0 then 1 else 0
  }

  /** Run `k`, before run `i`, is the one an overlap report names: the `seen`-th allocated run, on these clusters. */
  predicate SeenAs(runs: seq<DataRun>, k: nat, seen: nat, first: int, last: int)
    requires k < |runs|
  {
    OnClusters(runs[k], first, last) && AllocatedRuns(runs, k) == seen
  }

  /** When the checks of one run raise an issue. */
  ghost predicate RunRaises(runs: seq<DataRun>, i: nat, volumeClusters: int, issue: RunlistIssue)
    requires i < |runs|
  {
    match issue
    case ZeroClusterCount(r) => r == i && runs[i].clusterCount == 0
    case ImpossibleSize(r, count) => r == i && count == runs[i].clusterCount > 1_000_000
    case VcnOverlap(r, start, prevEnd) =>
      r == i && runs[i].clusterCount > 0 && start == runs[i].vcnStart <= prevEnd && EndsBefore(runs, i, prevEnd)
    case InvalidLcn(r, lcn) => r == i && lcn == runs[i].lcn < 0 && runs[i].clusterCount > 0 && !runs[i].isSparse
    case LcnOutOfBounds(r, first, last, volume) =>
      r == i && OnClusters(runs[i], first, last) && 0 < volumeClusters == volume <= last
    case LcnOverlap(r, first, last, seen, seenFirst, seenLast) =>
      r == i && OnClusters(runs[i], first, last) && first <= seenLast && seenFirst <= last
      && exists k :: 0 <= k < i && SeenAs(runs, k, seen, seenFirst, seenLast)
    case _ => false
  }

  // ---- what the specification functions hold ----

  lemma {:induction false} PrevEndIs(runs: seq<DataRun>, n: nat, last: int)
    requires n <= |runs|
    ensures PrevEnd(runs, n) == last <==> EndsBefore(runs, n, last)
  {
    if n == 0 {
    } else if runs[n - 1].clusterCount == 0 {
      PrevEndIs(runs, n - 1, last);
      forall k | 0 <= k < n ensures LastNonEmpty(runs, k, n) <==> k < n - 1 && LastNonEmpty(runs, k, n - 1) {}
    } else {
      forall k | 0 <= k < n ensures LastNonEmpty(runs, k, n) <==> k == n - 1 {}
    }
  }

  lemma {:induction false} SeenRangesAre(runs: seq<DataRun>, n: nat, seen: nat, first: int, last: int)
    requires n <= |runs|
    ensures |SeenRanges(runs, n)| == AllocatedRuns(runs, n)
    ensures seen < |SeenRanges(runs, n)| && SeenRanges(runs, n)[seen] == (first, last)
       <==> exists k :: 0 <= k < n && SeenAs(runs, k, seen, first, last)
  {
    if n == 0 {
    } else {
      SeenRangesAre(runs, n - 1, seen, first, last);
      SeenBelow(runs, n - 1);
      assert SeenAs(runs, n - 1, seen, first, last) <==>
        Occupies(runs[n - 1]) && Range(runs[n - 1]) == (first, last) && seen == AllocatedRuns(runs, n - 1);
      hide SeenAs;
    }
  }

  lemma {:induction false} SeenBelow(runs: seq<DataRun>, n: nat)
    requires n <= |runs|
    ensures forall k, seen: nat, first, last :: 0 <= k < n && SeenAs(runs, k, seen, first, last) ==>
      seen < AllocatedRuns(runs, n)
  {
    if n == 0 {
    } else {
      SeenBelow(runs, n - 1);
    }
  }

  lemma {:induction false} OverlapIssuesAre(i: nat, range: (int, int), seen: seq<(int, int)>, n: nat,
                                            issue: RunlistIssue)
    requires n <= |seen|
    ensures issue in OverlapIssues(i, range, seen, n) <==>
      && issue.LcnOverlap? && issue.run == i && (issue.first, issue.last) == range && issue.seen < n
      && seen[issue.seen] == (issue.seenFirst, issue.seenLast)
      && issue.first <= issue.seenLast && issue.seenFirst <= issue.last
  {
    if n == 0 {
    } else {
      OverlapIssuesAre(i, range, seen, n - 1, issue);
    }
  }

  lemma OverlapsWithSeen(runs: seq<DataRun>, i: nat, volumeClusters: int, issue: RunlistIssue)
    requires i < |runs| && runs[i].clusterCount > 0 && !runs[i].isSparse
    ensures issue in OverlapIssues(i, Range(runs[i]), SeenRanges(runs, i), |SeenRanges(runs, i)|) <==>
      issue.LcnOverlap? && RunRaises(runs, i, volumeClusters, issue)
  {
    hide OverlapIssues, SeenRanges, SeenAs;
    var seen := SeenRanges(runs, i);
    OverlapIssuesAre(i, Range(runs[i]), seen, |seen|, issue);
    match issue
    case LcnOverlap(_, _, _, k, first, last) => SeenRangesAre(runs, i, k, first, last);
    case _ =>
  }

  lemma PlacementIssuesAre(runs: seq<DataRun>, i: nat, volumeClusters: int, issue: RunlistIssue)
    requires i < |runs| && runs[i].clusterCount > 0 && !runs[i].isSparse
    ensures issue in PlacementIssues(i, runs[i], SeenRanges(runs, i), volumeClusters) <==>
      (issue.InvalidLcn? || issue.LcnOutOfBounds? || issue.LcnOverlap?) && RunRaises(runs, i, volumeClusters, issue)
  {
    hide OverlapIssues, SeenRanges, SeenAs;
    OverlapsWithSeen(runs, i, volumeClusters, issue);
  }

  lemma RunIssuesAre(runs: seq<DataRun>, i: nat, volumeClusters: int, issue: RunlistIssue)
    requires i < |runs|
    ensures issue in RunIssues(i, runs[i], PrevEnd(runs, i), SeenRanges(runs, i), volumeClusters) <==>
      RunRaises(runs, i, volumeClusters, issue)
  {
    if issue.VcnOverlap? { PrevEndIs(runs, i, issue.prevEnd); }
    hide PrevEnd, SeenRanges, EndsBefore, SeenAs, PlacementIssues;
    if runs[i].clusterCount > 0 && !runs[i].isSparse { PlacementIssuesAre(runs, i, volumeClusters, issue); }
  }

  ghost predicate RaisedBelow(runs: seq<DataRun>, n: nat, volumeClusters: int, issue: RunlistIssue)
    requires n <= |runs|
  {
    exists i :: 0 <= i < n && RunRaises(runs, i, volumeClusters, issue)
  }

  lemma RaisedOneMore(runs: seq<DataRun>, n: nat, volumeClusters: int, issue: RunlistIssue)
    requires n < |runs|
    ensures RaisedBelow(runs, n + 1, volumeClusters, issue)
       <==> RaisedBelow(runs, n, volumeClusters, issue) || RunRaises(runs, n, volumeClusters, issue)
  {
    hide RunRaises;
  }

  lemma {:induction false} IssuesUpToAre(runs: seq<DataRun>, n: nat, volumeClusters: int, issue: RunlistIssue)
    requires n <= |runs|
    ensures issue in IssuesUpTo(runs, n, volumeClusters) <==> RaisedBelow(runs, n, volumeClusters, issue)
  {
    hide RunRaises, RunIssues, PrevEnd, SeenRanges;
    if n == 0 {
    } else {
      hide RaisedBelow;
      IssuesUpToAre(runs, n - 1, volumeClusters, issue);
      RunIssuesAre(runs, n - 1, volumeClusters, issue);
      RaisedOneMore(runs, n - 1, volumeClusters, issue);
    }
  }

  /** The codes of a validation, one by one: which numbers raise which. */
  lemma IssueIff(runs: seq<DataRun>, totalClusters: int, volumeClusters: int, issue: RunlistIssue)
    ensures issue in Issues(runs, totalClusters, volumeClusters) <==>
      || (issue == EmptyRunlist && runs == [])
      || RaisedBelow(runs, |runs|, volumeClusters, issue)
      || (runs != [] && totalClusters > 0 && runs[|runs| - 1].vcnEnd >= totalClusters
          && issue == VcnExceedsTotal(runs[|runs| - 1].vcnEnd, totalClusters))
  {
    hide IssuesUpTo, RunRaises;
    IssuesUpToAre(runs, |runs|, volumeClusters, issue);
  }

  // ---- circular runs ----

  predicate InRun(run: DataRun, lcn: int) { !run.isSparse && 0 <= run.lcn <= lcn < run.lcn + run.clusterCount }

  lemma {:induction false} SeenInEarlier(runs: seq<DataRun>, n: nat, lcn: int)
    requires n <= |runs| && lcn in SeenClusters(runs, n)
    ensures exists j :: 0 <= j < n && InRun(runs[j], lcn)
  {
    if n == 0 {
      assert false;
    } else if lcn in SeenClusters(runs, n - 1) {
      SeenInEarlier(runs, n - 1, lcn);
    } else {
      assert InRun(runs[n - 1], lcn);
    }
  }

  /** A circular run is named with a cluster of its own that an earlier run also holds. */
  lemma {:induction false} CircularIsShared(runs: seq<DataRun>, n: nat, i: nat, lcn: int)
    requires n <= |runs| && CircularRun(i, lcn) in CircularIssues(runs, n)
    ensures i < n && InRun(runs[i], lcn) && exists j :: 0 <= j < i && InRun(runs[j], lcn)
  {
    if n == 0 {
      assert false;
    } else if CircularRun(i, lcn) in CircularIssues(runs, n - 1) {
      CircularIsShared(runs, n - 1, i, lcn);
    } else {
      hide SeenClusters;
      SeenInEarlier(runs, n - 1, lcn);
    }
  }
}
