/** Validation of a resolved run list: the per-run checks with their pairwise interval test,
    and the cluster-by-cluster test for circular references. */
module NtfsValidation {
  import opened RawImage
  import opened NtfsMapping
  import opened NtfsExecutor

  /** Every issue the two checks raise carries severity "error". */
  datatype RunlistIssue =
    | EmptyRunlist
    | ZeroClusterCount(run: nat)
    | ImpossibleSize(run: nat, count: nat)
    | VcnOverlap(run: nat, start: int, prevEnd: int)
    | InvalidLcn(run: nat, lcn: int)
    | LcnOutOfBounds(run: nat, first: int, last: int, volume: int)
    | LcnOverlap(run: nat, first: int, last: int, seen: nat, seenFirst: int, seenLast: int)
    | VcnExceedsTotal(lastVcn: int, total: int)
    | CircularRun(run: nat, lcn: int)

  const IMPOSSIBLE_COUNT := 1_000_000

  /** A run whose logical clusters the interval test looks at. */
  predicate Occupies(run: DataRun) { run.clusterCount > 0 && !run.isSparse }

  function LastLcn(run: DataRun): int { run.lcn + run.clusterCount - 1 }

  function Range(run: DataRun): (int, int) { (run.lcn, LastLcn(run)) }

  predicate Overlap(a: (int, int), b: (int, int)) { a.0 <= b.1 && a.1 >= b.0 }

  // ---- validate_runlist ----

  /** The end of the last non-empty run among the first `n`. */
  function PrevEnd(runs: seq<DataRun>, n: nat): int
    requires n <= |runs|
  {
    if n == 0 then -1
    else if runs[n - 1].clusterCount == 0 then PrevEnd(runs, n - 1)
    else runs[n - 1].vcnEnd
  }

  function SeenRanges(runs: seq<DataRun>, n: nat): seq<(int, int)>
    requires n <= |runs|
  {
    if n == 0 then []
    else if Occupies(runs[n - 1]) then SeenRanges(runs, n - 1) + [Range(runs[n - 1])] else SeenRanges(runs, n - 1)
  }

  function OverlapIssues(i: nat, range: (int, int), seen: seq<(int, int)>, n: nat): seq<RunlistIssue>
    requires n <= |seen|
  {
    if n == 0 then []
    else (
      var earlier := OverlapIssues(i, range, seen, n - 1);
      if Overlap(range, seen[n - 1])
      then earlier + [LcnOverlap(i, range.0, range.1, n - 1, seen[n - 1].0, seen[n - 1].1)]
      else earlier
    )
  }

  function PlacementIssues(i: nat, run: DataRun, seen: seq<(int, int)>, volumeClusters: int): seq<RunlistIssue>
  {
    (if run.lcn < 0 then [InvalidLcn(i, run.lcn)] else [])
    + (if volumeClusters > 0 && LastLcn(run) >= volumeClusters
       then [LcnOutOfBounds(i, run.lcn, LastLcn(run), volumeClusters)] else [])
    + OverlapIssues(i, Range(run), seen, |seen|)
  }

  /** What is wrong with run `i`, given the end of the last non-empty run and the ranges seen before it. */
  function RunIssues(i: nat, run: DataRun, prevEnd: int, seen: seq<(int, int)>, volumeClusters: int): seq<RunlistIssue>
  {
    if run.clusterCount == 0 then [ZeroClusterCount(i)]
    else
      (if run.clusterCount > IMPOSSIBLE_COUNT then [ImpossibleSize(i, run.clusterCount)] else [])
      + (if run.vcnStart <= prevEnd then [VcnOverlap(i, run.vcnStart, prevEnd)] else [])
      + (if run.isSparse then [] else PlacementIssues(i, run, seen, volumeClusters))
  }

  function IssuesUpTo(runs: seq<DataRun>, n: nat, volumeClusters: int): seq<RunlistIssue>
    requires n <= |runs|
  {
    if n == 0 then [] else
    IssuesUpTo(runs, n - 1, volumeClusters)
    + RunIssues(n - 1, runs[n - 1], PrevEnd(runs, n - 1), SeenRanges(runs, n - 1), volumeClusters)
  }

  function Issues(runs: seq<DataRun>, totalClusters: int, volumeClusters: int): seq<RunlistIssue>
  {
    if runs == [] then [EmptyRunlist] else
    IssuesUpTo(runs, |runs|, volumeClusters)
    + if totalClusters > 0 && runs[|runs| - 1].vcnEnd >= totalClusters
      then [VcnExceedsTotal(runs[|runs| - 1].vcnEnd, totalClusters)] else []
  }

  method FindOverlaps(i: nat, range: (int, int), seen: seq<(int, int)>) returns (issues: seq<RunlistIssue>)
    ensures issues == OverlapIssues(i, range, seen, |seen|)
  {
    issues := [];
    for j := 0 to |seen|
      invariant issues == OverlapIssues(i, range, seen, j)
    {
      var (seenStart, seenEnd) := seen[j];
      if range.0 <= seenEnd && range.1 >= seenStart {
        issues := issues + [LcnOverlap(i, range.0, range.1, j, seenStart, seenEnd)];
      }
    }
  }

  method CheckPlacement(i: nat, run: DataRun, seen: seq<(int, int)>, volumeClusters: int)
    returns (issues: seq<RunlistIssue>)
    ensures issues == PlacementIssues(i, run, seen, volumeClusters)
  {
    hide OverlapIssues;
    issues := [];
    var lcnStart, lcnEnd := run.lcn, run.lcn + run.clusterCount - 1;
    if lcnStart < 0 {
      issues := issues + [InvalidLcn(i, lcnStart)];
    }
    if volumeClusters > 0 && lcnEnd >= volumeClusters {
      issues := issues + [LcnOutOfBounds(i, lcnStart, lcnEnd, volumeClusters)];
    }
    var overlaps := FindOverlaps(i, (lcnStart, lcnEnd), seen);
    issues := issues + overlaps;
  }

  method CheckRun(i: nat, run: DataRun, prevVcnEnd: int, seen: seq<(int, int)>, volumeClusters: int)
    returns (issues: seq<RunlistIssue>)
    ensures issues == RunIssues(i, run, prevVcnEnd, seen, volumeClusters)
  {
    hide PlacementIssues;
    if run.clusterCount == 0 {
      return [ZeroClusterCount(i)];
    }
    issues := [];
    if run.clusterCount > IMPOSSIBLE_COUNT {
      issues := issues + [ImpossibleSize(i, run.clusterCount)];
    }
    if run.vcnStart <= prevVcnEnd {
      issues := issues + [VcnOverlap(i, run.vcnStart, prevVcnEnd)];
    }
    if !run.isSparse {
      var placement := CheckPlacement(i, run, seen, volumeClusters);
      issues := issues + placement;
    }
  }

  /** What the validation loop carries when it reaches run `i`. */
  ghost predicate ValidateState(runs: seq<DataRun>, i: nat, volumeClusters: int,
                                issues: seq<RunlistIssue>, seen: seq<(int, int)>, prevEnd: int)
  {
    && i <= |runs|
    && issues == IssuesUpTo(runs, i, volumeClusters) && seen == SeenRanges(runs, i) && prevEnd == PrevEnd(runs, i)
  }

  lemma ValidateStart(runs: seq<DataRun>, volumeClusters: int)
    ensures ValidateState(runs, 0, volumeClusters, [], [], -1)
  {}

  lemma ValidateStep(runs: seq<DataRun>, i: nat, volumeClusters: int,
                     issues: seq<RunlistIssue>, seen: seq<(int, int)>, prevEnd: int)
    requires ValidateState(runs, i, volumeClusters, issues, seen, prevEnd) && i < |runs|
    ensures var run := runs[i];
      ValidateState(runs, i + 1, volumeClusters,
                    issues + RunIssues(i, run, prevEnd, seen, volumeClusters),
                    if run.clusterCount == 0
                      || run.isSparse then seen else seen + [(run.lcn, run.lcn + run.clusterCount - 1)],
                    if run.clusterCount == 0 then prevEnd else run.vcnEnd)
  {
    hide RunIssues;
  }

  lemma ValidateEnd(runs: seq<DataRun>, volumeClusters: int, issues: seq<RunlistIssue>, seen: seq<(int, int)>,
                    prevEnd: int)
    requires ValidateState(runs, |runs|, volumeClusters, issues, seen, prevEnd)
    ensures issues == IssuesUpTo(runs, |runs|, volumeClusters)
  {}

  method ValidateRuns(resolved: seq<DataRun>, volumeClusters: int) returns (issues: seq<RunlistIssue>)
    ensures issues == IssuesUpTo(resolved, |resolved|, volumeClusters)
  {
    hide *;
    issues := [];
    var seenLcnRanges: seq<(int, int)> := [];
    var prevVcnEnd := -1;
    ValidateStart(resolved, volumeClusters);
    for i := 0 to |resolved|
      invariant ValidateState(resolved, i, volumeClusters, issues, seenLcnRanges, prevVcnEnd)
    {
      ValidateStep(resolved, i, volumeClusters, issues, seenLcnRanges, prevVcnEnd);
      var run := resolved[i];
      var found := CheckRun(i, run, prevVcnEnd, seenLcnRanges, volumeClusters);
      issues := issues + found;
      seenLcnRanges := if run.clusterCount == 0 || run.isSparse then seenLcnRanges
                       else seenLcnRanges + [(run.lcn, run.lcn + run.clusterCount - 1)];
      prevVcnEnd := if run.clusterCount == 0 then prevVcnEnd else run.vcnEnd;
    }
    ValidateEnd(resolved, volumeClusters, issues, seenLcnRanges, prevVcnEnd);
  }

  method ValidateRunlist(resolved: seq<DataRun>, totalClusters: int, volumeClusters: int)
    returns (issues: seq<RunlistIssue>)
    ensures issues == Issues(resolved, totalClusters, volumeClusters)
  {
    hide IssuesUpTo;
    if resolved == [] {
      return [EmptyRunlist];
    }
    issues := ValidateRuns(resolved, volumeClusters);
    if totalClusters > 0 {
      var lastVcn := resolved[|resolved| - 1].vcnEnd;
      if lastVcn >= totalClusters {
        issues := issues + [VcnExceedsTotal(lastVcn, totalClusters)];
      }
    }
  }

  // ---- what a clean answer means ----

  /** No allocated run before run `i` shares a logical cluster with it. */
  ghost predicate DisjointFromEarlier(runs: seq<DataRun>, i: nat)
    requires i < |runs|
  {
    ClearOfRuns(Range(runs[i]), runs, i)
  }

  ghost predicate PairwiseDisjoint(runs: seq<DataRun>, n: nat)
    requires n <= |runs|
  {
    forall i :: 0 <= i < n && Occupies(runs[i]) ==> DisjointFromEarlier(runs, i)
  }

  /** What validation accepts in one run of a contiguous list. */
  ghost predicate SoundRun(runs: seq<DataRun>, i: nat, volumeClusters: int)
    requires i < |runs|
  {
    var run := runs[i];
    && 0 < run.clusterCount <= IMPOSSIBLE_COUNT
    && (!run.isSparse ==>
          && 0 <= run.lcn
          && (volumeClusters > 0 ==> LastLcn(run) < volumeClusters)
          && DisjointFromEarlier(runs, i))
  }

  ghost predicate Sound(runs: seq<DataRun>, totalClusters: int, volumeClusters: int)
  {
    && runs != []
    && (forall i :: 0 <= i < |runs| ==> SoundRun(runs, i, volumeClusters))
    && (totalClusters > 0 ==> Clusters(runs, |runs|) <= totalClusters)
  }

  lemma {:induction false} OverlapIssuesEmpty(i: nat, range: (int, int), seen: seq<(int, int)>, n: nat)
    requires n <= |seen|
    ensures OverlapIssues(i, range, seen, n) == [] <==> ClearOfRanges(range, seen[..n])
  {
    if n == 0 {
    } else {
      OverlapIssuesEmpty(i, range, seen, n - 1);
      assert seen[..n] == seen[..n - 1] + [seen[n - 1]];
      ClearOfOneMore(range, seen[..n - 1], seen[n - 1]);
    }
  }

  ghost predicate ClearOfRanges(range: (int, int), ranges: seq<(int, int)>)
  {
    forall j :: 0 <= j < |ranges| ==> !Overlap(range, ranges[j])
  }

  ghost predicate ClearOfRuns(range: (int, int), runs: seq<DataRun>, n: nat)
    requires n <= |runs|
  {
    forall j :: 0 <= j < n && Occupies(runs[j]) ==> !Overlap(range, Range(runs[j]))
  }

  lemma ClearOfOneMore(range: (int, int), ranges: seq<(int, int)>, last: (int, int))
    ensures ClearOfRanges(range, ranges + [last]) <==> ClearOfRanges(range, ranges) && !Overlap(range, last)
  {
    var all := ranges + [last];
    assert all[|ranges|] == last;
    if ClearOfRanges(range, all) {
      forall j | 0 <= j < |ranges| ensures !Overlap(range, ranges[j]) { assert all[j] == ranges[j]; }
    }
  }

  /** The ranges seen before run `n` are those of the occupying runs before it. */
  lemma {:induction false} SeenIsEarlier(range: (int, int), runs: seq<DataRun>, n: nat)
    requires n <= |runs|
    ensures ClearOfRanges(range, SeenRanges(runs, n)) <==> ClearOfRuns(range, runs, n)
  {
    if n == 0 {
    } else {
      SeenIsEarlier(range, runs, n - 1);
      if Occupies(runs[n - 1]) {
        ClearOfOneMore(range, SeenRanges(runs, n - 1), Range(runs[n - 1]));
      }
    }
  }

  /** In a contiguous list a non-empty run always starts past the previous one. */
  lemma {:induction false} NoVcnOverlap(runs: seq<DataRun>, n: nat)
    requires Contiguous(runs) && n <= |runs|
    ensures PrevEnd(runs, n) < Clusters(runs, n)
  {
    if n == 0 {
    } else {
      NoVcnOverlap(runs, n - 1);
      assert Placed(runs, n - 1);
    }
  }

  lemma RunIssuesEmpty(runs: seq<DataRun>, i: nat, volumeClusters: int)
    requires Contiguous(runs) && i < |runs|
    ensures RunIssues(i, runs[i], PrevEnd(runs, i), SeenRanges(runs, i), volumeClusters) == []
      <==> SoundRun(runs, i, volumeClusters)
  {
    hide OverlapIssues, SeenRanges, PrevEnd;
    assert Placed(runs, i);
    NoVcnOverlap(runs, i);
    var seen := SeenRanges(runs, i);
    OverlapIssuesEmpty(i, Range(runs[i]), seen, |seen|);
    assert seen[..|seen|] == seen;
    SeenIsEarlier(Range(runs[i]), runs, i);
  }

  lemma {:induction false} IssuesUpToEmpty(runs: seq<DataRun>, n: nat, volumeClusters: int)
    requires Contiguous(runs) && n <= |runs|
    ensures IssuesUpTo(runs, n, volumeClusters) == [] <==> forall i :: 0 <= i < n ==> SoundRun(runs, i, volumeClusters)
  {
    hide RunIssues, SoundRun, Contiguous, PrevEnd, SeenRanges;
    if n == 0 {
    } else {
      IssuesUpToEmpty(runs, n - 1, volumeClusters);
      RunIssuesEmpty(runs, n - 1, volumeClusters);
      ConcatEmpty(IssuesUpTo(runs, n - 1, volumeClusters),
                  RunIssues(n - 1, runs[n - 1], PrevEnd(runs, n - 1), SeenRanges(runs, n - 1), volumeClusters));
      hide IssuesUpTo;
    }
  }

  lemma ConcatEmpty<T>(a: seq<T>, b: seq<T>)
    ensures a + b == [] <==> a == [] && b == []
  {
    assert |a + b| == |a| + |b|;
  }

  /** Validation answers with no issue exactly on the sound run lists. */
  lemma CleanIffSound(runs: seq<DataRun>, totalClusters: int, volumeClusters: int)
    requires Contiguous(runs)
    ensures Issues(runs, totalClusters, volumeClusters) == [] <==> Sound(runs, totalClusters, volumeClusters)
  {
    hide SoundRun;
    IssuesUpToEmpty(runs, |runs|, volumeClusters);
    if runs != [] {
      assert Placed(runs, |runs| - 1);
    }
  }

  // ---- check_circular_runs ----

  /** The first cluster of `lo`, ..., `hi - 1` that was seen before, or `hi`. */
  function FirstSeen(lo: int, hi: int, seen: set<int>): (c: int)
    requires lo <= hi
    ensures lo <= c <= hi && (c < hi ==> c in seen)
    ensures forall k :: lo <= k < c ==> k !in seen
    decreases hi - lo
  {
    if lo == hi || lo in seen then lo else FirstSeen(lo + 1, hi, seen)
  }

  function Interval(lo: int, hi: int): (r: set<int>)
    ensures forall k :: k in r <==> lo <= k < hi
    decreases hi - lo
  {
    if hi <= lo then {} else Interval(lo, hi - 1) + {hi - 1}
  }

  predicate Scanned(run: DataRun) { !run.isSparse && run.lcn >= 0 }

  /** The clusters recorded after `n` runs: a run stops recording at its first repeated cluster. */
  function SeenClusters(runs: seq<DataRun>, n: nat): set<int>
    requires n <= |runs|
  {
    if n == 0 then {} else
    var seen := SeenClusters(runs, n - 1);
    var run := runs[n - 1];
    if !Scanned(run) then seen
    else seen + Interval(run.lcn, FirstSeen(run.lcn, run.lcn + run.clusterCount, seen))
  }

  function CircularIssues(runs: seq<DataRun>, n: nat): seq<RunlistIssue>
    requires n <= |runs|
  {
    if n == 0 then [] else
    var run := runs[n - 1];
    var c := FirstSeen(run.lcn, run.lcn + run.clusterCount, SeenClusters(runs, n - 1));
    CircularIssues(runs, n - 1)
    + if Scanned(run) && c < run.lcn + run.clusterCount then [CircularRun(n - 1, c)] else []
  }

  method ScanRun(run: DataRun, seen: set<int>) returns (now: set<int>, repeated: int)
    requires Scanned(run)
    ensures repeated == FirstSeen(run.lcn, run.lcn + run.clusterCount, seen)
    ensures now == seen + Interval(run.lcn, repeated)
  {
    now := seen;
    repeated := run.lcn;
    while repeated < run.lcn + run.clusterCount
      invariant run.lcn <= repeated <= run.lcn + run.clusterCount
      invariant now == seen + Interval(run.lcn, repeated)
      invariant FirstSeen(run.lcn, run.lcn + run.clusterCount, seen)
        == FirstSeen(repeated, run.lcn + run.clusterCount, seen)
    {
      if repeated in now {
        break;
      }
      now := now + {repeated};
      repeated := repeated + 1;
    }
  }

  method CheckCircularRuns(resolved: seq<DataRun>) returns (issues: seq<RunlistIssue>)
    ensures issues == CircularIssues(resolved, |resolved|)
  {
    hide FirstSeen, Interval;
    issues := [];
    var seenLcns: set<int> := {};
    for i := 0 to |resolved|
      invariant issues == CircularIssues(resolved, i)
      invariant seenLcns == SeenClusters(resolved, i)
    {
      var run := resolved[i];
      if run.isSparse || run.lcn < 0 {
        continue;
      }
      var c;
      seenLcns, c := ScanRun(run, seenLcns);
      if c < run.lcn + run.clusterCount {
        issues := issues + [CircularRun(i, c)];
      }
    }
  }

  /** Before any repetition the recorded clusters are exactly those of the occupying runs. */
  lemma {:induction false} SeenWhileDisjoint(runs: seq<DataRun>, n: nat)
    requires NoNegativeLcn(runs) && n <= |runs| && CircularIssues(runs, n) == []
    ensures forall c :: c in SeenClusters(runs, n) <==>
      exists j :: 0 <= j < n && Occupies(runs[j]) && runs[j].lcn <= c <= LastLcn(runs[j])
  {
    if n == 0 {
    } else {
      SeenWhileDisjoint(runs, n - 1);
      assert !BadSeek(runs[n - 1]);
    }
  }

  lemma MeetsSeen(runs: seq<DataRun>, i: nat)
    requires NoNegativeLcn(runs) && i < |runs| && Occupies(runs[i]) && CircularIssues(runs, i) == []
    ensures var hi := runs[i].lcn + runs[i].clusterCount;
      FirstSeen(runs[i].lcn, hi, SeenClusters(runs, i)) == hi <==> DisjointFromEarlier(runs, i)
  {
    var run := runs[i];
    var seen := SeenClusters(runs, i);
    var c := FirstSeen(run.lcn, run.lcn + run.clusterCount, seen);
    hide CircularIssues, SeenClusters, FirstSeen;
    SeenWhileDisjoint(runs, i);
    if c < run.lcn + run.clusterCount {
      var j :| 0 <= j < i && Occupies(runs[j]) && runs[j].lcn <= c <= LastLcn(runs[j]);
      assert Overlap(Range(run), Range(runs[j]));
    } else {
      forall j | 0 <= j < i && Occupies(runs[j])
        ensures !Overlap(Range(run), Range(runs[j]))
      {
        var k := Max(run.lcn, runs[j].lcn);
        assert runs[j].lcn <= k <= LastLcn(runs[j]) ==> k in seen;
      }
    }
  }

  lemma {:induction false} NoCircularIffDisjoint(runs: seq<DataRun>, n: nat)
    requires NoNegativeLcn(runs) && n <= |runs|
    ensures CircularIssues(runs, n) == [] <==> PairwiseDisjoint(runs, n)
  {
    hide *;
    if n == 0 {
      NothingCircular(runs);
      NoneDisjoint(runs);
    } else {
      NoCircularIffDisjoint(runs, n - 1);
      CircularStep(runs, n);
      PairwiseStep(runs, n);
      if CircularIssues(runs, n - 1) == [] { RunsAgree(runs, n - 1); }
    }
  }

  /** No cluster of run `i` is recorded before the run is scanned. */
  ghost predicate Unseen(runs: seq<DataRun>, i: nat)
    requires i < |runs|
  {
    var run := runs[i];
    Scanned(run) ==>
      run.lcn + run.clusterCount <= FirstSeen(run.lcn, run.lcn + run.clusterCount, SeenClusters(runs, i))
  }

  lemma RunsAgree(runs: seq<DataRun>, i: nat)
    requires NoNegativeLcn(runs) && i < |runs| && CircularIssues(runs, i) == []
    ensures Unseen(runs, i) <==> (Occupies(runs[i]) ==> DisjointFromEarlier(runs, i))
  {
    assert !BadSeek(runs[i]);
    hide CircularIssues, DisjointFromEarlier, FirstSeen, SeenClusters, NoNegativeLcn;
    if Occupies(runs[i]) { MeetsSeen(runs, i); }
  }

  lemma CircularStep(runs: seq<DataRun>, n: nat)
    requires 0 < n <= |runs|
    ensures CircularIssues(runs, n) == [] <==> CircularIssues(runs, n - 1) == [] && Unseen(runs, n - 1)
  {
    hide FirstSeen, SeenClusters;
  }

  lemma PairwiseStep(runs: seq<DataRun>, n: nat)
    requires 0 < n <= |runs|
    ensures PairwiseDisjoint(runs, n)
       <==> PairwiseDisjoint(runs, n - 1) && (Occupies(runs[n - 1]) ==> DisjointFromEarlier(runs, n - 1))
  {
    hide DisjointFromEarlier;
  }

  // ---- the two tests agree ----

  ghost predicate ReportsOverlap(issues: seq<RunlistIssue>)
  {
    exists k :: 0 <= k < |issues| && issues[k].LcnOverlap?
  }

  lemma {:induction false} OverlapIssuesReport(i: nat, range: (int, int), seen: seq<(int, int)>, n: nat)
    requires n <= |seen|
    ensures ReportsOverlap(OverlapIssues(i, range, seen, n)) <==> !ClearOfRanges(range, seen[..n])
  {
    if n == 0 {
    } else {
      OverlapIssuesReport(i, range, seen, n - 1);
      assert seen[..n] == seen[..n - 1] + [seen[n - 1]];
      ClearOfOneMore(range, seen[..n - 1], seen[n - 1]);
      var before, now := OverlapIssues(i, range, seen, n - 1), OverlapIssues(i, range, seen, n);
      if Overlap(range, seen[n - 1]) {
        assert now[|before|].LcnOverlap?;
      }
    }
  }

  lemma ReportsConcat(a: seq<RunlistIssue>, b: seq<RunlistIssue>)
    ensures ReportsOverlap(a + b) <==> ReportsOverlap(a) || ReportsOverlap(b)
  {
    if ReportsOverlap(a) {
      var k :| 0 <= k < |a| && a[k].LcnOverlap?;
      assert (a + b)[k].LcnOverlap?;
    }
    if ReportsOverlap(b) {
      var k :| 0 <= k < |b| && b[k].LcnOverlap?;
      assert (a + b)[|a| + k].LcnOverlap?;
    }
  }

  lemma RunReports(runs: seq<DataRun>, i: nat, volumeClusters: int)
    requires i < |runs|
    ensures ReportsOverlap(RunIssues(i, runs[i], PrevEnd(runs, i), SeenRanges(runs, i), volumeClusters))
       <==> Occupies(runs[i]) && !DisjointFromEarlier(runs, i)
  {
    hide OverlapIssues, SeenRanges, PrevEnd;
    var run, prevEnd, seen := runs[i], PrevEnd(runs, i), SeenRanges(runs, i);
    if Occupies(run) {
      var overlaps := OverlapIssues(i, Range(run), seen, |seen|);
      OverlapIssuesReport(i, Range(run), seen, |seen|);
      assert seen[..|seen|] == seen;
      SeenIsEarlier(Range(run), runs, i);
      var placement := PlacementIssues(i, run, seen, volumeClusters);
      var rest := placement[..|placement| - |overlaps|];
      assert placement == rest + overlaps;
      ReportsConcat(rest, overlaps);
      var all := RunIssues(i, run, prevEnd, seen, volumeClusters);
      var front := all[..|all| - |placement|];
      assert all == front + placement;
      ReportsConcat(front, placement);
    }
  }

  lemma {:induction false} ReportsUpTo(runs: seq<DataRun>, n: nat, volumeClusters: int)
    requires n <= |runs|
    ensures ReportsOverlap(IssuesUpTo(runs, n, volumeClusters)) <==> !PairwiseDisjoint(runs, n)
  {
    hide RunIssues, DisjointFromEarlier, PrevEnd, SeenRanges;
    if n == 0 {
    } else {
      ReportsUpTo(runs, n - 1, volumeClusters);
      RunReports(runs, n - 1, volumeClusters);
      ReportsConcat(IssuesUpTo(runs, n - 1, volumeClusters),
                    RunIssues(n - 1, runs[n - 1], PrevEnd(runs, n - 1), SeenRanges(runs, n - 1), volumeClusters));
    }
  }

  /** The interval test reports an overlap exactly when the cluster-by-cluster test reports a repetition. */
  lemma {:induction false} OverlapIffCircular(runs: seq<DataRun>, totalClusters: int, volumeClusters: int)
    requires NoNegativeLcn(runs)
    ensures ReportsOverlap(Issues(runs, totalClusters, volumeClusters)) <==> CircularIssues(runs, |runs|) != []
  {
    hide IssuesUpTo, CircularIssues, PairwiseDisjoint;
    NoCircularIffDisjoint(runs, |runs|);
    ReportsUpTo(runs, |runs|, volumeClusters);
    if runs == [] {
      assert PairwiseDisjoint(runs, 0) by { NoneDisjoint(runs); }
    } else {
      var all, upTo := Issues(runs, totalClusters, volumeClusters), IssuesUpTo(runs, |runs|, volumeClusters);
      var last := all[|upTo|..];
      assert all == upTo + last;
      ReportsConcat(upTo, last);
    }
  }

  lemma NothingCircular(runs: seq<DataRun>)
    ensures CircularIssues(runs, 0) == []
  {}

  lemma NoneDisjoint(runs: seq<DataRun>)
    ensures PairwiseDisjoint(runs, 0)
  {}

  /** No two virtual clusters of the file sit on one logical cluster. */
  ghost predicate TranslationInjective(runs: seq<DataRun>)
  {
    forall v, w :: 0 <= v < w < Clusters(runs, |runs|) && VcnToLcn(v, runs) >= 0 && VcnToLcn(w, runs) >= 0
      ==> VcnToLcn(v, runs) != VcnToLcn(w, runs)
  }

  lemma DisjointImpliesInjective(runs: seq<DataRun>)
    requires Contiguous(runs) && NoNegativeLcn(runs) && PairwiseDisjoint(runs, |runs|)
    ensures TranslationInjective(runs)
  {
    hide VcnToLcn, Clusters, Contiguous;
    forall v, w | 0 <= v < w < Clusters(runs, |runs|) && VcnToLcn(v, runs) >= 0 && VcnToLcn(w, runs) >= 0
      ensures VcnToLcn(v, runs) != VcnToLcn(w, runs)
    {
      DistinctTargets(runs, v, w);
    }
  }

  lemma DistinctTargets(runs: seq<DataRun>, v: nat, w: nat)
    requires Contiguous(runs) && NoNegativeLcn(runs) && PairwiseDisjoint(runs, |runs|)
    requires v < w < Clusters(runs, |runs|) && VcnToLcn(v, runs) >= 0 && VcnToLcn(w, runs) >= 0
    ensures VcnToLcn(v, runs) != VcnToLcn(w, runs)
  {
    hide VcnToLcn, Clusters, Contiguous;
    var i, a := RunOfVcn(runs, v, |runs|);
    var j, b := RunOfVcn(runs, w, |runs|);
    VcnToLcnInRun(runs, i, a);
    VcnToLcnInRun(runs, j, b);
    if i < j {
      assert DisjointFromEarlier(runs, j) && !Overlap(Range(runs[j]), Range(runs[i]));
    } else if j < i {
      assert DisjointFromEarlier(runs, i) && !Overlap(Range(runs[i]), Range(runs[j]));
    }
  }

  lemma InjectiveImpliesDisjoint(runs: seq<DataRun>)
    requires Contiguous(runs) && NoNegativeLcn(runs) && TranslationInjective(runs)
    ensures PairwiseDisjoint(runs, |runs|)
  {
    hide VcnToLcn, Clusters, Contiguous;
    forall i, j | 0 <= j < i < |runs| && Occupies(runs[i]) && Occupies(runs[j])
      ensures !Overlap(Range(runs[i]), Range(runs[j]))
    {
      if Overlap(Range(runs[i]), Range(runs[j])) {
        SharedTarget(runs, j, i);
      }
    }
  }

  /** Two overlapping runs give two virtual clusters with one target. */
  lemma SharedTarget(runs: seq<DataRun>, j: nat, i: nat)
    requires Contiguous(runs) && NoNegativeLcn(runs) && j < i < |runs|
    requires Occupies(runs[i]) && Occupies(runs[j]) && Overlap(Range(runs[i]), Range(runs[j]))
    ensures !TranslationInjective(runs)
  {
    hide VcnToLcn, Contiguous;
    assert !BadSeek(runs[i]) && !BadSeek(runs[j]);
    var c := Max(runs[i].lcn, runs[j].lcn);
    var a, b := c - runs[j].lcn, c - runs[i].lcn;
    VcnToLcnInRun(runs, j, a);
    VcnToLcnInRun(runs, i, b);
    ClustersMonotone(runs, j + 1, i);
    ClustersMonotone(runs, i + 1, |runs|);
    var v, w := Clusters(runs, j) + a, Clusters(runs, i) + b;
    assert v < w < Clusters(runs, |runs|) && VcnToLcn(v, runs) == VcnToLcn(w, runs);
  }

  /** Neither test complains exactly when virtual-to-logical translation is injective on allocated clusters. */
  lemma {:induction false} NoReportIffInjective(runs: seq<DataRun>, totalClusters: int, volumeClusters: int)
    requires Contiguous(runs) && NoNegativeLcn(runs)
    ensures !ReportsOverlap(Issues(runs, totalClusters, volumeClusters)) <==> TranslationInjective(runs)
    ensures CircularIssues(runs, |runs|) == [] <==> TranslationInjective(runs)
  {
    hide Issues, CircularIssues, TranslationInjective, PairwiseDisjoint, Contiguous;
    OverlapIffCircular(runs, totalClusters, volumeClusters);
    NoCircularIffDisjoint(runs, |runs|);
    if PairwiseDisjoint(runs, |runs|) {
      DisjointImpliesInjective(runs);
    }
    if TranslationInjective(runs) {
      InjectiveImpliesDisjoint(runs);
    }
  }
}
