/** Runs of an NTFS non-resident attribute: relative runs as parsed, absolute runs once resolved,
    and the virtual-to-logical cluster translation. */
module NtfsMapping {
  import opened RawImage

  /** One entry of the parsed run list: a signed offset relative to the previous allocated run. */
  datatype RawRun = RawRun(clusterCount: nat, clusterOffset: int, isSparse: bool)

  datatype DataRun = DataRun(vcnStart: int, vcnEnd: int, lcn: int, clusterCount: nat, isSparse: bool,
    relativeOffset: int)

  /** Sum of the cluster counts of the first `n` runs. */
  function Clusters(runs: seq<DataRun>, n: nat): (r: nat)
    requires n <= |runs|
  {
    if n == 0 then 0 else Clusters(runs, n - 1) + runs[n - 1].clusterCount
  }

  lemma {:induction false} ClustersMonotone(runs: seq<DataRun>, i: nat, j: nat)
    requires i <= j <= |runs|
    ensures Clusters(runs, i) <= Clusters(runs, j)
    decreases j - i
  {
    if i >= j {
    } else {
      ClustersMonotone(runs, i, j - 1);
    }
  }

  /** Run `i` covers the virtual clusters that follow those of the runs before it. */
  predicate Placed(runs: seq<DataRun>, i: nat)
    requires i < |runs|
  {
    runs[i].vcnStart == Clusters(runs, i) && runs[i].vcnEnd == Clusters(runs, i) + runs[i].clusterCount - 1
  }

  /** The runs lie end to end in virtual-cluster space, with no gap. */
  ghost predicate Contiguous(runs: seq<DataRun>)
  {
    forall i :: 0 <= i < |runs| ==> Placed(runs, i)
  }

  predicate Covers(run: DataRun, vcn: int) { run.vcnStart <= vcn <= run.vcnEnd }

  /** Sum of the relative offsets of the allocated runs among the first `n`. */
  function LcnAfter(runs: seq<RawRun>, n: nat): int
    requires n <= |runs|
  {
    if n == 0 then 0
    else LcnAfter(runs, n - 1) + if runs[n - 1].isSparse then 0 else runs[n - 1].clusterOffset
  }

  function VcnAfter(runs: seq<RawRun>, n: nat): (v: nat)
    requires n <= |runs|
  {
    if n == 0 then 0 else VcnAfter(runs, n - 1) + runs[n - 1].clusterCount
  }

  function ResolvedRun(runs: seq<RawRun>, i: nat): DataRun
    requires i < |runs|
  {
    var v := VcnAfter(runs, i);
    var raw := runs[i];
    if raw.isSparse
    then DataRun(v, v + raw.clusterCount - 1, -1, raw.clusterCount, true, 0)
    else DataRun(v, v + raw.clusterCount - 1, LcnAfter(runs, i + 1), raw.clusterCount, false, raw.clusterOffset)
  }

  function Resolved(runs: seq<RawRun>): (r: seq<DataRun>)
    ensures |r| == |runs|
    ensures forall i :: 0 <= i < |r| ==> r[i] == ResolvedRun(runs, i)
  {
    seq(|runs|, i requires 0 <= i < |runs| => ResolvedRun(runs, i))
  }

  method ResolveRunlist(runs: seq<RawRun>) returns (resolved: seq<DataRun>)
    ensures resolved == Resolved(runs)
  {
    resolved := [];
    var currentVcn, currentLcn := 0, 0;
    for i := 0 to |runs|
      invariant |resolved| == i
      invariant currentVcn == VcnAfter(runs, i) && currentLcn == LcnAfter(runs, i)
      invariant forall k :: 0 <= k < i ==> resolved[k] == ResolvedRun(runs, k)
    {
      var raw := runs[i];
      if raw.isSparse {
        resolved := resolved + [DataRun(currentVcn, currentVcn + raw.clusterCount - 1, -1, raw.clusterCount, true, 0)];
        currentVcn := currentVcn + raw.clusterCount;
        continue;
      }
      currentLcn := currentLcn + raw.clusterOffset;
      resolved := resolved + [DataRun(currentVcn, currentVcn + raw.clusterCount - 1, currentLcn, raw.clusterCount,
                                      false, raw.clusterOffset)];
      currentVcn := currentVcn + raw.clusterCount;
    }
  }

  lemma {:induction false} ResolvedClusters(runs: seq<RawRun>, n: nat)
    requires n <= |runs|
    ensures Clusters(Resolved(runs), n) == VcnAfter(runs, n)
  {
    if n == 0 {
    } else {
      ResolvedClusters(runs, n - 1);
    }
  }

  /** Resolution lays the runs end to end in virtual-cluster space. */
  lemma ResolvedIsContiguous(runs: seq<RawRun>)
    ensures Contiguous(Resolved(runs))
  {
    forall i | 0 <= i < |runs|
      ensures Placed(Resolved(runs), i)
    {
      ResolvedClusters(runs, i);
    }
  }

  /** The first run at or after position `i` that covers `vcn` decides; -1 is a hole, -2 is unmapped. */
  function VcnToLcn(vcn: int, runs: seq<DataRun>, i: nat := 0): int
    requires i <= |runs|
    decreases |runs| - i
  {
    if i == |runs| then -2
    else if Covers(runs[i], vcn) then
      if runs[i].isSparse then -1 else runs[i].lcn + (vcn - runs[i].vcnStart)
    else VcnToLcn(vcn, runs, i + 1)
  }

  method TranslateVcn(vcn: int, resolvedRuns: seq<DataRun>) returns (lcn: int)
    ensures lcn == VcnToLcn(vcn, resolvedRuns)
    ensures
      || (lcn == -2 && forall i :: 0 <= i < |resolvedRuns| ==>
            !(resolvedRuns[i].vcnStart <= vcn <= resolvedRuns[i].vcnEnd))
      || exists i :: 0 <= i < |resolvedRuns| && (
           && resolvedRuns[i].vcnStart <= vcn <= resolvedRuns[i].vcnEnd
           && (forall j :: 0 <= j < i ==> !(resolvedRuns[j].vcnStart <= vcn <= resolvedRuns[j].vcnEnd))
           && lcn == if resolvedRuns[i].isSparse then -1 else resolvedRuns[i].lcn + vcn - resolvedRuns[i].vcnStart)
  {
    for i := 0 to |resolvedRuns|
      invariant VcnToLcn(vcn, resolvedRuns) == VcnToLcn(vcn, resolvedRuns, i)
      invariant forall j :: 0 <= j < i ==> !(resolvedRuns[j].vcnStart <= vcn <= resolvedRuns[j].vcnEnd)
    {
      var run := resolvedRuns[i];
      if run.vcnStart <= vcn <= run.vcnEnd {
        if run.isSparse {
          return -1;
        }
        var offset := vcn - run.vcnStart;
        return run.lcn + offset;
      }
    }
    return -2;
  }

  /** In a contiguous list, cluster `k` of run `i` translates through run `i` and no other. */
  lemma {:induction false} VcnToLcnInRun(runs: seq<DataRun>, i: nat, k: nat, from: nat := 0)
    requires Contiguous(runs) && from <= i < |runs| && k < runs[i].clusterCount
    ensures VcnToLcn(Clusters(runs, i) + k, runs, from) == if runs[i].isSparse then -1 else runs[i].lcn + k
    decreases i - from
  {
    assert Placed(runs, from);
    if from >= i {
    } else {
      ClustersMonotone(runs, from + 1, i);
      VcnToLcnInRun(runs, i, k, from + 1);
    }
  }

  /** Every virtual cluster below the total lies in exactly one run of the list. */
  lemma {:induction false} RunOfVcn(runs: seq<DataRun>, vcn: nat, n: nat) returns (i: nat, k: nat)
    requires n <= |runs| && vcn < Clusters(runs, n)
    ensures i < n && k < runs[i].clusterCount && vcn == Clusters(runs, i) + k
  {
    if vcn >= Clusters(runs, n - 1) {
      i, k := n - 1, vcn - Clusters(runs, n - 1);
    } else {
      i, k := RunOfVcn(runs, vcn, n - 1);
    }
  }
}
