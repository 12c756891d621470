/** Recovery of a non-resident file: which reader is chosen, what it returns, and how a file is classified first. */
module NtfsRecovery {
  import opened RawImage
  import opened NtfsMapping
  import opened NtfsExecutor
  import opened NtfsChunked
  import opened NtfsVcnRange
  import opened NtfsValidation

  /** The part of a non-resident DATA attribute recovery looks at. */
  datatype NonResident = NonResident(dataRuns: seq<RawRun>, realSize: nat, startingVcn: nat, lastVcn: nat)

  datatype Recoverability = NotApplicable | Corrupted | PartiallyRecoverable | Recoverable

  function VolumeClusters(image: seq<byte>, cs: ClusterSize): nat { |image| / cs }

  function TotalClusters(nr: NonResident): int { nr.lastVcn - nr.startingVcn + 1 }

  function RecordIssues(image: seq<byte>, cs: ClusterSize, nr: NonResident): seq<RunlistIssue>
  {
    Issues(Resolved(nr.dataRuns), TotalClusters(nr), VolumeClusters(image, cs))
  }

  // ---- what a clean record is, in its own numbers ----

  /** Run `i` has between one and a million clusters; an allocated one starts at no negative cluster, lies in the image
      if that holds a cluster at all, and shares no cluster with an allocated run before it. */
  ghost predicate RunOnVolume(image: seq<byte>, cs: ClusterSize, runs: seq<DataRun>, i: nat)
    requires i < |runs|
  {
    && 1 <= runs[i].clusterCount <= 1_000_000
    && (!runs[i].isSparse ==>
          && runs[i].lcn >= 0
          && (|image| >= cs ==> (runs[i].lcn + runs[i].clusterCount) * cs <= |image|)
          && forall j :: 0 <= j < i && !runs[j].isSparse ==> ClusterRangesApart(runs[i], runs[j]))
  }

  predicate ClusterRangesApart(a: DataRun, b: DataRun)
  {
    a.lcn + a.clusterCount <= b.lcn || b.lcn + b.clusterCount <= a.lcn
  }

  lemma VolumeHolds(image: seq<byte>, cs: ClusterSize, clusters: nat)
    ensures clusters <= VolumeClusters(image, cs) <==> clusters * cs <= |image|
    ensures VolumeClusters(image, cs) > 0 <==> |image| >= cs
  {
    var v := VolumeClusters(image, cs);
    assert |image| == v * cs + |image| % cs;
    if clusters <= v {
      assert v * cs == clusters * cs + (v - clusters) * cs;
      ProductGrows(v - clusters, 0, cs);
    } else {
      ProductGrows(clusters, v + 1, cs);
      assert (v + 1) * cs == v * cs + cs;
    }
    if v > 0 { ProductGrows(v, 1, cs); } else { assert v * cs == 0; }
  }

  lemma ProductGrows(a: nat, b: nat, m: nat)
    requires a >= b
    ensures a * m >= b * m
  {
    assert a * m == b * m + (a - b) * m;
  }

  lemma SoundIsOnVolume(image: seq<byte>, cs: ClusterSize, runs: seq<DataRun>, i: nat)
    requires i < |runs| && forall j :: 0 <= j < i ==> runs[j].clusterCount > 0
    ensures SoundRun(runs, i, VolumeClusters(image, cs)) <==> RunOnVolume(image, cs, runs, i)
  {
    var run := runs[i];
    if !run.isSparse && run.lcn >= 0 { VolumeHolds(image, cs, run.lcn + run.clusterCount); }
    hide VolumeClusters;
    if run.clusterCount > 0 && !run.isSparse {
      forall j | 0 <= j < i && !runs[j].isSparse
        ensures Overlap(Range(run), Range(runs[j])) <==> !ClusterRangesApart(run, runs[j])
      {}
    }
  }

  lemma {:induction false} AllSoundIsOnVolume(image: seq<byte>, cs: ClusterSize, runs: seq<DataRun>, n: nat)
    requires n <= |runs|
    ensures (forall i :: 0 <= i < n ==> SoundRun(runs, i, VolumeClusters(image, cs)))
       <==> (forall i :: 0 <= i < n ==> RunOnVolume(image, cs, runs, i))
    ensures (forall i :: 0 <= i < n ==> RunOnVolume(image, cs, runs, i)) ==>
      forall i :: 0 <= i < n ==> runs[i].clusterCount > 0
  {
    if n == 0 {
    } else {
      AllSoundIsOnVolume(image, cs, runs, n - 1);
      assert RunOnVolume(image, cs, runs, n - 1) ==> runs[n - 1].clusterCount > 0;
      hide SoundRun, RunOnVolume;
      if forall i :: 0 <= i < n - 1 ==> RunOnVolume(image, cs, runs, i) {
        SoundIsOnVolume(image, cs, runs, n - 1);
      }
    }
  }

  /** A record validates clean exactly when it has runs, each of them lies on the volume, and their clusters are not
      more than the record's virtual cluster numbers span, where these span any. */
  lemma CleanIffOnVolume(image: seq<byte>, cs: ClusterSize, nr: NonResident)
    ensures RecordIssues(image, cs, nr) == [] <==>
      && nr.dataRuns != []
      && (forall i :: 0 <= i < |nr.dataRuns| ==> RunOnVolume(image, cs, Resolved(nr.dataRuns), i))
      && (nr.lastVcn - nr.startingVcn + 1 <= 0
          || VcnAfter(nr.dataRuns, |nr.dataRuns|) <= nr.lastVcn - nr.startingVcn + 1)
  {
    hide Issues, SoundRun, RunOnVolume, Contiguous, VolumeClusters;
    var runs := Resolved(nr.dataRuns);
    ResolvedIsContiguous(nr.dataRuns);
    ResolvedClusters(nr.dataRuns, |nr.dataRuns|);
    CleanIffSound(runs, TotalClusters(nr), VolumeClusters(image, cs));
    AllSoundIsOnVolume(image, cs, runs, |runs|);
  }

  // ---- sound run lists lie inside the image ----

  lemma InsideVolume(image: seq<byte>, cs: ClusterSize, clusters: nat)
    requires clusters <= VolumeClusters(image, cs)
    ensures Span(clusters, cs) <= |image|
  {
    hide Span;
    var v := VolumeClusters(image, cs);
    SpanAdd(clusters, v - clusters, cs);
    SpanIsProduct(v, cs);
    DivisionRoundsDown(|image|, cs);
  }

  lemma DivisionRoundsDown(a: nat, d: ClusterSize)
    ensures a / d * d <= a
  {
    assert a == a / d * d + a % d;
  }

  /** With at least one whole cluster on the image, an accepted run lies wholly inside it. */
  lemma SoundRunInside(image: seq<byte>, cs: ClusterSize, runs: seq<DataRun>, i: nat)
    requires |image| >= cs && i < |runs| && SoundRun(runs, i, VolumeClusters(image, cs)) && !runs[i].isSparse
    ensures runs[i].lcn >= 0
    ensures Span(runs[i].lcn, cs) + Span(runs[i].clusterCount, cs) <= |image|
  {
    hide DisjointFromEarlier, Span;
    SpanIsProduct(1, cs);
    assert VolumeClusters(image, cs) >= 1;
    InsideVolume(image, cs, runs[i].lcn + runs[i].clusterCount);
    SpanAdd(runs[i].lcn, runs[i].clusterCount, cs);
  }

  lemma SoundRunComplete(image: seq<byte>, cs: ClusterSize, runs: seq<DataRun>, i: nat)
    requires |image| >= cs && i < |runs| && SoundRun(runs, i, VolumeClusters(image, cs))
    ensures !BadSeek(runs[i])
    ensures |RunBytes(image, cs, runs[i])| == Span(runs[i].clusterCount, cs)
  {
    hide SoundRun, RunBytes, Span;
    if !runs[i].isSparse {
      SoundRunInside(image, cs, runs, i);
    }
    RunBytesSize(image, cs, runs[i]);
  }

  lemma {:induction false} SoundContentComplete(image: seq<byte>, cs: ClusterSize, runs: seq<DataRun>, n: nat)
    requires |image| >= cs && n <= |runs|
    requires forall i :: 0 <= i < n ==> SoundRun(runs, i, VolumeClusters(image, cs))
    ensures |Content(image, cs, runs, n)| == Span(Clusters(runs, n), cs)
  {
    hide SoundRun, RunBytes, VolumeClusters;
    if n == 0 {
    } else {
      hide Span;
      SoundContentComplete(image, cs, runs, n - 1);
      SoundRunComplete(image, cs, runs, n - 1);
      SpanAdd(Clusters(runs, n - 1), runs[n - 1].clusterCount, cs);
    }
  }

  lemma {:induction false} SoundHasClusters(runs: seq<DataRun>, totalClusters: int, volumeClusters: int)
    requires Sound(runs, totalClusters, volumeClusters)
    ensures Clusters(runs, |runs|) >= 1
  {
    assert SoundRun(runs, |runs| - 1, volumeClusters);
  }

  // ---- the four readers ----

  /** On a run list that validates clean over an image with at least one whole cluster, all four readers return
      one byte string: the file read cluster by cluster through virtual-to-logical translation, with zeros for holes. */
  lemma CleanReadersAgree(image: seq<byte>, cs: ClusterSize, nr: NonResident, chunkSize: nat)
    requires |image| >= cs && chunkSize > 0 && RecordIssues(image, cs, nr) == []
    ensures var runs := Resolved(nr.dataRuns);
      var total := Clusters(runs, |runs|);
      var file := VcnContent(image, cs, runs, 0, total);
      && |file| == Span(total, cs)
      && PlainOutcome(image, cs, runs, nr.realSize, 0) == Done(Take(file, nr.realSize))
      && SparseBytes(image, cs, runs, nr.realSize, 0) == Take(file, nr.realSize)
      && ChunksComplete(image, cs, runs, nr.realSize, chunkSize, |runs|)
      && Content(image, cs, runs, |runs|) == file
      && RangeOutcome(image, cs, runs, 0, total - 1) == Done(file)
  {
    var runs := Resolved(nr.dataRuns);
    CleanIsSound(image, cs, nr);
    ResolvedIsContiguous(nr.dataRuns);
    hide *;
    SoundNoNegative(image, cs, runs, TotalClusters(nr));
    ContentIsClusters(image, cs, runs, |runs|);
    PlainAgreesWithSparse(image, cs, runs, nr.realSize, 0);
    UncappedSparse(image, cs, runs, nr.realSize);
    SoundChunksComplete(image, cs, runs, TotalClusters(nr), nr.realSize, chunkSize);
    SoundRange(image, cs, runs, TotalClusters(nr));
    SoundLength(image, cs, runs, TotalClusters(nr));
  }

  lemma UncappedSparse(image: seq<byte>, cs: ClusterSize, runs: seq<DataRun>, realSize: nat)
    ensures SparseBytes(image, cs, runs, realSize, 0) == Take(Content(image, cs, runs, |runs|), realSize)
  {
    hide Content;
  }

  lemma CleanIsSound(image: seq<byte>, cs: ClusterSize, nr: NonResident)
    requires RecordIssues(image, cs, nr) == []
    ensures Sound(Resolved(nr.dataRuns), TotalClusters(nr), VolumeClusters(image, cs))
  {
    hide Sound, Issues, Contiguous;
    ResolvedIsContiguous(nr.dataRuns);
    CleanIffSound(Resolved(nr.dataRuns), TotalClusters(nr), VolumeClusters(image, cs));
  }

  lemma SoundNoNegative(image: seq<byte>, cs: ClusterSize, runs: seq<DataRun>, totalClusters: int)
    requires |image| >= cs && Sound(runs, totalClusters, VolumeClusters(image, cs))
    ensures NoNegativeLcn(runs)
  {
    hide SoundRun, BadSeek;
    forall i | 0 <= i < |runs| ensures !BadSeek(runs[i]) { SoundRunComplete(image, cs, runs, i); }
  }

  lemma SoundLength(image: seq<byte>, cs: ClusterSize, runs: seq<DataRun>, totalClusters: int)
    requires |image| >= cs && Sound(runs, totalClusters, VolumeClusters(image, cs))
    ensures |Content(image, cs, runs, |runs|)| == Span(Clusters(runs, |runs|), cs)
  {
    hide SoundRun;
    SoundContentComplete(image, cs, runs, |runs|);
  }

  lemma SoundChunksComplete(image: seq<byte>, cs: ClusterSize, runs: seq<DataRun>, totalClusters: int,
                            realSize: nat, chunkSize: nat)
    requires |image| >= cs && chunkSize > 0 && Sound(runs, totalClusters, VolumeClusters(image, cs))
    ensures ChunksComplete(image, cs, runs, realSize, chunkSize, |runs|)
  {
    forall i | 0 <= i < |runs|
      ensures ReadsThrough(image, cs, runs, realSize, chunkSize, i)
    {
      hide SoundRun, Owed;
      if !runs[i].isSparse {
        SoundRunInside(image, cs, runs, i);
      }
    }
  }

  lemma SoundRange(image: seq<byte>, cs: ClusterSize, runs: seq<DataRun>, totalClusters: int)
    requires |image| >= cs && Contiguous(runs) && Sound(runs, totalClusters, VolumeClusters(image, cs))
    ensures var total := Clusters(runs, |runs|);
      RangeOutcome(image, cs, runs, 0, total - 1) == Done(VcnContent(image, cs, runs, 0, total))
  {
    hide VcnContent;
    forall i | 0 <= i < |runs|
      ensures !BadRangeSeek(runs[i], 0, Clusters(runs, |runs|) - 1)
    {
      hide SoundRun;
      SoundRunComplete(image, cs, runs, i);
    }
  }

  // ---- choosing a reader ----

  method IsSparseRunlist(runs: seq<RawRun>) returns (r: bool)
    ensures r <==> exists i :: 0 <= i < |runs| && runs[i].isSparse
  {
    for i := 0 to |runs|
      invariant forall k :: 0 <= k < i ==> !runs[k].isSparse
    {
      if runs[i].isSparse {
        return true;
      }
    }
    return false;
  }

  /** Some run at a negative position comes before `wanted` bytes have been gathered. */
  ghost predicate SeeksTooEarly(image: seq<byte>, cs: ClusterSize, runs: seq<DataRun>, wanted: nat)
  {
    exists i :: 0 <= i < |runs| && !runs[i].isSparse && runs[i].lcn < 0 && |Content(image, cs, runs, i)| < wanted
  }

  /** Recovered data.  Unless a run sits at a negative position, the choice of reader never shows:
      both branches give the same bytes, even where runs overshoot the image. */
  method RecoverNonResidentFile(image: seq<byte>, cs: ClusterSize, nr: NonResident, maxBytes: int)
    returns (r: Outcome<seq<byte>>)
    ensures var runs := Resolved(nr.dataRuns);
      r == if (exists i :: 0 <= i < |nr.dataRuns| && nr.dataRuns[i].isSparse)
           then Done(SparseBytes(image, cs, runs, nr.realSize, maxBytes))
           else PlainOutcome(image, cs, runs, nr.realSize, maxBytes)
    ensures NoNegativeLcn(Resolved(nr.dataRuns)) ==>
      r == Done(SparseBytes(image, cs, Resolved(nr.dataRuns), nr.realSize, maxBytes))
    ensures r == NegativeSeek <==>
      (forall i :: 0 <= i < |nr.dataRuns| ==> !nr.dataRuns[i].isSparse)
      && SeeksTooEarly(image, cs, Resolved(nr.dataRuns), if maxBytes > 0 then maxBytes else nr.realSize)
    ensures r != NegativeSeek ==>
      var whole := Take(Content(image, cs, Resolved(nr.dataRuns), |nr.dataRuns|), nr.realSize);
      r == Done(if maxBytes > 0 then Take(whole, maxBytes) else whole)
  {
    hide SparseBytes, SeeksBelowZero, Content, Resolved, PlainOutcome, Take;
    CapOnSparse(image, cs, Resolved(nr.dataRuns), nr.realSize, maxBytes);
    var isSparse := IsSparseRunlist(nr.dataRuns);
    var resolved := ResolveRunlist(nr.dataRuns);
    PlainAgreesWithSparse(image, cs, resolved, nr.realSize, maxBytes);
    if isSparse {
      var data := ReadResolvedSparse(image, cs, resolved, nr.realSize, maxBytes);
      r := Done(data);
    } else {
      r := ReadResolved(image, cs, resolved, nr.realSize, maxBytes);
    }
  }

  // ---- classification ----

  /** Bytes the runs promise and the image does not hold. */
  function LostBytes(image: seq<byte>, cs: ClusterSize, runs: seq<DataRun>): int
  {
    Span(Clusters(runs, |runs|), cs) - |Content(image, cs, runs, |runs|)|
  }

  method ClassifyRecoverability(image: seq<byte>, cs: ClusterSize, record: Option<NonResident>)
    returns (r: Recoverability)
    ensures r.NotApplicable? <==> record.None?
    ensures record.Some? ==> var nr := record.value; var runs := Resolved(nr.dataRuns);
      var ok := |SparseBytes(image, cs, runs, nr.realSize, 0)|;
      && (r.Corrupted? <==> RecordIssues(image, cs, nr) != [] || ok == 0)
      && (r.PartiallyRecoverable? <==> RecordIssues(image, cs, nr) == [] && ok > 0 && LostBytes(image, cs, runs) > 0)
    ensures record.Some? && |image| >= cs ==>
      r == if RecordIssues(image, cs, record.value) == [] && record.value.realSize > 0 then Recoverable else Corrupted
    ensures record.Some? && |image| >= cs ==> var nr := record.value; var runs := nr.dataRuns;
      (r.Recoverable? <==>
        && nr.realSize > 0 && runs != []
        && (forall i :: 0 <= i < |runs| ==> RunOnVolume(image, cs, Resolved(runs), i))
        && (nr.lastVcn - nr.startingVcn + 1 <= 0 || VcnAfter(runs, |runs|) <= nr.lastVcn - nr.startingVcn + 1))
      && (r.Recoverable? || r.Corrupted?)
  {
    if record.None? {
      return NotApplicable;
    }
    hide Issues, SparseBytes, Content, Clusters, Resolved, RunOnVolume;
    CleanIffOnVolume(image, cs, record.value);
    var nr := record.value;
    var resolved := ResolveRunlist(nr.dataRuns);
    if |image| >= cs && RecordIssues(image, cs, nr) == [] {
      CleanLosesNothing(image, cs, nr);
    }
    var issues := ValidateRunlist(resolved, nr.lastVcn - nr.startingVcn + 1, |image| / cs);
    if issues != [] {
      return Corrupted;
    }
    var _, recoverable, lost := EstimateRecoverableBytes(image, cs, resolved, nr.realSize);
    if lost > 0 && recoverable > 0 {
      return PartiallyRecoverable;
    }
    if recoverable == 0 {
      return Corrupted;
    }
    return Recoverable;
  }

  /** A run that loses bytes trips a validation error first. */
  lemma CleanLosesNothing(image: seq<byte>, cs: ClusterSize, nr: NonResident)
    requires |image| >= cs && RecordIssues(image, cs, nr) == []
    ensures LostBytes(image, cs, Resolved(nr.dataRuns)) == 0
    ensures |SparseBytes(image, cs, Resolved(nr.dataRuns), nr.realSize, 0)| > 0 <==> nr.realSize > 0
  {
    var runs := Resolved(nr.dataRuns);
    hide Issues, Sound, Contiguous, Resolved, Content;
    CleanIsSound(image, cs, nr);
    SoundLength(image, cs, runs, TotalClusters(nr));
    SoundHasClusters(runs, TotalClusters(nr), VolumeClusters(image, cs));
    SpanAdd(Clusters(runs, |runs|) - 1, 1, cs);
  }

  predicate HasByte(data: seq<byte>, at: int, value: byte) { 0 <= at < |data| && data[at] == value }

  /** Byte `p` behind virtual cluster `vcn` of the file is byte `p` behind logical cluster `lcn` of the image, or zero
      in a hole. */
  predicate ByteComesFrom(file: seq<byte>, vcn: nat, hole: bool, image: seq<byte>, lcn: int, cs: ClusterSize, p: nat)
  {
    if hole then HasByte(file, vcn * cs + p, 0)
    else 0 <= lcn * cs + p < |image| && HasByte(file, vcn * cs + p, image[lcn * cs + p])
  }

  /** Where the bytes of a clean file come from, in the numbers of the record. */
  lemma CleanFileByte(image: seq<byte>, cs: ClusterSize, nr: NonResident, i: nat, p: nat)
    requires |image| >= cs && RecordIssues(image, cs, nr) == []
    requires i < |nr.dataRuns| && p < nr.dataRuns[i].clusterCount * cs
    ensures var runs, file := nr.dataRuns, Content(image, cs, Resolved(nr.dataRuns), |nr.dataRuns|);
      && |file| == VcnAfter(runs, |runs|) * cs
      && ByteComesFrom(file, VcnAfter(runs, i), runs[i].isSparse, image, LcnAfter(runs, i + 1), cs, p)
  {
    var runs := Resolved(nr.dataRuns);
    assert runs[i].clusterCount == nr.dataRuns[i].clusterCount && runs[i].isSparse == nr.dataRuns[i].isSparse;
    assert !runs[i].isSparse ==> runs[i].lcn == LcnAfter(nr.dataRuns, i + 1);
    CleanIsSound(image, cs, nr);
    hide *;
    ResolvedClusters(nr.dataRuns, i);
    ResolvedClusters(nr.dataRuns, |nr.dataRuns|);
    SoundFileByte(image, cs, runs, TotalClusters(nr), i, p);
  }

  lemma SoundFileByte(image: seq<byte>, cs: ClusterSize, runs: seq<DataRun>, totalClusters: int, i: nat, p: nat)
    requires |image| >= cs && Sound(runs, totalClusters, VolumeClusters(image, cs))
    requires i < |runs| && p < runs[i].clusterCount * cs
    ensures var file := Content(image, cs, runs, |runs|);
      && |file| == Clusters(runs, |runs|) * cs
      && ByteComesFrom(file, Clusters(runs, i), runs[i].isSparse, image, runs[i].lcn, cs, p)
      && (runs[i].isSparse ==>
            forall lcn :: ByteComesFrom(file, Clusters(runs, i), true, image, lcn, cs, p))
  {
    hide Sound, SoundRun, Content, RunBytes, Clusters, Span, VolumeClusters, HasByte;
    SoundParts(runs, totalClusters, VolumeClusters(image, cs));
    SoundRunOnDisk(image, cs, runs, i, p);
    SoundContentComplete(image, cs, runs, |runs|);
    SpanIsProduct(Clusters(runs, |runs|), cs);
    ContentAt(image, cs, runs, i, p);
  }

  lemma SoundParts(runs: seq<DataRun>, totalClusters: int, volumeClusters: int)
    requires Sound(runs, totalClusters, volumeClusters)
    ensures forall i :: 0 <= i < |runs| ==> SoundRun(runs, i, volumeClusters)
  {}

  lemma SoundRunOnDisk(image: seq<byte>, cs: ClusterSize, runs: seq<DataRun>, i: nat, p: nat)
    requires |image| >= cs && i < |runs| && SoundRun(runs, i, VolumeClusters(image, cs))
    requires p < runs[i].clusterCount * cs
    ensures p < |RunBytes(image, cs, runs[i])|
    ensures runs[i].isSparse ==> RunBytes(image, cs, runs[i])[p] == 0
    ensures !runs[i].isSparse ==>
      0 <= runs[i].lcn * cs + p < |image| && RunBytes(image, cs, runs[i])[p] == image[runs[i].lcn * cs + p]
  {
    var run := runs[i];
    SpanIsProduct(run.clusterCount, cs);
    SoundRunComplete(image, cs, runs, i);
    RunOnDisk(image, cs, run);
    if !run.isSparse {
      SoundRunInside(image, cs, runs, i);
      SpanIsProduct(run.lcn, cs);
    }
    hide Span, SoundRun, RunBytes;
  }

  lemma ContentAt(image: seq<byte>, cs: ClusterSize, runs: seq<DataRun>, i: nat, p: nat)
    requires |image| >= cs && i < |runs| && p < |RunBytes(image, cs, runs[i])|
    requires forall k :: 0 <= k < |runs| ==> SoundRun(runs, k, VolumeClusters(image, cs))
    ensures HasByte(Content(image, cs, runs, |runs|), Clusters(runs, i) * cs + p, RunBytes(image, cs, runs[i])[p])
  {
    hide SoundRun, RunBytes, Span;
    SoundContentComplete(image, cs, runs, i);
    SpanIsProduct(Clusters(runs, i), cs);
    ContentPrefix(image, cs, runs, i + 1, |runs|);
    assert Content(image, cs, runs, i + 1) == Content(image, cs, runs, i) + RunBytes(image, cs, runs[i]);
  }

  /** An image smaller than one cluster switches the bounds check off, and then a file can be partly lost and clean:
      one run of one two-byte cluster on a one-byte image. */
  lemma TinyImageIsPartial()
    ensures var image, nr := [7 as byte], NonResident([RawRun(1, 0, false)], 1, 0, 0);
      && RecordIssues(image, 2, nr) == []
      && |SparseBytes(image, 2, Resolved(nr.dataRuns), nr.realSize, 0)| == 1
      && LostBytes(image, 2, Resolved(nr.dataRuns)) == 1
  {
    var image, nr := [7 as byte], NonResident([RawRun(1, 0, false)], 1, 0, 0);
    var runs := Resolved(nr.dataRuns);
    assert LcnAfter(nr.dataRuns, 1) == 0 && VcnAfter(nr.dataRuns, 0) == 0;
    assert runs == [DataRun(0, 0, 0, 1, false, 0)];
    assert Clusters(runs, 1) == 1 && Span(1, 2) == 2 && Span(0, 2) == 0;
    ReadAtLength(image, 0, 2);
    assert Content(image, 2, runs, 1) == [] + RunBytes(image, 2, runs[0]);
    assert SeenRanges(runs, 0) == [] && PrevEnd(runs, 0) == -1;
    assert RunIssues(0, runs[0], -1, [], 0) == [];
    assert IssuesUpTo(runs, 1, 0) == [] + [];
  }
}
