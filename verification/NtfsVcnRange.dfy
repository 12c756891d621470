/** Content by virtual cluster number: reading run by run is reading cluster by cluster, and the reader of a range
    of virtual clusters. */
module NtfsVcnRange {
  import opened RawImage
  import opened NtfsMapping
  import opened NtfsExecutor

  // ---- cluster by cluster ----

  /** One virtual cluster of the file, found by translation: zeros for a hole, else what the image holds there. */
  function ClusterAt(image: seq<byte>, cs: ClusterSize, runs: seq<DataRun>, vcn: int): seq<byte>
  {
    var lcn := VcnToLcn(vcn, runs);
    if lcn < 0 then Zeros(cs) else ReadAt(image, Span(lcn, cs), cs)
  }

  /** The virtual clusters `lo`, ..., `hi - 1`, each found by translation. */
  function VcnContent(image: seq<byte>, cs: ClusterSize, runs: seq<DataRun>, lo: int, hi: int): seq<byte>
    decreases hi - lo
  {
    if hi <= lo then [] else VcnContent(image, cs, runs, lo, hi - 1) + ClusterAt(image, cs, runs, hi - 1)
  }

  lemma {:induction false} VcnContentSplit(image: seq<byte>, cs: ClusterSize, runs: seq<DataRun>, lo: int, mid: int,
                                           hi: int)
    requires lo <= mid <= hi
    ensures VcnContent(image, cs, runs, lo, hi)
      == VcnContent(image, cs, runs, lo, mid) + VcnContent(image, cs, runs, mid, hi)
    decreases hi - mid
  {
    hide ClusterAt;
    if mid >= hi {
    } else {
      VcnContentSplit(image, cs, runs, lo, mid, hi - 1);
      ConcatAssoc(VcnContent(image, cs, runs, lo, mid), VcnContent(image, cs, runs, mid, hi - 1),
        ClusterAt(image, cs, runs, hi - 1));
    }
  }

  /** Cluster `k` of a run: zeros for a hole, else what the image holds there. */
  function RunCluster(image: seq<byte>, cs: ClusterSize, run: DataRun, k: nat): seq<byte>
    requires run.isSparse || run.lcn + k >= 0
  {
    if run.isSparse then Zeros(cs) else ReadAt(image, Span(run.lcn + k, cs), cs)
  }

  /** `n` clusters of a run from its cluster `a` on, one by one. */
  function RunClusters(image: seq<byte>, cs: ClusterSize, run: DataRun, a: nat, n: nat): seq<byte>
    requires run.isSparse || run.lcn + a >= 0
  {
    if n == 0 then [] else RunClusters(image, cs, run, a, n - 1) + RunCluster(image, cs, run, a + n - 1)
  }

  /** Reading `n` clusters of a run in one go is reading them one by one. */
  lemma {:induction false} SparseClusters(image: seq<byte>, cs: ClusterSize, run: DataRun, a: nat, n: nat)
    requires run.isSparse
    ensures RunClusters(image, cs, run, a, n) == Zeros(Span(n, cs))
  {
    if n == 0 {
    } else {
      SparseClusters(image, cs, run, a, n - 1);
      ZerosSplit(Span(n - 1, cs), cs);
    }
  }

  lemma {:induction false} AllocatedClusters(image: seq<byte>, cs: ClusterSize, run: DataRun, a: nat, n: nat)
    requires !run.isSparse && run.lcn + a >= 0
    ensures RunClusters(image, cs, run, a, n) == ReadAt(image, Span(run.lcn + a, cs), Span(n, cs))
  {
    if n == 0 {
      ReadNothing(image, Span(run.lcn + a, cs));
    } else {
      AllocatedClusters(image, cs, run, a, n - 1);
      OneMoreCluster(image, cs, run, a, n - 1);
    }
  }

  lemma OneMoreCluster(image: seq<byte>, cs: ClusterSize, run: DataRun, a: nat, n: nat)
    requires !run.isSparse && run.lcn + a >= 0
    ensures ReadAt(image, Span(run.lcn + a, cs), Span(n + 1, cs))
         == ReadAt(image, Span(run.lcn + a, cs), Span(n, cs)) + RunCluster(image, cs, run, a + n)
  {
    hide ReadAt;
    SpanAdd(run.lcn + a, n, cs);
    ReadAtSplit(image, Span(run.lcn + a, cs), Span(n, cs), cs);
  }

  lemma WholeRun(image: seq<byte>, cs: ClusterSize, run: DataRun)
    requires !BadSeek(run)
    ensures RunBytes(image, cs, run) == RunClusters(image, cs, run, 0, run.clusterCount)
  {
    if run.isSparse {
      SparseClusters(image, cs, run, 0, run.clusterCount);
    } else {
      AllocatedClusters(image, cs, run, 0, run.clusterCount);
    }
  }

  /** Cluster `k` of run `i`, found by translation. */
  lemma ClusterOfRun(image: seq<byte>, cs: ClusterSize, runs: seq<DataRun>, i: nat, k: nat)
    requires Contiguous(runs) && i < |runs| && k < runs[i].clusterCount
    requires runs[i].isSparse || runs[i].lcn + k >= 0
    ensures ClusterAt(image, cs, runs, Clusters(runs, i) + k) == RunCluster(image, cs, runs[i], k)
  {
    hide ReadAt, Clusters, VcnToLcn, Contiguous;
    VcnToLcnInRun(runs, i, k);
  }

  lemma {:induction false} TranslatedRun(image: seq<byte>, cs: ClusterSize, runs: seq<DataRun>, i: nat, a: nat, n: nat)
    requires Contiguous(runs) && i < |runs| && a + n <= runs[i].clusterCount
    requires runs[i].isSparse || runs[i].lcn + a >= 0
    ensures var v := Clusters(runs, i) + a;
      VcnContent(image, cs, runs, v, v + n) == RunClusters(image, cs, runs[i], a, n)
  {
    hide VcnToLcn, ClusterAt, RunCluster;
    if n == 0 {
    } else {
      TranslatedRun(image, cs, runs, i, a, n - 1);
      ClusterOfRun(image, cs, runs, i, a + n - 1);
    }
  }

  /** With no run at a negative position, reading run by run is reading cluster by cluster. */
  lemma {:induction false} ContentIsClusters(image: seq<byte>, cs: ClusterSize, runs: seq<DataRun>, n: nat)
    requires Contiguous(runs) && NoNegativeLcn(runs) && n <= |runs|
    ensures Content(image, cs, runs, n) == VcnContent(image, cs, runs, 0, Clusters(runs, n))
  {
    hide RunBytes, ClusterAt, Contiguous;
    if n == 0 {
    } else {
      hide VcnContent;
      ContentIsClusters(image, cs, runs, n - 1);
      OneMoreRun(image, cs, runs, n - 1);
    }
  }

  lemma OneMoreRun(image: seq<byte>, cs: ClusterSize, runs: seq<DataRun>, i: nat)
    requires Contiguous(runs) && i < |runs| && !BadSeek(runs[i])
    ensures VcnContent(image, cs, runs, 0, Clusters(runs, i + 1))
         == VcnContent(image, cs, runs, 0, Clusters(runs, i)) + RunBytes(image, cs, runs[i])
  {
    hide VcnContent, RunBytes, RunClusters, Contiguous;
    var v, n := Clusters(runs, i), runs[i].clusterCount;
    assert RunBytes(image, cs, runs[i]) == VcnContent(image, cs, runs, v, v + n) by {
      WholeRun(image, cs, runs[i]);
      TranslatedRun(image, cs, runs, i, 0, n);
    }
    VcnContentSplit(image, cs, runs, 0, v, v + n);
  }

  // ---- reading a range of virtual clusters ----

  predicate Meets(run: DataRun, startVcn: int, endVcn: int) { startVcn <= run.vcnEnd && run.vcnStart <= endVcn }

  /** The position the range reader seeks to in a run it meets is negative. */
  predicate BadRangeSeek(run: DataRun, startVcn: int, endVcn: int)
  {
    Meets(run, startVcn, endVcn) && !run.isSparse && run.lcn + (Max(run.vcnStart, startVcn) - run.vcnStart) < 0
  }

  /** Clusters `a`, ..., `a + n - 1` of run `i`, found by translation, are the stretch one read returns. */
  lemma TranslatedSlice(image: seq<byte>, cs: ClusterSize, runs: seq<DataRun>, i: nat, a: nat, n: nat)
    requires Contiguous(runs) && i < |runs| && a + n <= runs[i].clusterCount
    requires runs[i].isSparse || runs[i].lcn + a >= 0
    ensures var v := Clusters(runs, i) + a;
      VcnContent(image, cs, runs, v, v + n) == if runs[i].isSparse then Zeros(Span(n, cs))
                                               else ReadAt(image, Span(runs[i].lcn + a, cs), Span(n, cs))
  {
    hide *;
    TranslatedRun(image, cs, runs, i, a, n);
    if runs[i].isSparse {
      SparseClusters(image, cs, runs[i], a, n);
    } else {
      AllocatedClusters(image, cs, runs[i], a, n);
    }
  }

  /** `read_at` with a computed size: Python reads to the end for -1 and refuses to read less. */
  function ReadSized(image: seq<byte>, offset: nat, size: int): Outcome<seq<byte>>
  {
    if size >= 0 then Done(ReadAt(image, offset, size))
    else if size == -1 then Done(ReadAt(image, offset, |image|))
    else NegativeRead
  }

  /** The bytes of a number of clusters that may be negative. */
  function SignedSpan(clusters: int, cs: ClusterSize): int
  {
    if clusters >= 0 then Span(clusters, cs) else 0 - Span(-clusters, cs)
  }

  /** What one run the range meets contributes.  In a range that ends before it starts, the count can be negative. */
  function Piece(image: seq<byte>, cs: ClusterSize, run: DataRun, startVcn: int, endVcn: int): Outcome<seq<byte>>
  {
    var readStart := Max(run.vcnStart, startVcn);
    var count := Min(run.vcnEnd, endVcn) - readStart + 1;
    var lcn := run.lcn + (readStart - run.vcnStart);
    if run.isSparse then Done(Zeros(Span(Max(0, count), cs)))
    else if lcn < 0 then NegativeSeek
    else ReadSized(image, Span(lcn, cs), SignedSpan(count, cs))
  }

  function Prepend(data: seq<byte>, rest: Outcome<seq<byte>>): Outcome<seq<byte>>
  {
    if rest.Done? then Done(data + rest.value) else rest
  }

  /** What runs `i`, `i + 1`, ... of any list give for any range: the first run past the range ends the reading. */
  function RangeRead(image: seq<byte>, cs: ClusterSize, runs: seq<DataRun>, i: nat, startVcn: int, endVcn: int)
    : Outcome<seq<byte>>
    requires i <= |runs|
    decreases |runs| - i
  {
    if i == |runs| then Done([])
    else if runs[i].vcnEnd < startVcn then RangeRead(image, cs, runs, i + 1, startVcn, endVcn)
    else if runs[i].vcnStart > endVcn then Done([])
    else
      var piece := Piece(image, cs, runs[i], startVcn, endVcn);
      if piece.Done? then Prepend(piece.value, RangeRead(image, cs, runs, i + 1, startVcn, endVcn)) else piece
  }

  /** The body of the loop for a run the range meets. */
  method ReadRunRange(image: seq<byte>, cs: ClusterSize, run: DataRun, startVcn: int, endVcn: int)
    returns (r: Outcome<seq<byte>>)
    ensures r == Piece(image, cs, run, startVcn, endVcn)
  {
    var readStart := Max(run.vcnStart, startVcn);
    var readEnd := Min(run.vcnEnd, endVcn);
    var count := readEnd - readStart + 1;
    if run.isSparse {
      return Done(Zeros(Span(Max(0, count), cs)));
    }
    var offset := readStart - run.vcnStart;
    if run.lcn + offset < 0 {
      return NegativeSeek;
    }
    var byteOffset := Span(run.lcn + offset, cs);
    return ReadSized(image, byteOffset, SignedSpan(count, cs));
  }

  /** The range reader.  On a contiguous list and a range that does not end before it starts, it returns the mapped
      clusters of the range, in order, and nothing for the unmapped ones. */
  method ReadVcnRange(image: seq<byte>, cs: ClusterSize, resolved: seq<DataRun>, startVcn: int, endVcn: int)
    returns (r: Outcome<seq<byte>>)
    ensures r == RangeRead(image, cs, resolved, 0, startVcn, endVcn)
    ensures Contiguous(resolved) && startVcn <= endVcn ==> r == RangeOutcome(image, cs, resolved, startVcn, endVcn)
  {
    hide Piece, RangeOutcome, Contiguous;
    if Contiguous(resolved) && startVcn <= endVcn { RangeIsTranslated(image, cs, resolved, startVcn, endVcn); }
    var data := [];
    var i := 0;
    PrependNothing(RangeRead(image, cs, resolved, 0, startVcn, endVcn));
    while i < |resolved|
      invariant 0 <= i <= |resolved|
      invariant RangeRead(image, cs, resolved, 0, startVcn, endVcn)
             == Prepend(data, RangeRead(image, cs, resolved, i, startVcn, endVcn))
    {
      var run := resolved[i];
      if run.vcnEnd < startVcn {
        i := i + 1;
        continue;
      }
      if run.vcnStart > endVcn {
        break;
      }
      var step := ReadRunRange(image, cs, run, startVcn, endVcn);
      if !step.Done? {
        return step;
      }
      PrependTwice(data, step.value, RangeRead(image, cs, resolved, i + 1, startVcn, endVcn));
      data := data + step.value;
      i := i + 1;
    }
    assert data + [] == data;
    return Done(data);
  }

  lemma PrependNothing(rest: Outcome<seq<byte>>)
    ensures Prepend([], rest) == rest
  {
    if rest.Done? { assert [] + rest.value == rest.value; }
  }

  lemma PrependTwice(a: seq<byte>, b: seq<byte>, rest: Outcome<seq<byte>>)
    ensures Prepend(a, Prepend(b, rest)) == Prepend(a + b, rest)
  {
    if rest.Done? { ConcatAssoc(a, b, rest.value); }
  }

  /** In a contiguous list a run the range meets contributes its clusters of the range, each found by translation. */
  lemma PieceIsTranslated(image: seq<byte>, cs: ClusterSize, runs: seq<DataRun>, i: nat, startVcn: int, endVcn: int)
    requires Contiguous(runs) && i < |runs| && startVcn <= endVcn && Meets(runs[i], startVcn, endVcn)
    ensures Piece(image, cs, runs[i], startVcn, endVcn)
         == if BadRangeSeek(runs[i], startVcn, endVcn) then NegativeSeek
            else Done(VcnContent(image, cs, runs, Max(Clusters(runs, i), startVcn),
              Min(Clusters(runs, i + 1), endVcn + 1)))
  {
    hide VcnContent, ClusterAt, ReadAt;
    var run := runs[i];
    assert Placed(runs, i);
    var readStart, readEnd := Max(run.vcnStart, startVcn), Min(run.vcnEnd, endVcn);
    var count, offset := readEnd - readStart + 1, readStart - run.vcnStart;
    if !BadRangeSeek(run, startVcn, endVcn) { TranslatedSlice(image, cs, runs, i, offset, count); }
  }

  lemma {:induction false} RangeFromRun(image: seq<byte>, cs: ClusterSize, runs: seq<DataRun>, i: nat, startVcn: int,
                                        endVcn: int)
    requires Contiguous(runs) && startVcn <= endVcn && i <= |runs|
    requires forall k :: 0 <= k < i ==> !BadRangeSeek(runs[k], startVcn, endVcn)
    ensures Prepend(RangeContent(image, cs, runs, startVcn, endVcn, i), RangeRead(image, cs, runs, i, startVcn, endVcn))
         == RangeOutcome(image, cs, runs, startVcn, endVcn)
    decreases |runs| - i
  {
    hide RangeContent, VcnContent, Piece, Contiguous;
    var before := RangeContent(image, cs, runs, startVcn, endVcn, i);
    if i == |runs| {
      assert before + [] == before;
    } else {
      RangeStep(image, cs, runs, startVcn, endVcn, i);
      if runs[i].vcnEnd < startVcn {
        RangeFromRun(image, cs, runs, i + 1, startVcn, endVcn);
      } else if runs[i].vcnStart > endVcn {
        PastRange(image, cs, runs, startVcn, endVcn, i);
        assert before + [] == before;
      } else {
        PieceIsTranslated(image, cs, runs, i, startVcn, endVcn);
        if !BadRangeSeek(runs[i], startVcn, endVcn) {
          var piece := Piece(image, cs, runs[i], startVcn, endVcn).value;
          PrependTwice(before, piece, RangeRead(image, cs, runs, i + 1, startVcn, endVcn));
          RangeFromRun(image, cs, runs, i + 1, startVcn, endVcn);
        }
      }
    }
  }

  lemma RangeIsTranslated(image: seq<byte>, cs: ClusterSize, runs: seq<DataRun>, startVcn: int, endVcn: int)
    requires Contiguous(runs) && startVcn <= endVcn
    ensures RangeRead(image, cs, runs, 0, startVcn, endVcn) == RangeOutcome(image, cs, runs, startVcn, endVcn)
  {
    hide RangeRead, RangeOutcome, Contiguous;
    RangeFromRun(image, cs, runs, 0, startVcn, endVcn);
    assert RangeContent(image, cs, runs, startVcn, endVcn, 0) == [];
    PrependNothing(RangeRead(image, cs, runs, 0, startVcn, endVcn));
  }

  /** The mapped clusters of the range that lie in the first `n` runs. */
  function RangeContent(image: seq<byte>, cs: ClusterSize, runs: seq<DataRun>, startVcn: int, endVcn: int,
                        n: nat): seq<byte>
    requires n <= |runs|
  {
    VcnContent(image, cs, runs, Max(startVcn, 0), Min(Clusters(runs, n), endVcn + 1))
  }

  ghost function RangeOutcome(image: seq<byte>, cs: ClusterSize, runs: seq<DataRun>, startVcn: int,
                              endVcn: int): Outcome<seq<byte>>
  {
    if exists i :: 0 <= i < |runs| && BadRangeSeek(runs[i], startVcn, endVcn) then NegativeSeek
    else Done(RangeContent(image, cs, runs, startVcn, endVcn, |runs|))
  }

  lemma RangeStep(image: seq<byte>, cs: ClusterSize, runs: seq<DataRun>, startVcn: int, endVcn: int, i: nat)
    requires Contiguous(runs) && i < |runs| && startVcn <= endVcn
    ensures runs[i].vcnEnd < startVcn ==>
      RangeContent(image, cs, runs, startVcn, endVcn, i + 1) == RangeContent(image, cs, runs, startVcn, endVcn, i)
    ensures Meets(runs[i], startVcn, endVcn) ==>
      RangeContent(image, cs, runs, startVcn, endVcn, i + 1) == RangeContent(image, cs, runs, startVcn, endVcn, i)
        + VcnContent(image, cs, runs, Max(Clusters(runs, i), startVcn), Min(Clusters(runs, i + 1), endVcn + 1))
  {
    assert Placed(runs, i);
    var lo, mid, hi := Max(startVcn, 0), Clusters(runs, i), Min(Clusters(runs, i + 1), endVcn + 1);
    if lo <= mid <= hi {
      VcnContentSplit(image, cs, runs, lo, mid, hi);
    }
  }

  /** The first run that starts past the range ends the loop, and so do the runs after it. */
  lemma PastRange(image: seq<byte>, cs: ClusterSize, runs: seq<DataRun>, startVcn: int, endVcn: int, i: nat)
    requires Contiguous(runs) && i <= |runs| && (i < |runs| ==> runs[i].vcnStart > endVcn)
    ensures RangeContent(image, cs, runs, startVcn, endVcn, |runs|)
      == RangeContent(image, cs, runs, startVcn, endVcn, i)
    ensures forall k :: i <= k < |runs| ==> !BadRangeSeek(runs[k], startVcn, endVcn)
  {
    forall k | i <= k < |runs|
      ensures !BadRangeSeek(runs[k], startVcn, endVcn)
    {
      assert Placed(runs, i) && Placed(runs, k);
      ClustersMonotone(runs, i, k);
    }
    if i < |runs| {
      assert Placed(runs, i);
      ClustersMonotone(runs, i, |runs|);
    }
  }
}
