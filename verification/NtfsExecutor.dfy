/** Execution of a resolved run list against the image: the plain and the sparse-aware reader, and the estimator
    that predicts what a reader will return.  Each is a loop proved against a specification that mentions no loop. */
module NtfsExecutor {
  import opened RawImage
  import opened NtfsMapping

  predicate BadSeek(run: DataRun) { !run.isSparse && run.lcn < 0 }

  ghost predicate NoNegativeLcn(runs: seq<DataRun>)
  {
    forall i :: 0 <= i < |runs| ==> !BadSeek(runs[i])
  }

  /** The bytes run `run` can contribute: zeros for a hole, what the image still holds otherwise,
      nothing when its position is negative. */
  function RunBytes(image: seq<byte>, cs: ClusterSize, run: DataRun): seq<byte>
  {
    if run.isSparse then Zeros(Span(run.clusterCount, cs))
    else if run.lcn < 0 then []
    else ReadAt(image, Span(run.lcn, cs), Span(run.clusterCount, cs))
  }

  /** A hole is zeros; an allocated run is the image from its first cluster on, as far as the image goes. */
  lemma RunOnDisk(image: seq<byte>, cs: ClusterSize, run: DataRun)
    ensures run.isSparse ==> RunBytes(image, cs, run) == seq(run.clusterCount * cs, _ => 0 as byte)
    ensures !run.isSparse && run.lcn >= 0 && run.lcn * cs <= |image| ==>
      RunBytes(image, cs, run) == image[run.lcn * cs..Min(|image|, run.lcn * cs + run.clusterCount * cs)]
    ensures !run.isSparse && (run.lcn < 0 || run.lcn * cs > |image|) ==> RunBytes(image, cs, run) == []
  {
    SpanIsProduct(run.clusterCount, cs);
    if run.lcn >= 0 { SpanIsProduct(run.lcn, cs); }
    hide Span;
  }

  /** Everything the first `n` runs contribute, in order. */
  function Content(image: seq<byte>, cs: ClusterSize, runs: seq<DataRun>, n: nat): (r: seq<byte>)
    requires n <= |runs|
  {
    if n == 0 then [] else Content(image, cs, runs, n - 1) + RunBytes(image, cs, runs[n - 1])
  }

  lemma {:induction false} ContentPrefix(image: seq<byte>, cs: ClusterSize, runs: seq<DataRun>, i: nat, j: nat)
    requires i <= j <= |runs|
    ensures Content(image, cs, runs, i) <= Content(image, cs, runs, j)
    decreases j - i
  {
    hide RunBytes;
    if i >= j {
    } else {
      ContentPrefix(image, cs, runs, i, j - 1);
    }
  }

  function Limit(realSize: nat, maxBytes: int): nat { if maxBytes > 0 then maxBytes else realSize }

  /** Among the first `n` runs, one at a negative position is reached before `limit` bytes have been gathered. */
  ghost predicate SeeksBelowZero(image: seq<byte>, cs: ClusterSize, runs: seq<DataRun>, n: nat, limit: nat)
    requires n <= |runs|
  {
    exists i :: 0 <= i < n && SeeksAt(image, cs, runs, i, limit)
  }

  predicate SeeksAt(image: seq<byte>, cs: ClusterSize, runs: seq<DataRun>, i: nat, limit: nat)
    requires i < |runs|
  {
    BadSeek(runs[i]) && |Content(image, cs, runs, i)| < limit
  }

  lemma SeekStep(image: seq<byte>, cs: ClusterSize, runs: seq<DataRun>, n: nat, limit: nat)
    requires n < |runs|
    ensures SeeksBelowZero(image, cs, runs, n + 1, limit)
       <==> SeeksBelowZero(image, cs, runs, n, limit) || SeeksAt(image, cs, runs, n, limit)
    ensures SeeksBelowZero(image, cs, runs, n + 1, limit) ==> SeeksBelowZero(image, cs, runs, |runs|, limit)
  {}

  /** What runs `i`, `i + 1`, ... give a reader that still wants `remaining` bytes and seeks before each read. */
  function Gathered(image: seq<byte>, cs: ClusterSize, runs: seq<DataRun>, i: nat, remaining: nat): Outcome<seq<byte>>
    requires i <= |runs|
    decreases |runs| - i
  {
    if i == |runs| || remaining == 0 then Done([])
    else if BadSeek(runs[i]) then NegativeSeek
    else
      var chunk := Take(RunBytes(image, cs, runs[i]), remaining);
      var rest := Gathered(image, cs, runs, i + 1, remaining - |chunk|);
      if rest.Done? then Done(chunk + rest.value) else rest
  }

  function PlainOutcome(image: seq<byte>, cs: ClusterSize, runs: seq<DataRun>, realSize: nat, maxBytes: int)
    : Outcome<seq<byte>>
  {
    var all := Gathered(image, cs, runs, 0, Limit(realSize, maxBytes));
    if all.Done? then Done(Take(all.value, realSize)) else all
  }

  ghost predicate SeeksFrom(image: seq<byte>, cs: ClusterSize, runs: seq<DataRun>, i: nat, limit: nat)
  {
    exists k :: i <= k < |runs| && SeeksAt(image, cs, runs, k, limit)
  }

  /** What is gathered from run `i` on completes what the runs before it gave. */
  lemma {:induction false} GatheredIs(image: seq<byte>, cs: ClusterSize, runs: seq<DataRun>, i: nat, limit: nat)
    requires i <= |runs|
    ensures var before := Take(Content(image, cs, runs, i), limit);
      var rest := Gathered(image, cs, runs, i, limit - |before|);
      if SeeksFrom(image, cs, runs, i, limit) then rest == NegativeSeek
      else rest.Done? && before + rest.value == Take(Content(image, cs, runs, |runs|), limit)
    decreases |runs| - i
  {
    hide RunBytes, Content;
    var before := Take(Content(image, cs, runs, i), limit);
    if i == |runs| || |before| == limit {
      LimitReached(image, cs, runs, i, limit);
      NoneFromLimit(image, cs, runs, i, limit);
    } else if BadSeek(runs[i]) {
      assert SeeksAt(image, cs, runs, i, limit);
    } else {
      var chunk := Take(RunBytes(image, cs, runs[i]), limit - |before|);
      ReadStep(image, cs, runs, i, limit, before, chunk);
      GatheredIs(image, cs, runs, i + 1, limit);
      assert SeeksFrom(image, cs, runs, i, limit) <==> SeeksFrom(image, cs, runs, i + 1, limit);
    }
  }

  lemma NoneFromLimit(image: seq<byte>, cs: ClusterSize, runs: seq<DataRun>, i: nat, limit: nat)
    requires i <= |runs| && (i == |runs| || |Content(image, cs, runs, i)| >= limit)
    ensures !SeeksFrom(image, cs, runs, i, limit)
  {
    hide Content;
    forall k | i <= k < |runs| ensures !SeeksAt(image, cs, runs, k, limit) { ContentPrefix(image, cs, runs, i, k); }
  }

  /** So the plain reader fails exactly when it reaches a negative position in time, and else returns what the
      sparse-aware reader returns. */
  lemma PlainIs(image: seq<byte>, cs: ClusterSize, runs: seq<DataRun>, realSize: nat, maxBytes: int)
    ensures PlainOutcome(image, cs, runs, realSize, maxBytes)
         == if SeeksBelowZero(image, cs, runs, |runs|, Limit(realSize, maxBytes)) then NegativeSeek
            else Done(SparseBytes(image, cs, runs, realSize, maxBytes))
  {
    var limit := Limit(realSize, maxBytes);
    GatheredIs(image, cs, runs, 0, limit);
    assert SeeksFrom(image, cs, runs, 0, limit) <==> SeeksBelowZero(image, cs, runs, |runs|, limit);
    assert Take(Content(image, cs, runs, 0), limit) == [];
    hide Content, Gathered, SeeksAt;
    var all := Gathered(image, cs, runs, 0, limit);
    if all.Done? { assert [] + all.value == all.value; }
  }

  function SparseBytes(image: seq<byte>, cs: ClusterSize, runs: seq<DataRun>, realSize: nat, maxBytes: int): seq<byte>
  {
    Take(Take(Content(image, cs, runs, |runs|), Limit(realSize, maxBytes)), realSize)
  }

  /** Taking `limit` bytes after one more run is taking the rest of the allowance from that run. */
  lemma TakeStep(c: seq<byte>, b: seq<byte>, limit: nat)
    ensures Take(c + b, limit) == Take(c, limit) + Take(b, limit - |Take(c, limit)|)
  {}

  /** What a reader with an allowance of `n` bytes takes from a run. */
  lemma RunChunk(image: seq<byte>, cs: ClusterSize, run: DataRun, n: nat)
    ensures run.isSparse ==> Zeros(Min(Span(run.clusterCount, cs), n)) == Take(RunBytes(image, cs, run), n)
    ensures !run.isSparse && run.lcn >= 0 ==>
      ReadAt(image, Span(run.lcn, cs), Min(Span(run.clusterCount, cs), n)) == Take(RunBytes(image, cs, run), n)
  {}

  /** One turn of a reading loop: `data` grows by what the allowance lets through of the next run. */
  lemma ReadStep(image: seq<byte>, cs: ClusterSize, runs: seq<DataRun>, i: nat, limit: nat, data: seq<byte>,
                 chunk: seq<byte>)
    requires i < |runs| && data == Take(Content(image, cs, runs, i), limit)
    requires chunk == Take(RunBytes(image, cs, runs[i]), limit - |data|)
    ensures data + chunk == Take(Content(image, cs, runs, i + 1), limit)
  {
    TakeStep(Content(image, cs, runs, i), RunBytes(image, cs, runs[i]), limit);
  }

  /** The body of the plain loop for one run: fill a hole or seek and read, within the remaining allowance. */
  method ReadRun(image: seq<byte>, cs: ClusterSize, run: DataRun, remaining: nat) returns (r: Outcome<seq<byte>>)
    ensures r == if BadSeek(run) then NegativeSeek else Done(Take(RunBytes(image, cs, run), remaining))
  {
    RunChunk(image, cs, run, remaining);
    if run.isSparse {
      return Done(Zeros(Min(Span(run.clusterCount, cs), remaining)));
    }
    if run.lcn < 0 {
      return NegativeSeek;
    }
    return Done(ReadAt(image, Span(run.lcn, cs), Min(Span(run.clusterCount, cs), remaining)));
  }

  method ReadResolved(image: seq<byte>, cs: ClusterSize, resolved: seq<DataRun>, realSize: nat, maxBytes: int)
    returns (r: Outcome<seq<byte>>)
    ensures r == PlainOutcome(image, cs, resolved, realSize, maxBytes)
    ensures r == NegativeSeek <==>
      exists i :: 0 <= i < |resolved| && (
        !resolved[i].isSparse && resolved[i].lcn < 0
        && |Content(image, cs, resolved, i)| < if maxBytes > 0 then maxBytes else realSize)
    ensures r != NegativeSeek ==>
      r == Done(if maxBytes > 0 then Take(Take(Content(image, cs, resolved, |resolved|), realSize), maxBytes)
                else Take(Content(image, cs, resolved, |resolved|), realSize))
  {
    CapOnPlain(image, cs, resolved, realSize, maxBytes);
    hide Content, RunBytes, SeeksBelowZero, SparseBytes, PlainOutcome;
    PlainIs(image, cs, resolved, realSize, maxBytes);
    PlainStart(image, cs, resolved, realSize, maxBytes);
    var limit := if maxBytes > 0 then maxBytes else realSize;
    var data := [];
    var remaining: int := limit;
    var i := 0;
    while i < |resolved|
      invariant 0 <= i <= |resolved|
      invariant data == Take(Content(image, cs, resolved, i), limit) && remaining == limit - |data|
      invariant !SeeksBelowZero(image, cs, resolved, i, limit)
    {
      if remaining <= 0 {
        break;
      }
      var step := ReadRun(image, cs, resolved[i], remaining);
      SeekStep(image, cs, resolved, i, limit);
      if step.NegativeSeek? {
        return NegativeSeek;
      }
      ReadStep(image, cs, resolved, i, limit, data, step.value);
      data := data + step.value;
      remaining := remaining - |step.value|;
      i := i + 1;
    }
    PlainEnd(image, cs, resolved, realSize, maxBytes, i);
    return Done(data[..Min(realSize, |data|)]);
  }

  lemma PlainStart(image: seq<byte>, cs: ClusterSize, runs: seq<DataRun>, realSize: nat, maxBytes: int)
    ensures Take(Content(image, cs, runs, 0), Limit(realSize, maxBytes)) == []
    ensures !SeeksBelowZero(image, cs, runs, 0, Limit(realSize, maxBytes))
  {}

  lemma PlainEnd(image: seq<byte>, cs: ClusterSize, runs: seq<DataRun>, realSize: nat, maxBytes: int, i: nat)
    requires i <= |runs|
    requires var limit := Limit(realSize, maxBytes);
      (i == |runs| || |Take(Content(image, cs, runs, i), limit)| >= limit) && !SeeksBelowZero(image, cs, runs, i, limit)
    ensures var data := Take(Content(image, cs, runs, i), Limit(realSize, maxBytes));
      !SeeksBelowZero(image, cs, runs, |runs|, Limit(realSize, maxBytes))
      && data[..Min(realSize, |data|)] == SparseBytes(image, cs, runs, realSize, maxBytes)
  {
    hide Content, SeeksBelowZero;
    LimitReached(image, cs, runs, i, Limit(realSize, maxBytes));
  }

  /** Once the allowance is used up, later runs neither add bytes nor get a chance to fail. */
  lemma LimitReached(image: seq<byte>, cs: ClusterSize, runs: seq<DataRun>, i: nat, limit: nat)
    requires i <= |runs| && (i == |runs| || |Content(image, cs, runs, i)| >= limit)
    ensures Take(Content(image, cs, runs, |runs|), limit) == Take(Content(image, cs, runs, i), limit)
    ensures SeeksBelowZero(image, cs, runs, |runs|, limit) <==> SeeksBelowZero(image, cs, runs, i, limit)
  {
    forall k | i <= k <= |runs|
      ensures Content(image, cs, runs, i) <= Content(image, cs, runs, k)
    {
      ContentPrefix(image, cs, runs, i, k);
    }
  }

  /** The body of the sparse-aware loop for one run; a run at a negative position is skipped. */
  method ReadRunSparse(image: seq<byte>, cs: ClusterSize, run: DataRun, remaining: nat) returns (chunk: seq<byte>)
    ensures chunk == Take(RunBytes(image, cs, run), remaining)
  {
    RunChunk(image, cs, run, remaining);
    var runBytes := Span(run.clusterCount, cs);
    if run.isSparse {
      return Zeros(Min(runBytes, remaining));
    } else if run.lcn >= 0 {
      var byteOffset := Span(run.lcn, cs);
      if byteOffset + runBytes > |image| {
        var actual := Max(0, |image| - byteOffset);
        ReadCutAtEnd(image, byteOffset, runBytes, remaining);
        return ReadAt(image, byteOffset, Min(actual, remaining));
      }
      return ReadAt(image, byteOffset, Min(runBytes, remaining));
    }
    return [];
  }

  method ReadResolvedSparse(image: seq<byte>, cs: ClusterSize, resolved: seq<DataRun>, realSize: nat, maxBytes: int)
    returns (r: seq<byte>)
    ensures r == SparseBytes(image, cs, resolved, realSize, maxBytes)
    ensures maxBytes <= 0 ==> r == Take(Content(image, cs, resolved, |resolved|), realSize)
    ensures maxBytes > 0 ==> r == Take(Take(Content(image, cs, resolved, |resolved|), realSize), maxBytes)
  {
    hide Content, RunBytes, SeeksBelowZero;
    CapOnSparse(image, cs, resolved, realSize, maxBytes);
    PlainStart(image, cs, resolved, realSize, maxBytes);
    var limit := if maxBytes > 0 then maxBytes else realSize;
    var data := [];
    var remaining: int := limit;
    var i := 0;
    while i < |resolved|
      invariant 0 <= i <= |resolved|
      invariant data == Take(Content(image, cs, resolved, i), limit) && remaining == limit - |data|
    {
      if remaining <= 0 {
        break;
      }
      var chunk := ReadRunSparse(image, cs, resolved[i], remaining);
      ReadStep(image, cs, resolved, i, limit, data, chunk);
      data := data + chunk;
      remaining := remaining - |chunk|;
      i := i + 1;
    }
    LimitReached(image, cs, resolved, i, limit);
    return data[..Min(realSize, |data|)];
  }

  /** Asking only for what the image still holds reads the same bytes as asking for the whole run. */
  lemma ReadCutAtEnd(image: seq<byte>, offset: nat, size: nat, n: nat)
    ensures offset + size > |image| ==>
      ReadAt(image, offset, Min(Max(0, |image| - offset), n)) == ReadAt(image, offset, Min(size, n))
  {}

  /** A positive byte cap cuts what is returned without it; any other cap is none. */
  lemma CapOnSparse(image: seq<byte>, cs: ClusterSize, runs: seq<DataRun>, realSize: nat, maxBytes: int)
    ensures SparseBytes(image, cs, runs, realSize, 0) == Take(Content(image, cs, runs, |runs|), realSize)
    ensures SparseBytes(image, cs, runs, realSize, maxBytes)
         == if maxBytes > 0 then Take(SparseBytes(image, cs, runs, realSize, 0), maxBytes)
            else SparseBytes(image, cs, runs, realSize, 0)
  {
    hide Content;
    TakeTwice(Content(image, cs, runs, |runs|), realSize, realSize);
    if maxBytes > 0 { TakeTwice(Content(image, cs, runs, |runs|), maxBytes, realSize); }
  }

  lemma TakeTwice(s: seq<byte>, m: nat, n: nat)
    ensures Take(Take(s, m), n) == Take(Take(s, n), m) == Take(s, Min(m, n))
  {}

  /** The plain reader fails exactly when a run at a negative position is reached with less than the cap, or the real
      size where there is no cap, in hand; otherwise it returns what the sparse-aware reader returns. */
  lemma CapOnPlain(image: seq<byte>, cs: ClusterSize, runs: seq<DataRun>, realSize: nat, maxBytes: int)
    ensures PlainOutcome(image, cs, runs, realSize, maxBytes) == NegativeSeek <==>
      exists i :: 0 <= i < |runs| && (
        !runs[i].isSparse && runs[i].lcn < 0
        && |Content(image, cs, runs, i)| < if maxBytes > 0 then maxBytes else realSize)
    ensures PlainOutcome(image, cs, runs, realSize, maxBytes) != NegativeSeek ==>
      PlainOutcome(image, cs, runs, realSize, maxBytes)
      == Done(if maxBytes > 0 then Take(Take(Content(image, cs, runs, |runs|), realSize), maxBytes)
              else Take(Content(image, cs, runs, |runs|), realSize))
  {
    hide Content, PlainOutcome, SparseBytes;
    PlainIs(image, cs, runs, realSize, maxBytes);
    CapOnSparse(image, cs, runs, realSize, maxBytes);
    var limit := Limit(realSize, maxBytes);
    forall i | 0 <= i < |runs|
      ensures SeeksAt(image, cs, runs, i, limit) <==>
        !runs[i].isSparse && runs[i].lcn < 0
        && |Content(image, cs, runs, i)| < if maxBytes > 0 then maxBytes else realSize
    {}
  }

  /** Plain and sparse-aware execution differ only in the error a negative position raises. */
  lemma PlainAgreesWithSparse(image: seq<byte>, cs: ClusterSize, runs: seq<DataRun>, realSize: nat, maxBytes: int)
    ensures PlainOutcome(image, cs, runs, realSize, maxBytes) == Done(SparseBytes(image, cs, runs, realSize, maxBytes))
       <==> !SeeksBelowZero(image, cs, runs, |runs|, Limit(realSize, maxBytes))
    ensures NoNegativeLcn(runs) ==>
      PlainOutcome(image, cs, runs, realSize, maxBytes) == Done(SparseBytes(image, cs, runs, realSize, maxBytes))
  {
    hide PlainOutcome, SparseBytes;
    PlainIs(image, cs, runs, realSize, maxBytes);
  }

  // ---- the estimator ----

  lemma RunBytesSize(image: seq<byte>, cs: ClusterSize, run: DataRun)
    ensures |RunBytes(image, cs, run)| <= Span(run.clusterCount, cs)
    ensures BadSeek(run) ==> RunBytes(image, cs, run) == []
    ensures run.isSparse ==> |RunBytes(image, cs, run)| == Span(run.clusterCount, cs)
    ensures !run.isSparse && run.lcn >= 0 ==>
      |RunBytes(image, cs, run)|
        == if Span(run.lcn, cs) + Span(run.clusterCount, cs) <= |image| then Span(run.clusterCount, cs)
                                    else Max(0, |image| - Span(run.lcn, cs))
  {}

  /** The estimate is exact: its second part is the length of what sparse-aware execution returns without a byte cap,
      and its third is what the runs promise and the image does not hold. */
  method EstimateRecoverableBytes(image: seq<byte>, cs: ClusterSize, resolved: seq<DataRun>, realSize: nat)
    returns (actualSize: nat, recoverable: nat, lost: nat)
    ensures actualSize == Min(realSize, Span(Clusters(resolved, |resolved|), cs))
    ensures recoverable == |SparseBytes(image, cs, resolved, realSize, 0)|
    ensures lost == Span(Clusters(resolved, |resolved|), cs) - |Content(image, cs, resolved, |resolved|)|
  {
    assert Span(0, cs) == 0;
    hide RunBytes, Span;
    var total := 0;
    recoverable, lost := 0, 0;
    for i := 0 to |resolved|
      invariant total == Span(Clusters(resolved, i), cs)
      invariant recoverable == |Content(image, cs, resolved, i)|
      invariant recoverable + lost == total
    {
      var run := resolved[i];
      var runBytes := Span(run.clusterCount, cs);
      SpanAdd(Clusters(resolved, i), run.clusterCount, cs);
      RunBytesSize(image, cs, run);
      total := total + runBytes;
      if run.isSparse {
        recoverable := recoverable + runBytes;
      } else if run.lcn >= 0 {
        var byteOffset := Span(run.lcn, cs);
        if byteOffset + runBytes <= |image| {
          recoverable := recoverable + runBytes;
        } else {
          var partial := Max(0, |image| - byteOffset);
          recoverable := recoverable + partial;
          lost := lost + (runBytes - partial);
        }
      } else {
        lost := lost + runBytes;
      }
    }
    actualSize := Min(realSize, total);
    recoverable := Min(recoverable, actualSize);
  }
}
