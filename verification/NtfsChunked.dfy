/** The chunked reader: a generator that yields a hole in one piece, and an allocated run in pieces of bounded size. */
module NtfsChunked {
  import opened RawImage
  import opened NtfsMapping
  import opened NtfsExecutor

  function Joined(pieces: seq<seq<byte>>): seq<byte>
  {
    if pieces == [] then [] else Joined(pieces[..|pieces| - 1]) + pieces[|pieces| - 1]
  }

  lemma JoinedSnoc(pieces: seq<seq<byte>>, piece: seq<byte>)
    ensures Joined(pieces + [piece]) == Joined(pieces) + piece
  {
    assert (pieces + [piece])[..|pieces|] == pieces;
  }

  /** The bytes the chunked reader still owes when it arrives at run `i`. */
  function Owed(cs: ClusterSize, runs: seq<DataRun>, realSize: nat, i: nat): nat
    requires i <= |runs|
  {
    Max(0, realSize - Span(Clusters(runs, i), cs))
  }

  function Wanted(cs: ClusterSize, runs: seq<DataRun>, realSize: nat, i: nat): nat
    requires i < |runs|
  {
    Min(Span(runs[i].clusterCount, cs), Owed(cs, runs, realSize, i))
  }

  /** What is still owed of `run` can be had in pieces of at most `chunkSize`: it is a hole, or nothing is owed,
      or all of it lies inside the image. */
  predicate Obtainable(image: seq<byte>, cs: ClusterSize, run: DataRun, owed: nat, chunkSize: nat)
  {
    var w := Min(Span(run.clusterCount, cs), owed);
    run.isSparse || w == 0 || (chunkSize > 0 && run.lcn >= 0 && Span(run.lcn, cs) + w <= |image|)
  }

  predicate ReadsThrough(image: seq<byte>, cs: ClusterSize, runs: seq<DataRun>, realSize: nat, chunkSize: nat, i: nat)
    requires i < |runs|
  {
    Obtainable(image, cs, runs[i], Owed(cs, runs, realSize, i), chunkSize)
  }

  /** The first `n` runs read through. */
  ghost predicate ChunksComplete(image: seq<byte>, cs: ClusterSize, runs: seq<DataRun>, realSize: nat, chunkSize: nat,
                                 n: nat)
    requires n <= |runs|
  {
    forall i :: 0 <= i < n ==> ReadsThrough(image, cs, runs, realSize, chunkSize, i)
  }

  /** Run `i` is the first that does not read through. */
  ghost predicate StopsAt(image: seq<byte>, cs: ClusterSize, runs: seq<DataRun>, realSize: nat, chunkSize: nat, i: nat)
  {
    i < |runs| && ChunksComplete(image, cs, runs, realSize, chunkSize, i)
    && !ReadsThrough(image, cs, runs, realSize, chunkSize, i)
  }

  lemma OwedStep(cs: ClusterSize, runs: seq<DataRun>, realSize: nat, i: nat)
    requires i < |runs|
    ensures Owed(cs, runs, realSize, i + 1) == Owed(cs, runs, realSize, i) - Wanted(cs, runs, realSize, i)
  {
    SpanAdd(Clusters(runs, i), runs[i].clusterCount, cs);
  }

  lemma {:induction false} NothingOwedLater(cs: ClusterSize, runs: seq<DataRun>, realSize: nat, i: nat, j: nat)
    requires i <= j <= |runs| && Owed(cs, runs, realSize, i) == 0
    ensures Owed(cs, runs, realSize, j) == 0
  {
    ClustersMonotone(runs, i, j);
    SpanAdd(Clusters(runs, i), Clusters(runs, j) - Clusters(runs, i), cs);
  }

  /** The pieces of one allocated run: `read_at` at a moving position until `runBytes` are in hand. */
  method ReadRunInChunks(image: seq<byte>, byteOffset: int, runBytes: nat, chunkSize: nat)
    returns (r: Outcome<seq<seq<byte>>>)
    ensures r.Done? <==> runBytes == 0 || (chunkSize > 0 && byteOffset >= 0 && byteOffset + runBytes <= |image|)
    ensures r.NegativeSeek? <==> runBytes > 0 && byteOffset < 0
    ensures !r.NegativeRead?
    ensures r.Done? && runBytes > 0 ==> Joined(r.value) == ReadAt(image, byteOffset, runBytes)
    ensures r.Done? && runBytes == 0 ==> r.value == []
    ensures r.Done? ==> forall k :: 0 <= k < |r.value| ==> 0 < |r.value[k]| <= chunkSize
  {
    var pieces: seq<seq<byte>> := [];
    var pos := 0;
    while pos < runBytes
      invariant 0 <= pos <= runBytes
      invariant pos > 0 ==> chunkSize > 0 && byteOffset >= 0 && byteOffset + pos <= |image|
      invariant byteOffset >= 0 ==> Joined(pieces) == ReadAt(image, byteOffset, pos) && |Joined(pieces)| == pos
      invariant pos == 0 ==> pieces == []
      invariant forall k :: 0 <= k < |pieces| ==> 0 < |pieces[k]| <= chunkSize
    {
      if byteOffset < 0 {
        return NegativeSeek;
      }
      var toRead := Min(chunkSize, runBytes - pos);
      var chunk := ReadAt(image, byteOffset + pos, toRead);
      if |chunk| == 0 {
        // nothing was read, so nothing will change on the next turn either
        return NeverReturns;
      }
      ReadAtSplit(image, byteOffset, pos, |chunk|);
      assert chunk == ReadAt(image, byteOffset + pos, |chunk|);
      JoinedSnoc(pieces, chunk);
      pieces := pieces + [chunk];
      pos := pos + |chunk|;
    }
    return Done(pieces);
  }

  lemma {:induction false} JoinedConcat(a: seq<seq<byte>>, b: seq<seq<byte>>)
    ensures Joined(a + b) == Joined(a) + Joined(b)
    decreases |b|
  {
    if b == [] {
      assert a + b == a && Joined(a) + [] == Joined(a);
    } else {
      hide Joined;
      var b', last := b[..|b| - 1], b[|b| - 1];
      JoinedConcat(a, b');
      assert b' + [last] == b && a + b == (a + b') + [last];
      JoinedSnoc(b', last);
      ConcatAssoc(Joined(a), Joined(b'), last);
      JoinedSnoc(a + b', last);
    }
  }

  /** The body of the chunked loop for one run that wants `runBytes` bytes. */
  method ReadRunPieces(image: seq<byte>, cs: ClusterSize, run: DataRun, remaining: nat, chunkSize: nat)
    returns (r: Outcome<seq<seq<byte>>>)
    ensures r.Done? <==> Obtainable(image, cs, run, remaining, chunkSize)
    ensures r.NegativeSeek? <==> !r.Done? && run.lcn < 0
    ensures !r.NegativeRead?
    ensures r.Done? ==> Joined(r.value) == Take(RunBytes(image, cs, run), remaining)
    ensures r.Done? ==> |Joined(r.value)| == Min(Span(run.clusterCount, cs), remaining)
  {
    RunChunk(image, cs, run, remaining);
    var runBytes := Min(Span(run.clusterCount, cs), remaining);
    if run.isSparse {
      JoinedSnoc([], Zeros(runBytes));
      return Done([Zeros(runBytes)]);
    }
    // the offset of a negative cluster number is negative, and that is all a seek looks at
    var byteOffset := if run.lcn < 0 then run.lcn else Span(run.lcn, cs);
    r := ReadRunInChunks(image, byteOffset, runBytes, chunkSize);
  }

  /** Where the chunked reader stands when it reaches run `i`, having yielded `read` in all. */
  ghost predicate ChunkState(image: seq<byte>, cs: ClusterSize, runs: seq<DataRun>, realSize: nat, chunkSize: nat,
                             i: nat, read: seq<byte>, remaining: nat)
  {
    && i <= |runs|
    && remaining == Owed(cs, runs, realSize, i)
    && read == Take(Content(image, cs, runs, i), realSize)
    && |read| == realSize - remaining
    && ChunksComplete(image, cs, runs, realSize, chunkSize, i)
  }

  lemma ChunkStart(image: seq<byte>, cs: ClusterSize, runs: seq<DataRun>, realSize: nat, chunkSize: nat)
    ensures ChunkState(image, cs, runs, realSize, chunkSize, 0, Joined([]), realSize)
  {}

  lemma ChunkStop(image: seq<byte>, cs: ClusterSize, runs: seq<DataRun>, realSize: nat, chunkSize: nat,
                  i: nat, read: seq<byte>, remaining: nat)
    requires ChunkState(image, cs, runs, realSize, chunkSize, i, read, remaining) && i < |runs|
    requires !Obtainable(image, cs, runs[i], remaining, chunkSize)
    ensures StopsAt(image, cs, runs, realSize, chunkSize, i)
    ensures !ChunksComplete(image, cs, runs, realSize, chunkSize, |runs|)
  {
    hide Content;
  }

  lemma ChunkStep(image: seq<byte>, cs: ClusterSize, runs: seq<DataRun>, realSize: nat, chunkSize: nat,
                  i: nat, read: seq<byte>, remaining: nat, more: seq<byte>)
    requires i < |runs| && ChunkState(image, cs, runs, realSize, chunkSize, i, read, remaining)
    requires Obtainable(image, cs, runs[i], remaining, chunkSize)
    requires more == Take(RunBytes(image, cs, runs[i]), remaining)
    requires |more| == Min(Span(runs[i].clusterCount, cs), remaining)
    ensures ChunkState(image, cs, runs, realSize, chunkSize, i + 1, read + more, remaining - |more|)
  {
    assert i < |runs|;
    hide Content, RunBytes, Take;
    OwedStep(cs, runs, realSize, i);
    ReadStep(image, cs, runs, i, realSize, read, more);
  }

  lemma ChunkEnd(image: seq<byte>, cs: ClusterSize, runs: seq<DataRun>, realSize: nat, chunkSize: nat,
                 i: nat, read: seq<byte>, remaining: nat)
    requires ChunkState(image, cs, runs, realSize, chunkSize, i, read, remaining) && (i == |runs| || remaining == 0)
    ensures ChunksComplete(image, cs, runs, realSize, chunkSize, |runs|)
    ensures read == Take(Content(image, cs, runs, |runs|), realSize)
  {
    hide ReadsThrough;
    forall k | i <= k < |runs|
      ensures ReadsThrough(image, cs, runs, realSize, chunkSize, k)
    {
      OwesNothing(image, cs, runs, realSize, chunkSize, i, k);
    }
    LimitReached(image, cs, runs, i, realSize);
  }

  lemma OwesNothing(image: seq<byte>, cs: ClusterSize, runs: seq<DataRun>, realSize: nat, chunkSize: nat, i: nat,
                    k: nat)
    requires i <= k < |runs| && Owed(cs, runs, realSize, i) == 0
    ensures ReadsThrough(image, cs, runs, realSize, chunkSize, k)
  {
    NothingOwedLater(cs, runs, realSize, i, k);
  }

  /** The generator runs to its end exactly when every run reads through; otherwise the first run that does not
      raises the seek error or, with a position inside the image or past it, loops without reading. */
  method ReadChunked(image: seq<byte>, cs: ClusterSize, resolved: seq<DataRun>, realSize: nat, chunkSize: nat)
    returns (r: Outcome<seq<seq<byte>>>, ghost stop: nat)
    ensures r.Done? <==> ChunksComplete(image, cs, resolved, realSize, chunkSize, |resolved|)
    ensures r.Done? ==> Joined(r.value) == Take(Content(image, cs, resolved, |resolved|), realSize)
    ensures !r.Done? ==> StopsAt(image, cs, resolved, realSize, chunkSize, stop)
    ensures !r.Done? ==> r == if resolved[stop].lcn < 0 then NegativeSeek else NeverReturns
  {
    var remaining: nat := realSize;
    var pieces: seq<seq<byte>> := [];
    var i := 0;
    stop := 0;
    hide ChunkState, ChunksComplete, Obtainable;
    ChunkStart(image, cs, resolved, realSize, chunkSize);
    while i < |resolved|
      invariant 0 <= i <= |resolved|
      invariant ChunkState(image, cs, resolved, realSize, chunkSize, i, Joined(pieces), remaining)
    {
      if remaining <= 0 {
        break;
      }
      hide Joined, Span, RunBytes, Take, Content, Owed;
      var step := ReadRunPieces(image, cs, resolved[i], remaining, chunkSize);
      if !step.Done? {
        ChunkStop(image, cs, resolved, realSize, chunkSize, i, Joined(pieces), remaining);
        return step, i;
      }
      ChunkStep(image, cs, resolved, realSize, chunkSize, i, Joined(pieces), remaining, Joined(step.value));
      JoinedConcat(pieces, step.value);
      pieces := pieces + step.value;
      remaining := remaining - Min(Span(resolved[i].clusterCount, cs), remaining);
      i := i + 1;
    }
    ChunkEnd(image, cs, resolved, realSize, chunkSize, i, Joined(pieces), remaining);
    return Done(pieces), i;
  }
}
