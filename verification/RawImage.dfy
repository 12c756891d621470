/** The read-only disk image behind every reader, and the byte-level helpers the readers share.
    An image is a value: `seq<byte>`.  A read that runs past the end is cut short, never padded. */
module RawImage {

  newtype byte = b: int | 0 <= b < 256

  /** Cluster sizes divide image sizes in the source, so zero is never one. */
  type ClusterSize = n: nat | n > 0 witness 512

  datatype Option<+T> = None | Some(value: T)

  /** The ways a reader can end: bytes, the error a seek to a negative offset raises, the error a read of a negative
      number of bytes raises, or a loop that never makes progress again. */
  datatype Outcome<+T> = Done(value: T) | NegativeSeek | NegativeRead | NeverReturns

  function Min(a: int, b: int): int { if a <= b then a else b }

  function Max(a: int, b: int): int { if a >= b then a else b }

  function Take<T>(s: seq<T>, n: nat): seq<T> { s[..Min(n, |s|)] }

  lemma ConcatAssoc<T>(a: seq<T>, b: seq<T>, c: seq<T>)
    ensures a + (b + c) == (a + b) + c
  {}

  function Zeros(n: nat): seq<byte> { seq(n, _ => 0) }

  /** `RawReader.read_at` for an offset a seek accepts. */
  function ReadAt(image: seq<byte>, offset: nat, size: nat): seq<byte>
  {
    if offset >= |image| then [] else Take(image[offset..], size)
  }

  lemma ReadAtLength(image: seq<byte>, offset: nat, size: nat)
    ensures |ReadAt(image, offset, size)| == Min(size, Max(0, |image| - offset))
  {}

  lemma ReadNothing(image: seq<byte>, offset: nat)
    ensures ReadAt(image, offset, 0) == []
  {}

  lemma ReadAtSplit(image: seq<byte>, offset: nat, a: nat, b: nat)
    ensures ReadAt(image, offset, a + b) == ReadAt(image, offset, a) + ReadAt(image, offset + a, b)
  {}

  lemma ZerosSplit(a: nat, b: nat)
    ensures Zeros(a + b) == Zeros(a) + Zeros(b)
  {}

  /** The length in bytes of `clusters` clusters.  It is their product (SpanIsProduct); adding up
      cluster by cluster keeps multiplication out of every proof that only splits and joins stretches. */
  function Span(clusters: nat, cs: ClusterSize): nat
  {
    if clusters == 0 then 0 else Span(clusters - 1, cs) + cs
  }

  lemma {:induction false} SpanIsProduct(clusters: nat, cs: ClusterSize)
    ensures Span(clusters, cs) == clusters * cs
  {
    if clusters == 0 {
    } else {
      SpanIsProduct(clusters - 1, cs);
    }
  }

  lemma {:induction false} SpanAdd(a: nat, b: nat, cs: ClusterSize)
    ensures Span(a + b, cs) == Span(a, cs) + Span(b, cs)
  {
    if b == 0 {
    } else {
      SpanAdd(a, b - 1, cs);
    }
  }
}
