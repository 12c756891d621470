/** The streaming scanner: carvers run over a window that slides along the image, and every file they report is
    placed in the image and kept unless it starts before the end of the last one kept. */
module StreamingScanner {
  import opened RawImage
  import opened Carving
  import opened ScanMerge

  const DEFAULT_CHUNK_SIZE: nat := 4 * 1024 * 1024
  const DEFAULT_OVERLAP: nat := 4 * 1024 * 1024

  type Carver = seq<byte> -> seq<CarvedFile>

  /** The buffer holds the image from `lo` to `hi`; its files are placed as if it began at `base`. */
  datatype Window = Window(base: nat, lo: nat, hi: nat)

  /** Where the retained overlap begins when `cursor` bytes have been read. */
  function Base(cursor: nat, overlap: nat): nat { Max(0, cursor - overlap) }

  function WindowAt(size: nat, chunk: nat, overlap: nat, cursor: nat): Window
  {
    Window(Base(cursor, overlap), if overlap == 0 then 0 else Base(cursor, overlap), Min(cursor + chunk, size))
  }

  /** One window per chunk. */
  function Windows(size: nat, chunk: nat, overlap: nat, cursor: nat): seq<Window>
    decreases size - cursor
  {
    if cursor >= size || chunk == 0 then []
    else [WindowAt(size, chunk, overlap, cursor)] + Windows(size, chunk, overlap, Min(cursor + chunk, size))
  }

  function Placed(f: CarvedFile, base: nat): CarvedFile { f.(start := base + f.start, end := base + f.end) }

  function PlacedAll(fs: seq<CarvedFile>, base: nat): (r: seq<CarvedFile>)
    ensures |r| == |fs| && forall i :: 0 <= i < |r| ==> r[i] == Placed(fs[i], base)
  {
    if fs == [] then [] else PlacedAll(fs[..|fs| - 1], base) + [Placed(fs[|fs| - 1], base)]
  }

  /** What the carvers report in one window, in the order they run. */
  function FoundBy(carvers: seq<Carver>, data: seq<byte>, base: nat): seq<CarvedFile>
  {
    if carvers == [] then []
    else FoundBy(carvers[..|carvers| - 1], data, base) + PlacedAll(carvers[|carvers| - 1](data), base)
  }

  function FoundIn(image: seq<byte>, carvers: seq<Carver>, w: Window): seq<CarvedFile>
    requires w.lo <= w.hi <= |image|
  {
    FoundBy(carvers, image[w.lo..w.hi], w.base)
  }

  ghost predicate InImage(ws: seq<Window>, size: nat) { forall i :: 0 <= i < |ws| ==> ws[i].lo <= ws[i].hi <= size }

  function FoundInAll(image: seq<byte>, carvers: seq<Carver>, ws: seq<Window>): seq<CarvedFile>
    requires InImage(ws, |image|)
  {
    if ws == [] then [] else FoundIn(image, carvers, ws[0]) + FoundInAll(image, carvers, ws[1..])
  }

  lemma {:induction false} WindowsInImage(size: nat, chunk: nat, overlap: nat, cursor: nat)
    ensures InImage(Windows(size, chunk, overlap, cursor), size)
    decreases size - cursor
  {
    if cursor < size && chunk > 0 { WindowsInImage(size, chunk, overlap, Min(cursor + chunk, size)); }
  }

  /** What a scan of the image gives. */
  function Scanned(image: seq<byte>, carvers: seq<Carver>, chunk: nat, overlap: nat): seq<CarvedFile>
  {
    WindowsInImage(|image|, chunk, overlap, 0);
    Merge([], FoundInAll(image, carvers, Windows(|image|, chunk, overlap, 0)))
  }

  // ---- the scanner's loops ----

  ghost predicate ScanState(image: seq<byte>, carvers: seq<Carver>, chunk: nat, overlap: nat, cursor: nat,
                            results: seq<CarvedFile>)
  {
    InImage(Windows(|image|, chunk, overlap, cursor), |image|)
    && Scanned(image, carvers, chunk, overlap)
      == Merge(results, FoundInAll(image, carvers, Windows(|image|, chunk, overlap, cursor)))
  }

  lemma ScanStart(image: seq<byte>, carvers: seq<Carver>, chunk: nat, overlap: nat)
    ensures ScanState(image, carvers, chunk, overlap, 0, [])
  {
    WindowsInImage(|image|, chunk, overlap, 0);
    hide Merge, FoundInAll, Windows;
  }

  lemma ScanStep(image: seq<byte>, carvers: seq<Carver>, chunk: nat, overlap: nat, cursor: nat,
                 results: seq<CarvedFile>)
    requires cursor < |image| && chunk > 0 && ScanState(image, carvers, chunk, overlap, cursor, results)
    ensures var w := WindowAt(|image|, chunk, overlap, cursor);
      w.lo <= w.hi <= |image|
        && ScanState(image, carvers, chunk, overlap, w.hi, Merge(results, FoundIn(image, carvers, w)))
  {
    hide Merge, FoundIn, Scanned;
    var w := WindowAt(|image|, chunk, overlap, cursor);
    WindowsInImage(|image|, chunk, overlap, w.hi);
    var rest := Windows(|image|, chunk, overlap, w.hi);
    assert ([w] + rest)[1..] == rest;
    MergeConcat(results, FoundIn(image, carvers, w), FoundInAll(image, carvers, rest));
  }

  lemma ScanEnd(image: seq<byte>, carvers: seq<Carver>, chunk: nat, overlap: nat, cursor: nat, results: seq<CarvedFile>)
    requires ScanState(image, carvers, chunk, overlap, cursor, results) && (cursor >= |image| || chunk == 0)
    ensures results == Scanned(image, carvers, chunk, overlap)
  {
    hide Scanned;
  }

  /** The two inner loops: every carver over the window, every file it reports. */
  method ScanWindow(carvers: seq<Carver>, data: seq<byte>, base: nat, kept: seq<CarvedFile>)
    returns (results: seq<CarvedFile>)
    ensures results == Merge(kept, FoundBy(carvers, data, base))
  {
    hide Merge;
    results := kept;
    MergeNothing(kept);
    for k := 0 to |carvers|
      invariant results == Merge(kept, FoundBy(carvers[..k], data, base))
    {
      var found := carvers[k](data);
      ghost var before := results;
      MergeNothing(before);
      assert carvers[..k + 1][..k] == carvers[..k];
      for j := 0 to |found|
        invariant results == Merge(before, PlacedAll(found[..j], base))
      {
        var file := Placed(found[j], base);
        assert found[..j + 1][..j] == found[..j];
        MergeSnoc(before, PlacedAll(found[..j], base), file);
        if file.start < LastEnd(results) { continue; }
        results := results + [file];
      }
      assert found[..|found|] == found;
      MergeConcat(kept, FoundBy(carvers[..k], data, base), PlacedAll(found, base));
    }
    assert carvers[..|carvers|] == carvers;
  }

  /** `buffer[-overlap:]`: a slice from position -0 is the whole buffer. */
  function Tail(buffer: seq<byte>, overlap: nat): seq<byte>
    requires overlap <= |buffer|
  {
    if overlap == 0 then buffer else buffer[|buffer| - overlap..]
  }

  ghost predicate BufferState(image: seq<byte>, chunk: nat, overlap: nat, cursor: nat, buffer: seq<byte>, base: nat)
  {
    var w := WindowAt(|image|, chunk, overlap, cursor);
    cursor <= |image| && w.lo <= cursor && base == w.base && buffer == image[w.lo..cursor]
  }

  lemma Extended(image: seq<byte>, chunk: nat, overlap: nat, cursor: nat, buffer: seq<byte>, base: nat)
    requires BufferState(image, chunk, overlap, cursor, buffer, base)
    ensures var w := WindowAt(|image|, chunk, overlap, cursor); var next := Min(cursor + chunk, |image|);
      w.lo <= next && w.hi == next && buffer + ReadAt(image, cursor, next - cursor) == image[w.lo..next]
  {}

  /** Trimming leaves the buffer where the next window begins. */
  lemma Trimmed(image: seq<byte>, chunk: nat, overlap: nat, cursor: nat, next: nat, buffer: seq<byte>)
    requires cursor < next <= |image|
    requires var w := WindowAt(|image|, chunk, overlap, cursor); w.lo <= next && buffer == image[w.lo..next]
    ensures |buffer| > overlap ==> BufferState(image, chunk, overlap, next, Tail(buffer, overlap), Base(next, overlap))
    ensures |buffer| <= overlap ==> BufferState(image, chunk, overlap, next, buffer, Base(cursor, overlap))
  {}

  /** `StreamingScanner.scan` without the progress callback. */
  method Scan(image: seq<byte>, carvers: seq<Carver>, chunkSize: nat, overlap: nat)
    returns (allResults: seq<CarvedFile>)
    ensures allResults == Scanned(image, carvers, chunkSize, overlap)
  {
    hide *;
    var buffer: seq<byte> := [];
    var bufferBase: nat := 0;
    var fileCursor: nat := 0;
    allResults := [];
    ScanStart(image, carvers, chunkSize, overlap);
    BufferStart(image, chunkSize, overlap);
    while fileCursor < |image|
      invariant ScanState(image, carvers, chunkSize, overlap, fileCursor, allResults)
      invariant BufferState(image, chunkSize, overlap, fileCursor, buffer, bufferBase)
      decreases |image| - fileCursor
    {
      Extended(image, chunkSize, overlap, fileCursor, buffer, bufferBase);
      var toRead := NextRead(chunkSize, |image|, fileCursor);
      var chunk := ReadAt(image, fileCursor, toRead);
      ChunkRead(image, chunkSize, fileCursor);
      if chunk == [] {
        ScanEnd(image, carvers, chunkSize, overlap, fileCursor, allResults);
        return;
      }
      ghost var cursor := fileCursor;
      BaseOf(image, chunkSize, overlap, cursor, buffer, bufferBase);
      buffer := buffer + chunk;
      fileCursor := fileCursor + |chunk|;
      ScanStep(image, carvers, chunkSize, overlap, cursor, allResults);
      FoundInWindow(image, carvers, WindowAt(|image|, chunkSize, overlap, cursor));
      allResults := ScanWindow(carvers, buffer, bufferBase, allResults);
      Trimmed(image, chunkSize, overlap, cursor, fileCursor, buffer);
      if |buffer| > overlap {
        buffer := Tail(buffer, overlap);
        bufferBase := Base(fileCursor, overlap);
      }
    }
    ScanEnd(image, carvers, chunkSize, overlap, fileCursor, allResults);
  }

  function NextRead(chunkSize: nat, size: nat, cursor: nat): nat
    requires cursor < size
  {
    if chunkSize < size - cursor then chunkSize else size - cursor
  }

  lemma BufferStart(image: seq<byte>, chunk: nat, overlap: nat)
    ensures BufferState(image, chunk, overlap, 0, [], 0)
  {}

  lemma BaseOf(image: seq<byte>, chunk: nat, overlap: nat, cursor: nat, buffer: seq<byte>, base: nat)
    requires BufferState(image, chunk, overlap, cursor, buffer, base)
    ensures base == WindowAt(|image|, chunk, overlap, cursor).base == Base(cursor, overlap)
  {}

  lemma ChunkRead(image: seq<byte>, chunk: nat, cursor: nat)
    requires cursor < |image|
    ensures NextRead(chunk, |image|, cursor) == Min(cursor + chunk, |image|) - cursor
    ensures |ReadAt(image, cursor, NextRead(chunk, |image|, cursor))| == NextRead(chunk, |image|, cursor)
    ensures chunk == 0 <==> ReadAt(image, cursor, NextRead(chunk, |image|, cursor)) == []
  {}

  lemma FoundInWindow(image: seq<byte>, carvers: seq<Carver>, w: Window)
    requires w.lo <= w.hi <= |image|
    ensures FoundIn(image, carvers, w) == FoundBy(carvers, image[w.lo..w.hi], w.base)
  {}
}
