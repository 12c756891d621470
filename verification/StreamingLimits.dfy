/** When exactly streaming finds what one pass over the whole image finds, and inputs on which it does not. */
module StreamingLimits {
  import opened RawImage
  import opened Carving
  import opened ScanMerge
  import opened StreamingScanner
  import opened StreamingWindows
  import opened StreamingWhole

  // ---- what is found lies in a window ----

  lemma UptoLies(sig: Signature, image: seq<byte>, from: nat, c: nat, f: CarvedFile)
    requires f in Upto(sig, image, from, c)
    ensures from <= f.start && f.end <= c && LongFileAt(sig, image, f.start, f.end)
  {
    hide FileAt, EndOf, Extents, FilesOf, LongEnough;
    var xs := Extents(sig, image, from, c);
    ExtentsWithin(sig, image, from, c);
    ExtentsAreSelection(sig, image, from, c);
    FilesAre(sig, image, xs, f);
    var i :| 0 <= i < |xs| && LongEnough(sig, xs[i]) && f == FileOf(sig, image, xs[i]);
    assert IsFile(sig, image, c, xs[i]);
    EndFits(sig, image, xs[i].start, c);
    EndIff(sig, image, xs[i].start, c, xs[i].end);
    AscendingAbove(xs, from, xs[i].start);
  }

  lemma {:induction false} FoundIsHeld(sig: Signature, image: seq<byte>, ws: seq<Window>, f: CarvedFile)
    requires InImage(ws, |image|) && Aligned(ws) && f in FoundInAll(image, [HeaderFooter(sig)], ws)
    ensures HeldBySome(ws, f.start, f.end) && LongFileAt(sig, image, f.start, f.end)
    decreases |ws|
  {
    hide FoundIn, HeaderFooter, Upto, LongFileAt;
    if f in FoundIn(image, [HeaderFooter(sig)], ws[0]) {
      WindowFound(sig, image, ws[0]);
      UptoLies(sig, image, ws[0].lo, ws[0].hi, f);
      assert ws[0] in ws && Holds(ws[0], f.start, f.end);
    } else {
      FoundIsHeld(sig, image, ws[1..], f);
      var w :| w in ws[1..] && Holds(w, f.start, f.end);
      assert w in ws;
    }
  }

  lemma ScannedIsHeld(sig: Signature, image: seq<byte>, chunk: nat, overlap: nat, f: CarvedFile)
    requires overlap > 0 && f in Scanned(image, [HeaderFooter(sig)], chunk, overlap)
    ensures HeldBySome(Windows(|image|, chunk, overlap, 0), f.start, f.end) && LongFileAt(sig, image, f.start, f.end)
  {
    hide FoundInAll, Windows, Merge, HeaderFooter, LongFileAt, HeldBySome;
    var ws := Windows(|image|, chunk, overlap, 0);
    WindowsInImage(|image|, chunk, overlap, 0);
    AlignedFrom(|image|, chunk, overlap, 0);
    MergeMembers([], FoundInAll(image, [HeaderFooter(sig)], ws), f);
    FoundIsHeld(sig, image, ws, f);
  }

  // ---- exactly when ----

  /** One pass reports a file that ends with `e` and starts no later than `p`. */
  lemma LongFileIsCarved(sig: Signature, image: seq<byte>, p: nat, e: nat) returns (f: CarvedFile)
    requires Apart(sig, image) && LongFileAt(sig, image, p, e)
    ensures f in Carved(sig, image) && f.start <= p && f.end == e
  {
    hide Apart, FileAt, EndOf, Extents, FilesOf;
    var c := |image|;
    var xs := Extents(sig, image, 0, c);
    ExtentsWithin(sig, image, 0, c);
    EndIff(sig, image, p, c, e);
    var i := CoveringExtent(sig, image, c, Extent(p, e));
    FilesHave(sig, image, xs, i);
    f := FileOf(sig, image, xs[i]);
  }

  /** Streaming finds what one pass finds exactly when every file long enough to be reported lies in some window. */
  lemma StreamingIsWholeIff(sig: Signature, image: seq<byte>, chunk: nat, overlap: nat)
    requires chunk > 0 && overlap > 0 && Apart(sig, image)
    ensures Scanned(image, [HeaderFooter(sig)], chunk, overlap) == Carved(sig, image)
       <==> AllHeld(sig, image, Windows(|image|, chunk, overlap, 0), 0)
  {
    hide Apart, Scanned, Carved, HeaderFooter, Windows, LongFileAt, Holds;
    var ws := Windows(|image|, chunk, overlap, 0);
    if AllHeld(sig, image, ws, 0) { HeldIsFound(sig, image, chunk, overlap); }
    if Scanned(image, [HeaderFooter(sig)], chunk, overlap) == Carved(sig, image) {
      forall p: nat, e: nat | LongFileAt(sig, image, p, e) ensures HeldBySome(ws, p, e) {
        var f := LongFileIsCarved(sig, image, p, e);
        ScannedIsHeld(sig, image, chunk, overlap, f);
        HeldInside(ws, f.start, f.end, p);
      }
    }
  }

  lemma HeldInside(ws: seq<Window>, a: nat, e: nat, p: nat)
    requires HeldBySome(ws, a, e) && a <= p
    ensures HeldBySome(ws, p, e)
  {
    var w :| w in ws && Holds(w, a, e);
    assert Holds(w, p, e);
  }

  lemma HeldIsBounded(ws: seq<Window>, size: nat, p: nat, e: nat)
    requires Bounded(ws, size) && HeldBySome(ws, p, e) && p < e
    ensures e - p <= size
  {}

  /** It does so for every chunk size exactly when no file of the image is longer than the overlap and one byte. */
  lemma StreamingIsWholeForAllIff(sig: Signature, image: seq<byte>, overlap: nat)
    requires overlap > 0 && Apart(sig, image) && sig.minSize <= overlap + 2
    ensures (forall chunk: nat :: chunk > 0 ==>
              Scanned(image, [HeaderFooter(sig)], chunk, overlap) == Carved(sig, image))
       <==> Fits(sig, image, overlap + 1)
  {
    hide Apart, Scanned, Carved, HeaderFooter, FileAt, Windows, HeldBySome;
    if Fits(sig, image, overlap + 1) {
      forall chunk: nat | chunk > 0 ensures Scanned(image, [HeaderFooter(sig)], chunk, overlap) == Carved(sig, image) {
        StreamingIsWhole(sig, image, chunk, overlap);
      }
    }
    if Scanned(image, [HeaderFooter(sig)], 1, overlap) == Carved(sig, image) {
      StreamingIsWholeIff(sig, image, 1, overlap);
      BufferBound(|image|, 1, overlap);
      forall p: nat, e: nat | FileAt(sig, image, p, e) ensures e - p <= overlap + 1 {
        EndIff(sig, image, p, |image|, e);
        if LongEnough(sig, Extent(p, e)) {
          assert LongFileAt(sig, image, p, e);
          HeldIsBounded(Windows(|image|, 1, overlap, 0), overlap + 1, p, e);
        }
      }
    }
  }

  // ---- images of zeros with JPEG markers ----

  /** Zeros, but FF D8 FF around the positions of `soi`, and FF D9 at those of `eoi`. */
  function MarkerByte(soi: set<nat>, eoi: set<nat>, i: nat): byte
  {
    if i in soi then 0xD8
    else if i in eoi then 0xD9
    else if i + 1 in soi || i + 1 in eoi || (i > 0 && i - 1 in soi) then 0xFF
    else 0
  }

  function Marked(size: nat, soi: set<nat>, eoi: set<nat>): (image: seq<byte>)
    ensures |image| == size && forall i :: 0 <= i < size ==> image[i] == MarkerByte(soi, eoi, i)
  {
    seq(size, i requires 0 <= i < size => MarkerByte(soi, eoi, i))
  }

  /** The markers fit into the image and do not touch each other. */
  ghost predicate Spread(size: nat, soi: set<nat>, eoi: set<nat>)
  {
    && (forall x :: x in soi ==> 1 <= x < size - 1)
    && (forall y :: y in eoi ==> 1 <= y < size)
    && (forall x :: x in soi || x in eoi ==> x + 1 !in soi && x + 1 !in eoi)
    && soi !! eoi
  }

  lemma JpegHeaderMeans(data: seq<byte>, p: nat)
    ensures OccursAt(data, JPEG.header, p)
       <==> p + 3 <= |data| && data[p] == 0xFF && data[p + 1] == 0xD8 && data[p + 2] == 0xFF
  {
    if p + 3 <= |data| {
      assert data[p..p + 3] == [data[p], data[p + 1], data[p + 2]];
      assert JPEG.header == [0xFF, 0xD8, 0xFF];
    }
  }

  lemma JpegFooterMeans(data: seq<byte>, p: nat)
    ensures OccursAt(data, JPEG.footer, p) <==> p + 2 <= |data| && data[p] == 0xFF && data[p + 1] == 0xD9
  {
    if p + 2 <= |data| {
      assert data[p..p + 2] == [data[p], data[p + 1]];
      assert JPEG.footer == [0xFF, 0xD9];
    }
  }

  lemma MarkedOccurs(size: nat, soi: set<nat>, eoi: set<nat>, p: nat)
    requires Spread(size, soi, eoi)
    ensures OccursAt(Marked(size, soi, eoi), JPEG.header, p) <==> p + 1 in soi
    ensures OccursAt(Marked(size, soi, eoi), JPEG.footer, p) <==> p + 1 in eoi
  {
    hide OccursAt;
    var image := Marked(size, soi, eoi);
    JpegHeaderMeans(image, p);
    JpegFooterMeans(image, p);
    if p + 1 in soi { assert p !in soi && p !in eoi && p + 2 !in soi && p + 2 !in eoi && p + 1 !in eoi; }
    if p + 1 in eoi { assert p !in soi && p !in eoi && p + 1 !in soi; }
  }

  /** The files of such an image. */
  ghost predicate MarkedFile(soi: set<nat>, eoi: set<nat>, p: nat, e: nat)
  {
    && p + 1 in soi && e > 0 && e - 1 in eoi && p + 5 <= e <= p + JPEG.lookback + 2
    && forall y :: y in eoi && p + 4 <= y ==> e - 1 <= y
  }

  lemma MarkedFiles(size: nat, soi: set<nat>, eoi: set<nat>, p: nat, e: nat)
    requires Spread(size, soi, eoi)
    ensures FileAt(JPEG, Marked(size, soi, eoi), p, e) <==> MarkedFile(soi, eoi, p, e)
  {
    hide OccursAt, Marked, Spread;
    var image := Marked(size, soi, eoi);
    assert |JPEG.header| == 3 && |JPEG.footer| == 2;
    forall q: nat ensures OccursAt(image, JPEG.header, q) <==> q + 1 in soi
                  ensures OccursAt(image, JPEG.footer, q) <==> q + 1 in eoi
    {
      MarkedOccurs(size, soi, eoi, q);
    }
    if FileAt(JPEG, image, p, e) {
      assert OccursAt(image, JPEG.footer, e - 2);
      forall y | y in eoi && p + 4 <= y ensures e - 1 <= y { assert OccursAt(image, JPEG.footer, y - 1); }
    }
    if MarkedFile(soi, eoi, p, e) { assert OccursAt(image, JPEG.footer, e - 2); }
  }

  lemma MarkedApart(size: nat, soi: set<nat>, eoi: set<nat>)
    requires Spread(size, soi, eoi)
    ensures Apart(JPEG, Marked(size, soi, eoi)) <==> forall x :: x in soi ==> x + 2 !in eoi
  {
    hide OccursAt, Marked;
    var image := Marked(size, soi, eoi);
    assert |JPEG.header| == 3 && |JPEG.footer| == 2;
    forall q: nat ensures OccursAt(image, JPEG.header, q) <==> q + 1 in soi
                  ensures OccursAt(image, JPEG.footer, q) <==> q + 1 in eoi
    {
      MarkedOccurs(size, soi, eoi, q);
    }
    if Apart(JPEG, image) {
      forall x | x in soi ensures x + 2 !in eoi {
        assert OccursAt(image, JPEG.header, x - 1);
        assert OccursAt(image, JPEG.footer, x + 1) <==> x + 2 in eoi;
      }
    }
    if forall x :: x in soi ==> x + 2 !in eoi {
      forall p: nat, q: nat | OccursAt(image, JPEG.header, p) && OccursAt(image, JPEG.footer, q)
        ensures p + 3 <= q || q + 2 <= p
      {
        assert p + 1 in soi && q + 1 in eoi && p + 3 !in eoi && p + 2 !in eoi;
      }
    }
  }

  // ---- the search limit against the overlap ----

  /** A JPEG file of `fill` zeros between its markers, behind `pre` zeros. */
  function OneFile(pre: nat, fill: nat): seq<byte> { Marked(pre + fill + 5, {pre + 1}, {pre + fill + 4}) }

  lemma OneFileIs(pre: nat, fill: nat)
    requires fill + 3 <= JPEG.lookback && 123 <= fill
    ensures |OneFile(pre, fill)| == pre + fill + 5 && Apart(JPEG, OneFile(pre, fill))
    ensures forall p: nat, e: nat :: LongFileAt(JPEG, OneFile(pre, fill), p, e) <==> p == pre && e == pre + fill + 5
  {
    hide FileAt, Apart, Marked;
    var soi, eoi := {pre + 1}, {pre + fill + 4};
    MarkedApart(pre + fill + 5, soi, eoi);
    assert |JPEG.footer| == 2 && JPEG.minSize == 128;
    forall p: nat, e: nat ensures FileAt(JPEG, OneFile(pre, fill), p, e) <==> p == pre && e == pre + fill + 5 {
      MarkedFiles(pre + fill + 5, soi, eoi, p, e);
    }
  }

  /** When no window holds its one file, streaming finds nothing, and one pass finds it. */
  lemma OneFileIsMissed(pre: nat, fill: nat, chunk: nat, overlap: nat)
    requires fill + 3 <= JPEG.lookback && 123 <= fill && chunk > 0 && overlap > 0
    requires !HeldBySome(Windows(|OneFile(pre, fill)|, chunk, overlap, 0), pre, pre + fill + 5)
    ensures Scanned(OneFile(pre, fill), [HeaderFooter(JPEG)], chunk, overlap) == []
    ensures exists f :: f in Carved(JPEG, OneFile(pre, fill)) && f.start == pre && f.end == pre + fill + 5
  {
    hide Scanned, HeaderFooter, Windows, HeldBySome, LongFileAt, Carved, OneFile, Apart;
    var image := OneFile(pre, fill);
    OneFileIs(pre, fill);
    var found := Scanned(image, [HeaderFooter(JPEG)], chunk, overlap);
    if found != [] { ScannedIsHeld(JPEG, image, chunk, overlap, found[0]); }
    var f := LongFileIsCarved(JPEG, image, pre, pre + fill + 5);
    OnlyFile(JPEG, image, f, pre, pre + fill + 5);
  }

  /** What one pass reports is a file of the image. */
  lemma OnlyFile(sig: Signature, image: seq<byte>, f: CarvedFile, p: nat, e: nat)
    requires f in Carved(sig, image)
    requires forall q: nat, g: nat :: LongFileAt(sig, image, q, g) <==> q == p && g == e
    ensures f.start == p && f.end == e
  {
    hide LongFileAt;
    CarvedIsUpto(sig, image);
    UptoLies(sig, image, 0, |image|, f);
  }

  lemma CarvedIsUpto(sig: Signature, image: seq<byte>)
    ensures Carved(sig, image) == Upto(sig, image, 0, |image|)
  {
    hide Extents, FilesOf;
  }

  /** For the JPEG carver an overlap makes streaming find what one pass finds, on every image in which no header
      overlaps a footer and for every chunk size, exactly when it is no more than one byte short of the longest file. */
  lemma JpegOverlapIff(overlap: nat)
    requires overlap > 0
    ensures (forall image, chunk: nat :: chunk > 0 && Apart(JPEG, image) ==>
              Scanned(image, [HeaderFooter(JPEG)], chunk, overlap) == Carved(JPEG, image))
       <==> JPEG.lookback + |JPEG.footer| <= overlap + 1
  {
    hide Apart, Scanned, HeaderFooter, Carved;
    if JPEG.lookback + |JPEG.footer| <= overlap + 1 {
      forall image, chunk: nat | chunk > 0 && Apart(JPEG, image)
        ensures Scanned(image, [HeaderFooter(JPEG)], chunk, overlap) == Carved(JPEG, image)
      {
        EnoughOverlap(JPEG, image, overlap);
        StreamingIsWhole(JPEG, image, chunk, overlap);
      }
    } else {
      LongestFileIsMissed(overlap);
    }
  }

  lemma LongestFileIsMissed(overlap: nat)
    requires 0 < overlap && overlap + 1 < JPEG.lookback + |JPEG.footer|
    ensures var image := OneFile(0, JPEG.lookback - 3);
      Apart(JPEG, image) && Scanned(image, [HeaderFooter(JPEG)], 1, overlap) != Carved(JPEG, image)
  {
    hide Apart, Scanned, HeaderFooter, Carved, Windows, OneFile, HeldBySome;
    var fill := JPEG.lookback - 3;
    assert JPEG.lookback == 4_194_304 && |JPEG.footer| == 2;
    OneFileIs(0, fill);
    var ws := Windows(|OneFile(0, fill)|, 1, overlap, 0);
    BufferBound(|OneFile(0, fill)|, 1, overlap);
    if HeldBySome(ws, 0, fill + 5) { HeldIsBounded(ws, overlap + 1, 0, fill + 5); }
    OneFileIsMissed(0, fill, 1, overlap);
  }

  /** With the default chunk size and overlap a JPEG file of the greatest length is lost when it begins one byte before
      the end of the first chunk. */
  lemma DefaultsMissAFile()
    ensures var image := OneFile(DEFAULT_CHUNK_SIZE - 1, DEFAULT_OVERLAP - 3);
      && Apart(JPEG, image)
      && Scanned(image, [HeaderFooter(JPEG)], DEFAULT_CHUNK_SIZE, DEFAULT_OVERLAP) == []
      && Carved(JPEG, image) != []
  {
    hide Apart, Scanned, HeaderFooter, Carved, OneFile;
    var n: nat := DEFAULT_OVERLAP;
    assert n == DEFAULT_CHUNK_SIZE == JPEG.lookback == 4_194_304;
    OneFileIs(n - 1, n - 3);
    DefaultWindows();
    OneFileIsMissed(n - 1, n - 3, n, n);
  }

  lemma DefaultWindows()
    ensures var n: nat := DEFAULT_OVERLAP;
      Windows(2 * n + 1, n, n, 0) == [Window(0, 0, n), Window(0, 0, 2 * n), Window(n, n, 2 * n + 1)]
  {
    var n: nat := DEFAULT_OVERLAP;
    assert Windows(2 * n + 1, n, n, 2 * n + 1) == [];
    assert Windows(2 * n + 1, n, n, 2 * n) == [Window(n, n, 2 * n + 1)];
    assert Windows(2 * n + 1, n, n, n) == [Window(0, 0, 2 * n), Window(n, n, 2 * n + 1)];
  }

  // ---- a header that runs into a footer ----

  /** FF D8 FF at 0, FF D8 FF D9 at 200, FF D8 FF at 204, FF D9 at 402. */
  function RunTogether(): seq<byte> { Marked(404, {1, 201, 205}, {203, 403}) }

  lemma RunTogetherFile(p: nat, e: nat)
    ensures FileAt(JPEG, RunTogether(), p, e)
       <==> (p == 0 && e == 204) || (p == 200 && e == 404) || (p == 204 && e == 404)
  {
    hide FileAt, Marked;
    assert JPEG.lookback == 4_194_304;
    MarkedFiles(404, {1, 201, 205}, {203, 403}, p, e);
    if p == 0 || p == 200 || p == 204 { assert 203 in {203, 403} && 403 in {203, 403}; }
  }

  lemma RunTogetherEnd(p: nat, hi: nat)
    ensures EndOf(JPEG, RunTogether(), p, hi)
         == if p == 0 && 204 <= hi then Some(204) else if (p == 200 || p == 204) && 404 <= hi then Some(404) else None
  {
    hide FileAt, EndOf, RunTogether;
    RunTogetherFile(p, 204);
    RunTogetherFile(p, 404);
    EndIff(JPEG, RunTogether(), p, hi, 204);
    EndIff(JPEG, RunTogether(), p, hi, 404);
    var r := EndOf(JPEG, RunTogether(), p, hi);
    if r.Some? {
      RunTogetherFile(p, r.value);
      EndIff(JPEG, RunTogether(), p, hi, r.value);
    }
  }

  lemma RunTogetherExtents()
    ensures Extents(JPEG, RunTogether(), 0, 300) == [Extent(0, 204)]
    ensures Extents(JPEG, RunTogether(), 10, 404) == [Extent(200, 404)]
    ensures Extents(JPEG, RunTogether(), 0, 404) == [Extent(0, 204), Extent(204, 404)]
  {
    hide EndOf, FileAt, RunTogether, Extents;
    var image := RunTogether();
    forall p: nat, hi: nat ensures EndOf(JPEG, image, p, hi)
         == if p == 0 && 204 <= hi then Some(204) else if (p == 200 || p == 204) && 404 <= hi then Some(404) else None
    { RunTogetherEnd(p, hi); }
    NoExtents(JPEG, image, 204, 300);
    NoExtents(JPEG, image, 404, 404);
    ExtentsTake(JPEG, image, 0, 204, 300);
    ExtentsTake(JPEG, image, 0, 204, 404);
    ExtentsTake(JPEG, image, 204, 404, 404);
    ExtentsTake(JPEG, image, 200, 404, 404);
    SkipFiles(JPEG, image, 10, 200, 404);
  }

  lemma MergeTwo(f: CarvedFile, g: CarvedFile)
    requires g.start < f.end
    ensures Merge([], [f, g]) == [f]
  {
    assert [f, g] == [f] + [g];
    assert [f][1..] == [] && [g][1..] == [] && [] + [f] == [f];
    MergeConcat([], [f], [g]);
    assert Merge([], [f]) == Merge([f], []) == [f];
    assert Merge([f], [g]) == Merge([f], []) == [f];
  }

  lemma FoundInTwo(image: seq<byte>, carvers: seq<Carver>, w: Window, v: Window)
    requires w.lo <= w.hi <= |image| && v.lo <= v.hi <= |image|
    ensures InImage([w, v], |image|) && FoundInAll(image, carvers, [w, v])
      == FoundIn(image, carvers, w) + FoundIn(image, carvers, v)
  {
    hide FoundIn;
    assert [w, v][1..] == [v] && [v][1..] == [];
    assert FoundInAll(image, carvers, []) == [];
  }

  lemma TwoWindows()
    ensures Windows(404, 300, 290, 0) == [Window(0, 0, 300), Window(10, 10, 404)]
  {
    assert Windows(404, 300, 290, 404) == [];
    assert Windows(404, 300, 290, 300) == [Window(10, 10, 404)];
  }

  lemma UptoOne(sig: Signature, image: seq<byte>, from: nat, c: nat, x: Extent)
    requires x.start <= x.end <= |image| && LongEnough(sig, x) && Extents(sig, image, from, c) == [x]
    ensures Upto(sig, image, from, c) == [FileOf(sig, image, x)]
  {
    hide Extents;
    ExtentsWithin(sig, image, from, c);
    FilesOfOne(sig, image, x);
  }

  lemma RunTogetherScan()
    ensures |RunTogether()| == 404
    ensures Scanned(RunTogether(), [HeaderFooter(JPEG)], 300, 290) == [FileOf(JPEG, RunTogether(), Extent(0, 204))]
  {
    var image := RunTogether();
    assert |image| == 404 && JPEG.minSize == 128;
    hide RunTogether, FoundIn, FoundInAll, Windows, HeaderFooter, Merge, Upto, Extents;
    RunTogetherExtents();
    UptoOne(JPEG, image, 0, 300, Extent(0, 204));
    UptoOne(JPEG, image, 10, 404, Extent(200, 404));
    var w, v := Window(0, 0, 300), Window(10, 10, 404);
    TwoWindows();
    WindowFound(JPEG, image, w);
    WindowFound(JPEG, image, v);
    FoundInTwo(image, [HeaderFooter(JPEG)], w, v);
    var f, g := FileOf(JPEG, image, Extent(0, 204)), FileOf(JPEG, image, Extent(200, 404));
    assert [f] + [g] == [f, g];
    MergeTwo(f, g);
  }

  /** Without a gap between header and footer the JPEG carver can lose a file: every file here lies in a window, but the
      second window finds the wrong one, drops it, and misses the last one. */
  lemma RunTogetherIsLost()
    ensures Fits(JPEG, RunTogether(), 291) && !Apart(JPEG, RunTogether())
    ensures Scanned(RunTogether(), [HeaderFooter(JPEG)], 300, 290) != Carved(JPEG, RunTogether())
  {
    hide FileAt, Scanned, Extents, FilesOf, Marked, Apart;
    var image := RunTogether();
    forall p: nat, e: nat | FileAt(JPEG, image, p, e) ensures e - p <= 291 { RunTogetherFile(p, e); }
    RunTogetherIsClose();
    RunTogetherScan();
    RunTogetherExtents();
    ExtentsWithin(JPEG, image, 0, 404);
    FilesHave(JPEG, image, Extents(JPEG, image, 0, 404), 1);
  }

  lemma RunTogetherIsClose()
    ensures !Apart(JPEG, RunTogether())
  {
    hide Marked, Apart;
    assert 201 in {1, 201, 205} && 203 in {203, 403};
    MarkedApart(404, {1, 201, 205}, {203, 403});
  }
}
