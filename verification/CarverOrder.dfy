/** Several carvers in one scan: the files of one can hide files of another. */
module CarverOrder {
  import opened RawImage
  import opened Carving
  import opened ScanMerge
  import opened StreamingScanner
  import opened StreamingWindows
  import opened StreamingLimits

  /** An image of one chunk is scanned by merging what the carvers report, in the order they run. */
  lemma OneWindow(image: seq<byte>, carvers: seq<Carver>, chunk: nat, overlap: nat)
    requires 0 < |image| <= chunk
    ensures Scanned(image, carvers, chunk, overlap) == Merge([], FoundBy(carvers, image, 0))
  {
    hide Merge, FoundBy, FoundInAll;
    var w := Window(0, 0, |image|);
    assert Windows(|image|, chunk, overlap, |image|) == [];
    assert Windows(|image|, chunk, overlap, 0) == [w];
    FoundInOne(image, carvers, w);
    assert image[0..|image|] == image;
  }

  lemma FoundInOne(image: seq<byte>, carvers: seq<Carver>, w: Window)
    requires w.lo <= w.hi <= |image|
    ensures InImage([w], |image|) && FoundInAll(image, carvers, [w]) == FoundIn(image, carvers, w)
  {
    hide FoundIn;
    assert [w][1..] == [] && FoundInAll(image, carvers, []) == [];
  }

  lemma {:induction false} PlacedAtZero(fs: seq<CarvedFile>)
    ensures PlacedAll(fs, 0) == fs
  {}

  lemma FoundByTwo(c: Carver, d: Carver, image: seq<byte>)
    ensures FoundBy([c], image, 0) == c(image) && FoundBy([c, d], image, 0) == c(image) + d(image)
  {
    assert [c][..0] == [] && [c, d][..1] == [c];
    assert FoundBy([], image, 0) == [];
    PlacedAtZero(c(image));
    PlacedAtZero(d(image));
    assert FoundBy([c], image, 0) == [] + c(image);
  }

  // ---- a PNG file before a JPEG file ----

  /** A PNG file of 70 bytes: its header, zeros, and its footer at 58. */
  function PngByte(i: nat): byte
  {
    if i < 8 then PNG.header[i] else if 58 <= i < 70 then PNG.footer[i - 58] else 0
  }

  /** A JPEG file of 128 bytes follows it. */
  function PngThenJpeg(): (image: seq<byte>)
    ensures |image| == 198
    ensures forall i :: 0 <= i < 70 ==> image[i] == PngByte(i)
    ensures forall i :: 70 <= i < 198 ==> image[i] == MarkerByte({1}, {127}, i - 70)
  {
    seq(198, i requires 0 <= i < 198 => if i < 70 then PngByte(i) else MarkerByte({1}, {127}, i - 70))
  }

  /** The bytes that give the patterns away each occur once. */
  lemma PngBytes(i: nat)
    requires i < 70
    ensures PngByte(i) != 0xD8 && PngByte(i) != 0xD9
    ensures PngByte(i) == 0x89 <==> i == 0
    ensures PngByte(i) == 0x49 <==> i == 62
  {
    if i < 8 {
      assert i == 0 || i == 1 || i == 2 || i == 3 || i == 4 || i == 5 || i == 6 || i == 7;
    } else if 58 <= i {
      var k := i - 58;
      assert k == 0 || k == 1 || k == 2 || k == 3 || k == 4 || k == 5 || k == 6 || k == 7 || k == 8 || k == 9
        || k == 10 || k == 11;
    }
  }

  lemma JpegOccurs(p: nat)
    ensures OccursAt(PngThenJpeg(), JPEG.header, p) <==> p == 70
    ensures OccursAt(PngThenJpeg(), JPEG.footer, p) <==> p == 196
  {
    hide OccursAt, PngByte, PngThenJpeg;
    var image := PngThenJpeg();
    JpegHeaderMeans(image, p);
    JpegFooterMeans(image, p);
    if p + 1 < 70 { PngBytes(p + 1); }
  }

  lemma PngOccurs(p: nat)
    ensures OccursAt(PngThenJpeg(), PNG.header, p) <==> p == 0
    ensures OccursAt(PngThenJpeg(), PNG.footer, p) <==> p == 58
  {
    hide PngThenJpeg;
    var image := PngThenJpeg();
    assert |PNG.header| == 8 && |PNG.footer| == 12;
    assert image[0..8] == PNG.header;
    assert image[58..70] == PNG.footer;
    if OccursAt(image, PNG.header, p) {
      assert image[p] == image[p..p + 8][0] == 0x89;
      if p < 70 { PngBytes(p); }
    }
    if OccursAt(image, PNG.footer, p) {
      assert image[p + 4] == image[p..p + 12][4] == 0x49;
      if p + 4 < 70 { PngBytes(p + 4); }
    }
  }

  function PngFile(): CarvedFile { FileOf(PNG, PngThenJpeg(), Extent(0, 70)) }

  function JpegFile(): CarvedFile { FileOf(JPEG, PngThenJpeg(), Extent(70, 198)) }

  lemma EachAlone()
    ensures Carved(PNG, PngThenJpeg()) == [PngFile()] && Carved(JPEG, PngThenJpeg()) == [JpegFile()]
  {
    hide OccursAt, PngThenJpeg, Extents;
    var image := PngThenJpeg();
    assert |JPEG.header| == 3 && |JPEG.footer| == 2 && |PNG.header| == 8 && |PNG.footer| == 12;
    forall p: nat ensures OccursAt(image, JPEG.header, p) <==> p == 70
                  ensures OccursAt(image, JPEG.footer, p) <==> p == 196 { JpegOccurs(p); }
    forall p: nat ensures OccursAt(image, PNG.header, p) <==> p == 0
                  ensures OccursAt(image, PNG.footer, p) <==> p == 58 { PngOccurs(p); }
    SoleFile(JPEG, image, 70, 196);
    SoleFile(PNG, image, 0, 58);
    hide FilesOf;
    FilesOfOne(JPEG, image, Extent(70, 198));
    FilesOfOne(PNG, image, Extent(0, 70));
  }

  /** The PNG carver alone finds its file.  Behind the JPEG carver it loses it, though the two files do not overlap. */
  lemma JpegHidesPng()
    ensures Scanned(PngThenJpeg(), [HeaderFooter(PNG)], DEFAULT_CHUNK_SIZE, DEFAULT_OVERLAP) == [PngFile()]
    ensures Scanned(PngThenJpeg(), [HeaderFooter(JPEG), HeaderFooter(PNG)], DEFAULT_CHUNK_SIZE, DEFAULT_OVERLAP)
      == [JpegFile()]
    ensures PngFile().end <= JpegFile().start
  {
    hide Carved, Merge, FoundBy, Scanned, PngThenJpeg;
    var image, j, p := PngThenJpeg(), HeaderFooter(JPEG), HeaderFooter(PNG);
    EachAlone();
    assert j(image) == [JpegFile()] && p(image) == [PngFile()];
    OneWindow(image, [p], DEFAULT_CHUNK_SIZE, DEFAULT_OVERLAP);
    OneWindow(image, [j, p], DEFAULT_CHUNK_SIZE, DEFAULT_OVERLAP);
    FoundByTwo(p, p, image);
    FoundByTwo(j, p, image);
    LostBehindLater(PngFile(), JpegFile());
    MergeOne(PngFile());
    assert [JpegFile()] + [PngFile()] == [JpegFile(), PngFile()];
  }

  lemma MergeOne(f: CarvedFile)
    ensures Merge([], [f]) == [f]
  {
    MergeSnoc([], [], f);
    MergeNothing([]);
    assert [] + [f] == [f];
  }
}
