/** What holds of the windows of a streaming scan and of the files it returns, whatever the carvers. */
module StreamingWindows {
  import opened Carving
  import opened RawImage
  import opened ScanMerge
  import opened StreamingScanner

  // ---- the windows ----

  ghost predicate Aligned(ws: seq<Window>) { forall i :: 0 <= i < |ws| ==> ws[i].base == ws[i].lo }

  ghost predicate Bounded(ws: seq<Window>, size: nat) { forall i :: 0 <= i < |ws| ==> ws[i].hi - ws[i].lo <= size }

  lemma {:induction false} AlignedFrom(size: nat, chunk: nat, overlap: nat, cursor: nat)
    requires overlap > 0
    ensures Aligned(Windows(size, chunk, overlap, cursor))
      && Bounded(Windows(size, chunk, overlap, cursor), overlap + chunk)
    decreases size - cursor
  {
    if cursor < size && chunk > 0 { AlignedFrom(size, chunk, overlap, Min(cursor + chunk, size)); }
  }

  /** Offsets are right in every window exactly when some overlap is kept or one window holds everything. */
  lemma AlignedIff(size: nat, chunk: nat, overlap: nat)
    ensures Aligned(Windows(size, chunk, overlap, 0)) <==> overlap > 0 || size <= chunk || chunk == 0
  {
    var ws := Windows(size, chunk, overlap, 0);
    if overlap > 0 {
      AlignedFrom(size, chunk, overlap, 0);
    } else if size > chunk > 0 {
      assert Windows(size, chunk, overlap, chunk)[0] == WindowAt(size, chunk, overlap, chunk);
      assert ws == [WindowAt(size, chunk, overlap, 0)] + Windows(size, chunk, overlap, chunk);
      assert ws[1] == WindowAt(size, chunk, overlap, chunk);
    } else if size > 0 && chunk > 0 {
      assert Windows(size, chunk, overlap, size) == [];
      assert ws == [WindowAt(size, chunk, overlap, 0)];
    }
  }

  /** The buffer never holds more than the overlap and one chunk. */
  lemma BufferBound(size: nat, chunk: nat, overlap: nat)
    requires overlap > 0
    ensures Bounded(Windows(size, chunk, overlap, 0), overlap + chunk)
  {
    AlignedFrom(size, chunk, overlap, 0);
  }

  ghost predicate Holds(w: Window, a: nat, b: nat) { w.lo <= a && b <= w.hi }

  /** From any position of the cursor: every stretch behind it of at most one byte more than the overlap lies in
      some window.  With the cursor at zero these are all stretches of the image. */
  lemma {:induction false} WindowHolds(size: nat, chunk: nat, overlap: nat, cursor: nat, a: nat, b: nat)
    requires chunk > 0 && a < b <= size && cursor < b && b - a <= overlap + 1
    ensures exists w :: w in Windows(size, chunk, overlap, cursor) && Holds(w, a, b)
    decreases size - cursor
  {
    var w, next := WindowAt(size, chunk, overlap, cursor), Min(cursor + chunk, size);
    if b <= next {
      assert w in Windows(size, chunk, overlap, cursor) && Holds(w, a, b);
    } else {
      WindowHolds(size, chunk, overlap, next, a, b);
    }
  }

  // ---- what is emitted ----

  ghost predicate Genuine(image: seq<byte>, fs: seq<CarvedFile>)
  {
    forall f :: f in fs ==> IsThere(image, f)
  }

  predicate IsThere(image: seq<byte>, f: CarvedFile)
  {
    f.start <= f.end <= |image| && f.data == image[f.start..f.end]
  }

  /** A carver that reports what the buffer holds where it says. */
  ghost predicate Honest(c: Carver) { forall data :: Genuine(data, c(data)) }

  lemma PlacedGenuine(image: seq<byte>, lo: nat, hi: nat, fs: seq<CarvedFile>)
    requires lo <= hi <= |image| && Genuine(image[lo..hi], fs)
    ensures Genuine(image, PlacedAll(fs, lo))
  {
    hide IsThere, Placed;
    var r := PlacedAll(fs, lo);
    forall f | f in r ensures IsThere(image, f) {
      var i :| 0 <= i < |r| && r[i] == f;
      assert fs[i] in fs;
      PlacedIsThere(image, lo, hi, fs[i]);
    }
  }

  lemma PlacedIsThere(image: seq<byte>, lo: nat, hi: nat, f: CarvedFile)
    requires lo <= hi <= |image| && IsThere(image[lo..hi], f)
    ensures IsThere(image, Placed(f, lo))
  {
    SliceOfSlice(image, lo, hi, f.start, f.end);
  }

  lemma SliceOfSlice<T>(s: seq<T>, lo: nat, hi: nat, a: nat, b: nat)
    requires lo <= hi <= |s| && a <= b <= hi - lo
    ensures s[lo..hi][a..b] == s[lo + a..lo + b]
  {
    var l, r := s[lo..hi][a..b], s[lo + a..lo + b];
    forall i | 0 <= i < |l| ensures l[i] == r[i] {}
  }

  lemma {:induction false} FoundByGenuine(image: seq<byte>, carvers: seq<Carver>, lo: nat, hi: nat)
    requires lo <= hi <= |image| && forall i :: 0 <= i < |carvers| ==> Honest(carvers[i])
    ensures Genuine(image, FoundBy(carvers, image[lo..hi], lo))
    decreases |carvers|
  {
    hide PlacedAll;
    if carvers == [] {
    } else {
      var data := image[lo..hi];
      var last := carvers[|carvers| - 1];
      FoundByGenuine(image, carvers[..|carvers| - 1], lo, hi);
      assert Honest(last);
      PlacedGenuine(image, lo, hi, last(data));
    }
  }

  lemma {:induction false} FoundInAllGenuine(image: seq<byte>, carvers: seq<Carver>, ws: seq<Window>)
    requires InImage(ws, |image|) && Aligned(ws) && forall i :: 0 <= i < |carvers| ==> Honest(carvers[i])
    ensures Genuine(image, FoundInAll(image, carvers, ws))
    decreases |ws|
  {
    hide FoundBy, Honest;
    if ws == [] {
    } else {
      FoundByGenuine(image, carvers, ws[0].lo, ws[0].hi);
      FoundInAllGenuine(image, carvers, ws[1..]);
    }
  }

  /** Whatever the carvers, what the scan returns is in the image where it says, in ascending order and disjoint. */
  lemma ScannedIsGenuine(image: seq<byte>, carvers: seq<Carver>, chunk: nat, overlap: nat)
    requires overlap > 0 && forall i :: 0 <= i < |carvers| ==> Honest(carvers[i])
    ensures Genuine(image, Scanned(image, carvers, chunk, overlap)) && Disjoint(Scanned(image, carvers, chunk, overlap))
  {
    hide Honest, FoundInAll, Merge;
    var ws := Windows(|image|, chunk, overlap, 0);
    WindowsInImage(|image|, chunk, overlap, 0);
    AlignedFrom(|image|, chunk, overlap, 0);
    FoundInAllGenuine(image, carvers, ws);
    var found := FoundInAll(image, carvers, ws);
    MergeDisjoint([], found);
    forall f | f in Merge([], found) ensures f in found { MergeMembers([], found, f); }
  }

  /** A header/footer carver as the scanner sees it. */
  function HeaderFooter(sig: Signature): Carver { data => Carved(sig, data) }

  lemma {:induction false} FilesOfGenuine(sig: Signature, data: seq<byte>, xs: seq<Extent>)
    requires Within(xs, data)
    ensures Genuine(data, FilesOf(sig, data, xs))
  {
    if xs == [] {
    } else {
      FilesOfGenuine(sig, data, xs[1..]);
    }
  }

  lemma HeaderFooterIsHonest(sig: Signature)
    ensures Honest(HeaderFooter(sig))
  {
    forall data ensures Genuine(data, HeaderFooter(sig)(data)) {
      ExtentsWithin(sig, data, 0, |data|);
      FilesOfGenuine(sig, data, Extents(sig, data, 0, |data|));
    }
  }
}
