/** When streaming finds what one pass over the whole image would find. */
module StreamingWhole {
  import opened RawImage
  import opened Carving
  import opened ScanMerge
  import opened StreamingScanner
  import opened StreamingWindows

  /** No header of the image overlaps a footer.  For JPEG: FF D8 FF D9 occurs nowhere. */
  ghost predicate Apart(sig: Signature, image: seq<byte>)
  {
    forall p: nat, q: nat :: OccursAt(image, sig.header, p) && OccursAt(image, sig.footer, q)
      ==> p + |sig.header| <= q || q + |sig.footer| <= p
  }

  /** No file of the image is longer than a window is sure to hold. */
  ghost predicate Fits(sig: Signature, image: seq<byte>, size: nat)
  {
    forall p: nat, e: nat :: FileAt(sig, image, p, e) ==> e - p <= size
  }

  /** A window's files are those of the image that lie in it. */
  lemma OccursInSlice(image: seq<byte>, lo: nat, hi: nat, pattern: seq<byte>, p: nat)
    requires lo <= hi <= |image|
    ensures OccursAt(image[lo..hi], pattern, p) <==> lo + p + |pattern| <= hi && OccursAt(image, pattern, lo + p)
  {
    if lo + p + |pattern| <= hi { SliceOfSlice(image, lo, hi, p, p + |pattern|); }
  }

  lemma FileInSlice(sig: Signature, image: seq<byte>, lo: nat, hi: nat, p: nat, e: nat)
    requires lo <= hi <= |image|
    ensures FileAt(sig, image[lo..hi], p, e) <==> lo + e <= hi && FileAt(sig, image, lo + p, lo + e)
  {
    hide OccursAt;
    var h, f := |sig.header|, |sig.footer|;
    if p + h + f <= e {
      OccursInSlice(image, lo, hi, sig.header, p);
      OccursInSlice(image, lo, hi, sig.footer, e - f);
      if lo + e <= hi { NoneInSlice(image, lo, hi, sig.footer, p + h, e - f); }
    }
  }

  lemma NoneInSlice(image: seq<byte>, lo: nat, hi: nat, pattern: seq<byte>, a: nat, b: nat)
    requires lo <= hi <= |image| && lo + b + |pattern| <= hi
    ensures (forall q :: a <= q < b ==> !OccursAt(image[lo..hi], pattern, q))
       <==> (forall q :: lo + a <= q < lo + b ==> !OccursAt(image, pattern, q))
  {
    hide OccursAt;
    forall q: nat | a <= q < b ensures OccursAt(image[lo..hi], pattern, q) <==> OccursAt(image, pattern, lo + q) {
      OccursInSlice(image, lo, hi, pattern, q);
    }
    if forall q :: a <= q < b ==> !OccursAt(image[lo..hi], pattern, q) {
      forall q: nat | lo + a <= q < lo + b ensures !OccursAt(image, pattern, q) {
        assert !OccursAt(image[lo..hi], pattern, q - lo);
      }
    }
  }

  lemma EndIff(sig: Signature, data: seq<byte>, p: nat, hi: nat, e: nat)
    ensures EndOf(sig, data, p, hi) == Some(e) <==> FileAt(sig, data, p, e) && e <= hi
    ensures FileAt(sig, data, p, e) ==> p < e <= |data|
  {
    var r := EndOf(sig, data, p, hi);
    if r.Some? && FileAt(sig, data, p, e) { OneEnd(sig, data, p, r.value, e); }
  }

  lemma EndInSlice(sig: Signature, image: seq<byte>, lo: nat, hi: nat, p: nat)
    requires lo <= hi <= |image|
    ensures var r := EndOf(sig, image[lo..hi], p, hi - lo);
      EndOf(sig, image, lo + p, hi) == if r.None? then None else Some(lo + r.value)
  {
    hide *;
    var data := image[lo..hi];
    var r := EndOf(sig, data, p, hi - lo);
    var s := EndOf(sig, image, lo + p, hi);
    if r.Some? {
      EndIff(sig, data, p, hi - lo, r.value);
      FileInSlice(sig, image, lo, hi, p, r.value);
      EndIff(sig, image, lo + p, hi, lo + r.value);
    } else if s.Some? {
      EndIff(sig, image, lo + p, hi, s.value);
      FileInSlice(sig, image, lo, hi, p, s.value - lo);
    }
  }

  function Shifted(xs: seq<Extent>, offset: nat): (r: seq<Extent>)
    ensures |r| == |xs|
  {
    if xs == [] then [] else [Extent(offset + xs[0].start, offset + xs[0].end)] + Shifted(xs[1..], offset)
  }

  lemma {:induction false} ExtentsInSlice(sig: Signature, image: seq<byte>, lo: nat, hi: nat, from: nat)
    requires lo <= hi <= |image|
    ensures Shifted(Extents(sig, image[lo..hi], from, hi - lo), lo) == Extents(sig, image, lo + from, hi)
    decreases hi - from
  {
    hide EndOf, FileAt, OccursAt;
    if lo + from >= hi {
    } else {
      var e := EndOf(sig, image[lo..hi], from, hi - lo);
      EndInSlice(sig, image, lo, hi, from);
      if e.None? {
        ExtentsInSlice(sig, image, lo, hi, from + 1);
      } else {
        EndIff(sig, image[lo..hi], from, hi - lo, e.value);
        ExtentsInSlice(sig, image, lo, hi, e.value);
        var rest := Extents(sig, image[lo..hi], e.value, hi - lo);
        assert ([Extent(from, e.value)] + rest)[1..] == rest;
      }
    }
  }

  lemma {:induction false} FilesInSlice(sig: Signature, image: seq<byte>, lo: nat, hi: nat, xs: seq<Extent>)
    requires lo <= hi <= |image| && Within(xs, image[lo..hi])
    ensures Within(Shifted(xs, lo), image)
    ensures PlacedAll(FilesOf(sig, image[lo..hi], xs), lo) == FilesOf(sig, image, Shifted(xs, lo))
    decreases |xs|
  {
    if xs == [] {
    } else {
      FilesInSlice(sig, image, lo, hi, xs[1..]);
      FirstFileInSlice(sig, image, lo, hi, xs);
    }
  }

  lemma FirstFileInSlice(sig: Signature, image: seq<byte>, lo: nat, hi: nat, xs: seq<Extent>)
    requires lo <= hi <= |image| && Within(xs, image[lo..hi]) && xs != [] && Within(Shifted(xs[1..], lo), image)
    requires PlacedAll(FilesOf(sig, image[lo..hi], xs[1..]), lo) == FilesOf(sig, image, Shifted(xs[1..], lo))
    ensures Within(Shifted(xs, lo), image)
    ensures PlacedAll(FilesOf(sig, image[lo..hi], xs), lo) == FilesOf(sig, image, Shifted(xs, lo))
  {
    hide *;
    var data := image[lo..hi];
    var x := Extent(lo + xs[0].start, lo + xs[0].end);
    WithinSplit(data, xs);
    ShiftedCons(xs, lo);
    FileInWindow(sig, image, lo, hi, xs[0]);
    WithinCons(image, x, Shifted(xs[1..], lo));
    FilesCons(sig, data, xs[0], xs[1..]);
    FilesCons(sig, image, x, Shifted(xs[1..], lo));
    PlacedCons(FileOf(sig, data, xs[0]), FilesOf(sig, data, xs[1..]), lo);
  }

  lemma FileInWindow(sig: Signature, image: seq<byte>, lo: nat, hi: nat, x: Extent)
    requires lo <= hi <= |image| && x.start <= x.end <= |image[lo..hi]|
    ensures Placed(FileOf(sig, image[lo..hi], x), lo) == FileOf(sig, image, Extent(lo + x.start, lo + x.end))
    ensures LongEnough(sig, x) <==> LongEnough(sig, Extent(lo + x.start, lo + x.end))
  {
    SliceOfSlice(image, lo, hi, x.start, x.end);
  }

  lemma WithinSplit(data: seq<byte>, xs: seq<Extent>)
    requires Within(xs, data) && xs != []
    ensures xs[0].start <= xs[0].end <= |data| && Within(xs[1..], data) && Within([xs[0]] + xs[1..], data)
    ensures xs == [xs[0]] + xs[1..]
  {}

  lemma WithinCons(data: seq<byte>, x: Extent, xs: seq<Extent>)
    requires x.start <= x.end <= |data| && Within(xs, data)
    ensures Within([x] + xs, data)
  {}

  lemma FilesCons(sig: Signature, data: seq<byte>, x: Extent, xs: seq<Extent>)
    requires Within([x] + xs, data) && Within(xs, data) && x.start <= x.end <= |data|
    ensures FilesOf(sig, data, [x] + xs)
         == if LongEnough(sig, x) then [FileOf(sig, data, x)] + FilesOf(sig, data, xs) else FilesOf(sig, data, xs)
  {
    assert ([x] + xs)[1..] == xs;
  }

  lemma ShiftedCons(xs: seq<Extent>, offset: nat)
    requires xs != []
    ensures Shifted(xs, offset) == [Extent(offset + xs[0].start, offset + xs[0].end)] + Shifted(xs[1..], offset)
  {}

  lemma PlacedCons(f: CarvedFile, fs: seq<CarvedFile>, base: nat)
    ensures PlacedAll([f] + fs, base) == [Placed(f, base)] + PlacedAll(fs, base)
  {}

  lemma CarvedInSlice(sig: Signature, image: seq<byte>, lo: nat, hi: nat)
    requires lo <= hi <= |image|
    ensures Within(Extents(sig, image, lo, hi), image)
    ensures PlacedAll(Carved(sig, image[lo..hi]), lo) == FilesOf(sig, image, Extents(sig, image, lo, hi))
  {
    hide Extents, FilesOf, PlacedAll, Within, Shifted;
    var data := image[lo..hi];
    ExtentsWithin(sig, data, 0, |data|);
    ExtentsInSlice(sig, image, lo, hi, 0);
    FilesInSlice(sig, image, lo, hi, Extents(sig, data, 0, |data|));
  }

  /** What the carver reports in an aligned window. */
  lemma FoundInWindowIs(sig: Signature, image: seq<byte>, w: Window)
    requires w.base == w.lo <= w.hi <= |image|
    ensures Within(Extents(sig, image, w.lo, w.hi), image)
    ensures FoundIn(image, [HeaderFooter(sig)], w) == FilesOf(sig, image, Extents(sig, image, w.lo, w.hi))
  {
    hide Extents, FilesOf, PlacedAll, FoundBy, Within, Carved;
    CarvedInSlice(sig, image, w.lo, w.hi);
    OnlyCarver(HeaderFooter(sig), image[w.lo..w.hi], w.base);
  }

  lemma OnlyCarver(c: Carver, data: seq<byte>, base: nat)
    ensures FoundBy([c], data, base) == PlacedAll(c(data), base)
  {
    assert [c][..0] == [];
    assert FoundBy([], data, base) == [];
  }

  // ---- files up to a position ----

  /** `d` is where the last of the files that end by `c` ends, or zero. */
  function Reached(xs: seq<Extent>): nat { if xs == [] then 0 else xs[|xs| - 1].end }

  lemma {:induction false} CoveredIsReached(xs: seq<Extent>, from: nat, p: nat)
    requires Ascending(xs, from) && Covered(xs, p)
    ensures p < Reached(xs)
    decreases |xs|
  {
    CoveredTail(xs, p);
    if |xs| <= 1 {
    } else {
      if Covered(xs[1..], p) {
        CoveredIsReached(xs[1..], xs[0].end, p);
      } else {
        AscendingReached(xs[1..], xs[0].end);
      }
    }
  }

  lemma {:induction false} AscendingReached(xs: seq<Extent>, from: nat)
    requires Ascending(xs, from) && xs != []
    ensures from <= Reached(xs)
    decreases |xs|
  {
    if |xs| <= 1 {
    } else {
      AscendingReached(xs[1..], xs[0].end);
    }
  }

  /** Behind the last file that ends by `c`, none ends by `c`. */
  lemma NoneBehind(sig: Signature, image: seq<byte>, c: nat, p: nat)
    requires EndOf(sig, image, p, c).Some?
    ensures p < Reached(Extents(sig, image, 0, c))
  {
    ExtentsAreSelection(sig, image, 0, c);
    hide EndOf, Extents;
    CoveredIsReached(Extents(sig, image, 0, c), 0, p);
  }

  /** Where a file ends, every file that starts before ends. */
  lemma EndsBefore(sig: Signature, image: seq<byte>, s: nat, d: nat, p: nat, e: nat)
    requires Apart(sig, image) && FileAt(sig, image, s, d) && FileAt(sig, image, p, e) && p < d
    ensures e <= d
  {
    hide OccursAt;
    assert OccursAt(image, sig.footer, d - |sig.footer|);
  }

  /** Files that start inside another end where it ends. */
  lemma EndsTogether(sig: Signature, image: seq<byte>, s: nat, d: nat, p: nat, e: nat)
    requires Apart(sig, image) && FileAt(sig, image, s, d) && FileAt(sig, image, p, e) && s <= p < d
    ensures e == d
  {
    hide OccursAt, Apart;
    EndsBefore(sig, image, s, d, p, e);
    assert OccursAt(image, sig.footer, e - |sig.footer|);
  }

  /** The position where the files up to `c0` end divides the files up to a later `c1`. */
  ghost predicate Divides(sig: Signature, image: seq<byte>, c0: nat, c1: nat, d: nat)
  {
    c0 <= c1
    && (forall p: nat :: d <= p ==> EndOf(sig, image, p, c0).None?)
    && (forall p: nat :: p < d ==> SameEnd(sig, image, p, c0, c1, d))
  }

  ghost predicate SameEnd(sig: Signature, image: seq<byte>, p: nat, c0: nat, c1: nat, d: nat)
  {
    EndOf(sig, image, p, c0) == EndOf(sig, image, p, c1)
    && (EndOf(sig, image, p, c0).Some? ==> EndOf(sig, image, p, c0).value <= d)
  }

  lemma ReachedDivides(sig: Signature, image: seq<byte>, c0: nat, c1: nat)
    requires Apart(sig, image) && c0 <= c1
    ensures Divides(sig, image, c0, c1, Reached(Extents(sig, image, 0, c0)))
  {
    hide EndOf, Apart, FileAt, Extents;
    var xs := Extents(sig, image, 0, c0);
    var d := Reached(xs);
    forall p: nat | d <= p ensures EndOf(sig, image, p, c0).None? {
      if EndOf(sig, image, p, c0).Some? { NoneBehind(sig, image, c0, p); }
    }
    forall p: nat | p < d ensures SameEnd(sig, image, p, c0, c1, d) { ReachedSameEnd(sig, image, p, c0, c1); }
  }

  /** The position reached is the end of a file, unless there is none. */
  lemma ReachedIsEnd(sig: Signature, image: seq<byte>, c: nat) returns (s: nat)
    requires Extents(sig, image, 0, c) != []
    ensures EndOf(sig, image, s, c) == Some(Reached(Extents(sig, image, 0, c)))
  {
    ExtentsAreSelection(sig, image, 0, c);
    hide EndOf, FileAt, Extents, Covered, Ascending;
    var xs := Extents(sig, image, 0, c);
    s := xs[|xs| - 1].start;
    assert IsFile(sig, image, c, xs[|xs| - 1]);
  }

  lemma ReachedSameEnd(sig: Signature, image: seq<byte>, p: nat, c0: nat, c1: nat)
    requires Apart(sig, image) && c0 <= c1 && p < Reached(Extents(sig, image, 0, c0))
    ensures SameEnd(sig, image, p, c0, c1, Reached(Extents(sig, image, 0, c0)))
  {
    hide EndOf, Apart, FileAt, Extents;
    var d := Reached(Extents(sig, image, 0, c0));
    var s := ReachedIsEnd(sig, image, c0);
    EndIff(sig, image, s, c0, d);
    var r := EndOf(sig, image, p, c1);
    if r.Some? {
      EndIff(sig, image, p, c1, r.value);
      EndsBefore(sig, image, s, d, p, r.value);
      EndIff(sig, image, p, c0, r.value);
    } else {
      NoEndEarlier(sig, image, p, c0, c1);
    }
  }

  lemma NoEndEarlier(sig: Signature, image: seq<byte>, p: nat, c0: nat, c1: nat)
    requires c0 <= c1 && EndOf(sig, image, p, c1).None?
    ensures EndOf(sig, image, p, c0).None?
  {}

  lemma {:induction false} ExtentsDivide(sig: Signature, image: seq<byte>, from: nat, c0: nat, c1: nat, d: nat)
    requires Divides(sig, image, c0, c1, d) && from <= d <= c0
    ensures Extents(sig, image, from, c1) == Extents(sig, image, from, c0) + Extents(sig, image, d, c1)
    decreases d - from
  {
    hide EndOf, FileAt;
    if from == d {
      NoExtents(sig, image, d, c0);
    } else {
      assert SameEnd(sig, image, from, c0, c1, d);
      var e := EndOf(sig, image, from, c0);
      if e.None? {
        ExtentsDivide(sig, image, from + 1, c0, c1, d);
      } else {
        EndFits(sig, image, from, c0);
        ExtentsDivide(sig, image, e.value, c0, c1, d);
      }
    }
  }

  lemma {:induction false} NoExtents(sig: Signature, image: seq<byte>, from: nat, hi: nat)
    requires forall p: nat :: from <= p ==> EndOf(sig, image, p, hi).None?
    ensures Extents(sig, image, from, hi) == []
    decreases hi - from
  {
    hide EndOf, FileAt;
    if from >= hi {
    } else {
      NoExtents(sig, image, from + 1, hi);
    }
  }

  lemma {:induction false} SkipFiles(sig: Signature, image: seq<byte>, from: nat, next: nat, hi: nat)
    requires from <= next
    requires forall p: nat :: from <= p < next ==> EndOf(sig, image, p, hi).None?
    ensures Extents(sig, image, from, hi) == Extents(sig, image, next, hi)
    decreases next
  {
    hide EndOf, FileAt;
    if from >= next {
    } else {
      SkipFiles(sig, image, from, next - 1, hi);
    }
  }

  // ---- the files of extents ----

  lemma {:induction false} FilesAre(sig: Signature, data: seq<byte>, xs: seq<Extent>, f: CarvedFile)
    requires Within(xs, data) && f in FilesOf(sig, data, xs)
    ensures exists i :: 0 <= i < |xs| && LongEnough(sig, xs[i]) && f == FileOf(sig, data, xs[i])
  {
    hide FileOf, LongEnough;
    if f in FilesOf(sig, data, xs[1..]) {
      FilesAre(sig, data, xs[1..], f);
      var i :| 0 <= i < |xs[1..]| && LongEnough(sig, xs[1..][i]) && f == FileOf(sig, data, xs[1..][i]);
      assert xs[1..][i] == xs[i + 1];
    }
  }

  lemma {:induction false} FilesHave(sig: Signature, data: seq<byte>, xs: seq<Extent>, i: nat)
    requires Within(xs, data) && i < |xs| && LongEnough(sig, xs[i])
    ensures FileOf(sig, data, xs[i]) in FilesOf(sig, data, xs)
  {
    hide FileOf, LongEnough;
    if i == 0 {
    } else {
      FilesHave(sig, data, xs[1..], i - 1);
    }
  }

  lemma DisjointCons(f: CarvedFile, fs: seq<CarvedFile>)
    requires Forward(f) && Disjoint(fs) && (fs != [] ==> f.end <= fs[0].start)
    ensures Disjoint([f] + fs)
  {
    var gs := [f] + fs;
    forall i, j | 0 <= i <= j < |gs| ensures FilesApart(gs[i], gs[j], i == j) {
      if i > 0 {
        assert FilesApart(fs[i - 1], fs[j - 1], i == j);
      } else if j > 0 {
        assert FilesApart(fs[0], fs[0], true) && FilesApart(fs[0], fs[j - 1], j == 1);
      }
    }
  }

  lemma {:induction false} FilesDisjoint(sig: Signature, data: seq<byte>, xs: seq<Extent>, from: nat)
    requires Within(xs, data) && Ascending(xs, from)
    ensures Disjoint(FilesOf(sig, data, xs))
    ensures FilesOf(sig, data, xs) != [] ==> from <= FilesOf(sig, data, xs)[0].start
    decreases |xs|
  {
    hide LongEnough;
    if xs == [] {
    } else {
      FilesDisjoint(sig, data, xs[1..], xs[0].end);
      assert [xs[0]] + xs[1..] == xs;
      FilesCons(sig, data, xs[0], xs[1..]);
      hide Disjoint;
      if LongEnough(sig, xs[0]) { DisjointCons(FileOf(sig, data, xs[0]), FilesOf(sig, data, xs[1..])); }
    }
  }

  /** The files a carver finds up to `c`, from position `from`. */
  function Upto(sig: Signature, image: seq<byte>, from: nat, c: nat): seq<CarvedFile>
  {
    ExtentsWithin(sig, image, from, c);
    FilesOf(sig, image, Extents(sig, image, from, c))
  }

  lemma UptoDisjoint(sig: Signature, image: seq<byte>, c: nat)
    ensures Disjoint(Upto(sig, image, 0, c))
  {
    ExtentsWithin(sig, image, 0, c);
    ExtentsAreSelection(sig, image, 0, c);
    hide Extents;
    FilesDisjoint(sig, image, Extents(sig, image, 0, c), 0);
  }

  /** A window that begins inside a file may find a shorter file that ends with it.
      It starts before the end of the last file kept, so it is dropped. */
  lemma FoundAgain(sig: Signature, image: seq<byte>, b: nat, c0: nat, f: CarvedFile)
    requires Apart(sig, image) && f in Upto(sig, image, b, c0)
    ensures f.start < LastEnd(Upto(sig, image, 0, c0))
  {
    hide Apart, FileAt, EndOf, Extents, FilesOf, LongEnough;
    var xs := Extents(sig, image, b, c0);
    ExtentsWithin(sig, image, b, c0);
    ExtentsAreSelection(sig, image, b, c0);
    FilesAre(sig, image, xs, f);
    var i :| 0 <= i < |xs| && LongEnough(sig, xs[i]) && f == FileOf(sig, image, xs[i]);
    assert IsFile(sig, image, c0, xs[i]);
    LongFileIsKept(sig, image, c0, xs[i]);
  }

  /** A file lies in one of the extents, and ends with it. */
  lemma CoveringExtent(sig: Signature, image: seq<byte>, c: nat, x: Extent) returns (i: nat)
    requires Apart(sig, image) && EndOf(sig, image, x.start, c) == Some(x.end)
    ensures i < |Extents(sig, image, 0, c)|
    ensures Extents(sig, image, 0, c)[i].start <= x.start < x.end == Extents(sig, image, 0, c)[i].end
  {
    hide Apart, FileAt, EndOf, Extents, Selection;
    var xs := Extents(sig, image, 0, c);
    ExtentsAreSelection(sig, image, 0, c);
    SelectionCovers(sig, image, 0, c, xs, x.start);
    i :| 0 <= i < |xs| && xs[i].start <= x.start < xs[i].end;
    SelectionHolds(sig, image, 0, c, xs, i);
    EndsWithExtent(sig, image, c, x, xs[i]);
  }

  lemma SelectionCovers(sig: Signature, data: seq<byte>, from: nat, hi: nat, xs: seq<Extent>, p: nat)
    requires Selection(sig, data, from, hi, xs) && from <= p && EndOf(sig, data, p, hi).Some?
    ensures Covered(xs, p)
  {
    hide EndOf, Covered;
  }

  lemma SelectionHolds(sig: Signature, data: seq<byte>, from: nat, hi: nat, xs: seq<Extent>, i: nat)
    requires Selection(sig, data, from, hi, xs) && i < |xs|
    ensures IsFile(sig, data, hi, xs[i])
  {
    hide IsFile, Covered;
  }

  lemma EndsWithExtent(sig: Signature, image: seq<byte>, c: nat, x: Extent, y: Extent)
    requires Apart(sig, image) && EndOf(sig, image, x.start, c) == Some(x.end) && IsFile(sig, image, c, y)
    requires y.start <= x.start < y.end
    ensures x.start < x.end == y.end
  {
    hide Apart, FileAt, EndOf;
    EndIff(sig, image, x.start, c, x.end);
    EndIff(sig, image, y.start, c, y.end);
    EndsTogether(sig, image, y.start, y.end, x.start, x.end);
  }

  lemma LongFileIsKept(sig: Signature, image: seq<byte>, c: nat, x: Extent)
    requires Apart(sig, image) && EndOf(sig, image, x.start, c) == Some(x.end) && LongEnough(sig, x)
    ensures x.start < LastEnd(Upto(sig, image, 0, c))
  {
    hide Apart, FileAt, EndOf, Extents, FilesOf, Disjoint;
    var i := CoveringExtent(sig, image, c, x);
    ExtentsWithin(sig, image, 0, c);
    FilesHave(sig, image, Extents(sig, image, 0, c), i);
    UptoDisjoint(sig, image, c);
    EndsByLast(Upto(sig, image, 0, c), FileOf(sig, image, Extents(sig, image, 0, c)[i]));
  }

  // ---- one window ----

  ghost predicate LongFileAt(sig: Signature, image: seq<byte>, p: nat, e: nat)
  {
    FileAt(sig, image, p, e) && LongEnough(sig, Extent(p, e))
  }

  /** No file long enough to be reported straddles the beginning `b` of the next window: it ends by `c0` if it ends by
      `c1`. */
  ghost predicate NoneStraddles(sig: Signature, image: seq<byte>, b: nat, c0: nat, c1: nat)
  {
    forall p: nat, e: nat :: LongFileAt(sig, image, p, e) && p < b && e <= c1 ==> e <= c0
  }

  lemma UptoSkips(sig: Signature, image: seq<byte>, p: nat, c: nat)
    requires EndOf(sig, image, p, c).None?
    ensures Upto(sig, image, p, c) == Upto(sig, image, p + 1, c)
  {
    hide EndOf, FilesOf;
    ExtentsWithin(sig, image, p, c);
    ExtentsWithin(sig, image, p + 1, c);
    if p >= c { assert Extents(sig, image, p, c) == Extents(sig, image, p + 1, c) == []; }
  }

  lemma UptoOmits(sig: Signature, image: seq<byte>, p: nat, e: nat, c: nat)
    requires EndOf(sig, image, p, c) == Some(e) && !LongEnough(sig, Extent(p, e))
    ensures Upto(sig, image, p, c) == Upto(sig, image, e, c)
  {
    EndFits(sig, image, p, c);
    ExtentsWithin(sig, image, p, c);
    ExtentsWithin(sig, image, e, c);
    ExtentsTake(sig, image, p, e, c);
    hide EndOf, FilesOf, Extents, Within;
    FilesOmit(sig, image, Extent(p, e), Extents(sig, image, e, c));
  }

  lemma ExtentsTake(sig: Signature, image: seq<byte>, p: nat, e: nat, c: nat)
    requires p < c && EndOf(sig, image, p, c) == Some(e)
    ensures Extents(sig, image, p, c) == [Extent(p, e)] + Extents(sig, image, e, c)
  {
    hide EndOf;
  }

  lemma FilesOmit(sig: Signature, data: seq<byte>, x: Extent, xs: seq<Extent>)
    requires Within([x] + xs, data) && Within(xs, data) && !LongEnough(sig, x)
    ensures FilesOf(sig, data, [x] + xs) == FilesOf(sig, data, xs)
  {
    assert ([x] + xs)[0] == x;
    FilesCons(sig, data, x, xs);
  }

  /** Inside a file too short to be reported, nothing is reported. */
  lemma {:induction false} SkipInside(sig: Signature, image: seq<byte>, s: nat, e: nat, q: nat, c: nat)
    requires Apart(sig, image) && EndOf(sig, image, s, c) == Some(e) && !LongEnough(sig, Extent(s, e)) && s <= q <= e
    ensures Upto(sig, image, q, c) == Upto(sig, image, e, c)
    decreases e - q
  {
    hide Apart, FileAt, EndOf, Upto;
    if q >= e {
    } else {
      var r := EndOf(sig, image, q, c);
      if r.None? {
        UptoSkips(sig, image, q, c);
        SkipInside(sig, image, s, e, q + 1, c);
      } else {
        EndIff(sig, image, q, c, r.value);
        EndIff(sig, image, s, c, e);
        EndsTogether(sig, image, s, e, q, r.value);
        UptoOmits(sig, image, q, e, c);
      }
    }
  }

  lemma StraddlerIsShort(sig: Signature, image: seq<byte>, p: nat, e: nat, b: nat, c0: nat, c1: nat)
    requires NoneStraddles(sig, image, b, c0, c1) && p < b
    requires EndOf(sig, image, p, c0).None? && EndOf(sig, image, p, c1) == Some(e)
    ensures !LongEnough(sig, Extent(p, e))
  {
    hide FileAt, EndOf;
    EndIff(sig, image, p, c1, e);
    EndIff(sig, image, p, c0, e);
    var long := LongFileAt(sig, image, p, e);
  }

  /** When nothing reported straddles `b`, files are the same from `b` as from any position behind the files up to
      `c0`. */
  lemma {:induction false} SkipToWindow(sig: Signature, image: seq<byte>, from: nat, b: nat, c0: nat, c1: nat)
    requires Apart(sig, image) && NoneStraddles(sig, image, b, c0, c1) && from <= b <= c0
    requires forall p: nat :: from <= p ==> EndOf(sig, image, p, c0).None?
    ensures Upto(sig, image, from, c1) == Upto(sig, image, b, c1)
    decreases b - from
  {
    hide Apart, FileAt, EndOf, Upto;
    if from >= b {
    } else {
      var r := EndOf(sig, image, from, c1);
      if r.None? {
        UptoSkips(sig, image, from, c1);
        SkipToWindow(sig, image, from + 1, b, c0, c1);
      } else {
        StraddlerIsShort(sig, image, from, r.value, b, c0, c1);
        UptoOmits(sig, image, from, r.value, c1);
        SkipInside(sig, image, from, r.value, b, c1);
      }
    }
  }

  lemma ReachedBy(sig: Signature, image: seq<byte>, c: nat)
    ensures Reached(Extents(sig, image, 0, c)) <= c
  {
    hide Extents, FileAt;
    if Extents(sig, image, 0, c) != [] {
      var s := ReachedIsEnd(sig, image, c);
      EndFits(sig, image, s, c);
    }
  }

  /** The files up to `c1` are those up to `c0` and those that follow them. */
  lemma UptoDivides(sig: Signature, image: seq<byte>, from: nat, c0: nat, c1: nat)
    requires Apart(sig, image) && c0 <= c1 && from <= Reached(Extents(sig, image, 0, c0))
    ensures Upto(sig, image, from, c1)
         == Upto(sig, image, from, c0) + Upto(sig, image, Reached(Extents(sig, image, 0, c0)), c1)
  {
    hide Apart, Extents, EndOf, FileAt, FilesOf, Within;
    var d := Reached(Extents(sig, image, 0, c0));
    ReachedDivides(sig, image, c0, c1);
    ReachedBy(sig, image, c0);
    ExtentsDivide(sig, image, from, c0, c1, d);
    ExtentsWithin(sig, image, from, c0);
    ExtentsWithin(sig, image, from, c1);
    ExtentsWithin(sig, image, d, c1);
    FilesOfConcat(sig, image, Extents(sig, image, from, c0), Extents(sig, image, d, c1));
  }

  /** One window turns the files up to the bytes read into the files up to the bytes read next. */
  lemma WindowStep(sig: Signature, image: seq<byte>, b: nat, c0: nat, c1: nat)
    requires Apart(sig, image) && NoneStraddles(sig, image, b, c0, c1) && b <= c0 <= c1
    ensures Merge(Upto(sig, image, 0, c0), Upto(sig, image, b, c1)) == Upto(sig, image, 0, c1)
  {
    hide Apart, NoneStraddles, Extents, EndOf, FileAt, Merge, Upto;
    var d := Reached(Extents(sig, image, 0, c0));
    var kept, more := Upto(sig, image, 0, c0), Upto(sig, image, d, c1);
    UptoDivides(sig, image, 0, c0, c1);
    UptoDisjoint(sig, image, c1);
    MergeKeepsAll(kept, more);
    if b <= d {
      var again := Upto(sig, image, b, c0);
      UptoDivides(sig, image, b, c0, c1);
      forall f | f in again ensures f.start < LastEnd(kept) { FoundAgain(sig, image, b, c0, f); }
      MergeDropsAll(kept, again);
      MergeConcat(kept, again, more);
    } else {
      NoneFrom(sig, image, c0);
      SkipToWindow(sig, image, d, b, c0, c1);
    }
  }

  lemma NoneFrom(sig: Signature, image: seq<byte>, c: nat)
    ensures forall p: nat :: Reached(Extents(sig, image, 0, c)) <= p ==> EndOf(sig, image, p, c).None?
  {
    hide Extents, EndOf;
    forall p: nat | Reached(Extents(sig, image, 0, c)) <= p ensures EndOf(sig, image, p, c).None? {
      if EndOf(sig, image, p, c).Some? { NoneBehind(sig, image, c, p); }
    }
  }

  // ---- the whole scan ----

  ghost predicate HeldBySome(ws: seq<Window>, p: nat, e: nat) { exists w :: w in ws && Holds(w, p, e) }

  /** Every file long enough to be reported that ends behind `cursor` lies in one of the windows. */
  ghost predicate AllHeld(sig: Signature, image: seq<byte>, ws: seq<Window>, cursor: nat)
  {
    forall p: nat, e: nat :: LongFileAt(sig, image, p, e) ==> e <= cursor || HeldBySome(ws, p, e)
  }

  lemma {:induction false} WindowsBeginFrom(size: nat, chunk: nat, overlap: nat, cursor: nat)
    requires overlap > 0
    ensures forall w :: w in Windows(size, chunk, overlap, cursor) ==> Base(cursor, overlap) <= w.lo
    decreases size - cursor
  {
    if cursor < size && chunk > 0 { WindowsBeginFrom(size, chunk, overlap, Min(cursor + chunk, size)); }
  }

  lemma HeldStep(sig: Signature, image: seq<byte>, chunk: nat, overlap: nat, cursor: nat)
    requires cursor < |image| && chunk > 0 && overlap > 0
    requires AllHeld(sig, image, Windows(|image|, chunk, overlap, cursor), cursor)
    ensures var next := Min(cursor + chunk, |image|);
      AllHeld(sig, image, Windows(|image|, chunk, overlap, next), next)
      && NoneStraddles(sig, image, Base(cursor, overlap), cursor, next)
  {
    hide LongFileAt, Base;
    var ws, next := Windows(|image|, chunk, overlap, cursor), Min(cursor + chunk, |image|);
    var rest := Windows(|image|, chunk, overlap, next);
    WindowsBeginFrom(|image|, chunk, overlap, cursor);
    assert ws == [WindowAt(|image|, chunk, overlap, cursor)] + rest;
    forall p: nat, e: nat | LongFileAt(sig, image, p, e) ensures e <= next || HeldBySome(rest, p, e) {
      if e > cursor {
        var w :| w in ws && Holds(w, p, e);
        if w in rest { assert HeldBySome(rest, p, e); }
      }
    }
  }

  lemma {:induction false} ScanFrom(sig: Signature, image: seq<byte>, chunk: nat, overlap: nat, cursor: nat)
    requires Apart(sig, image) && chunk > 0 && overlap > 0 && cursor <= |image|
    requires InImage(Windows(|image|, chunk, overlap, cursor), |image|)
    requires AllHeld(sig, image, Windows(|image|, chunk, overlap, cursor), cursor)
    ensures Merge(Upto(sig, image, 0, cursor),
      FoundInAll(image, [HeaderFooter(sig)], Windows(|image|, chunk, overlap, cursor)))
         == Upto(sig, image, 0, |image|)
    decreases |image| - cursor
  {
    hide Apart, AllHeld, NoneStraddles, Upto, FoundIn, HeaderFooter, Base;
    var carvers := [HeaderFooter(sig)];
    if cursor >= |image| {
    } else {
      HeldStep(sig, image, chunk, overlap, cursor);
      var w := WindowAt(|image|, chunk, overlap, cursor);
      var rest := Windows(|image|, chunk, overlap, w.hi);
      assert ([w] + rest)[1..] == rest && ([w] + rest)[0] == w;
      WindowsInImage(|image|, chunk, overlap, w.hi);
      BaseIsBehind(cursor, overlap);
      hide Merge, Windows;
      ScanFrom(sig, image, chunk, overlap, w.hi);
      WindowFound(sig, image, w);
      WindowStep(sig, image, w.lo, cursor, w.hi);
      MergeConcat(Upto(sig, image, 0, cursor), FoundIn(image, carvers, w), FoundInAll(image, carvers, rest));
    }
  }

  lemma BaseIsBehind(cursor: nat, overlap: nat)
    ensures Base(cursor, overlap) <= cursor
  {}

  lemma WindowFound(sig: Signature, image: seq<byte>, w: Window)
    requires w.base == w.lo <= w.hi <= |image|
    ensures FoundIn(image, [HeaderFooter(sig)], w) == Upto(sig, image, w.lo, w.hi)
  {
    FoundInWindowIs(sig, image, w);
    hide FoundIn, FilesOf, Extents;
  }

  /** Scanning in windows gives exactly the files one pass over the whole image gives, the same bytes at the same
      offsets, each once, when every file long enough to be reported lies in some window. */
  lemma HeldIsFound(sig: Signature, image: seq<byte>, chunk: nat, overlap: nat)
    requires chunk > 0 && overlap > 0 && Apart(sig, image)
    requires AllHeld(sig, image, Windows(|image|, chunk, overlap, 0), 0)
    ensures Scanned(image, [HeaderFooter(sig)], chunk, overlap) == Carved(sig, image)
  {
    WindowsInImage(|image|, chunk, overlap, 0);
    assert Extents(sig, image, 0, 0) == [];
    hide Extents, Windows, FoundInAll, Apart, AllHeld, Merge;
    ScanFrom(sig, image, chunk, overlap, 0);
  }

  /** So it does when no file is longer than the overlap and one byte, whatever the chunk size. */
  lemma StreamingIsWhole(sig: Signature, image: seq<byte>, chunk: nat, overlap: nat)
    requires chunk > 0 && overlap > 0 && Apart(sig, image) && Fits(sig, image, overlap + 1)
    ensures Scanned(image, [HeaderFooter(sig)], chunk, overlap) == Carved(sig, image)
  {
    hide Apart, Carved, Scanned, Windows, Holds;
    var ws := Windows(|image|, chunk, overlap, 0);
    forall p: nat, e: nat | LongFileAt(sig, image, p, e) ensures HeldBySome(ws, p, e) {
      EndIff(sig, image, p, |image|, e);
      WindowHolds(|image|, chunk, overlap, 0, p, e);
    }
    HeldIsFound(sig, image, chunk, overlap);
  }

  /** An overlap of the search limit and the footer, less one byte, is enough for every image. */
  lemma EnoughOverlap(sig: Signature, image: seq<byte>, overlap: nat)
    requires sig.lookback + |sig.footer| <= overlap + 1
    ensures Fits(sig, image, overlap + 1)
  {}
}
