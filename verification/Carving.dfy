/** Header/footer carving: a file is a header followed by the first footer after it. */
module Carving {
  import opened RawImage

  /** `lookback` is how far behind the start of the header the footer may begin. */
  datatype Format = Format(name: string, extension: string, header: seq<byte>, footer: seq<byte>, minSize: nat,
                           lookback: nat)

  type Signature = f: Format | f.header != [] && f.footer != []
    witness Format("", "", [0], [0], 0, 0)

  const JPEG: Signature := Format("JPEG", "jpg", [0xFF, 0xD8, 0xFF], [0xFF, 0xD9], 128, 4 * 1024 * 1024)

  const PNG: Signature := Format("PNG", "png", [0x89, 0x50, 0x4E, 0x47, 0x0D, 0x0A, 0x1A, 0x0A],
                                 [0, 0, 0, 0, 0x49, 0x45, 0x4E, 0x44, 0xAE, 0x42, 0x60, 0x82], 67, 8 * 1024 * 1024)

  datatype CarvedFile = CarvedFile(data: seq<byte>, start: nat, end: nat, name: string, extension: string)

  /** The bytes `start..end` of a buffer. */
  datatype Extent = Extent(start: nat, end: nat)

  predicate OccursAt(data: seq<byte>, pattern: seq<byte>, p: nat)
  {
    p + |pattern| <= |data| && data[p..p + |pattern|] == pattern
  }

  /** `bytes.find`: the first occurrence at or after `from`. */
  function Find(data: seq<byte>, pattern: seq<byte>, from: nat): (r: Option<nat>)
    ensures r.Some? ==> from <= r.value
    ensures forall p: nat :: from <= p && (r.None? || p <= r.value) ==> (OccursAt(data, pattern, p) <==> r == Some(p))
    decreases |data| - from
  {
    if from + |pattern| > |data| then None
    else if OccursAt(data, pattern, from) then Some(from)
    else Find(data, pattern, from + 1)
  }

  /** A file starts at `p` and ends at `e`: its header is there, and its footer is the first one behind the
      header and begins within the search limit. */
  ghost predicate FileAt(sig: Signature, data: seq<byte>, p: nat, e: nat)
  {
    OccursAt(data, sig.header, p)
    && p + |sig.header| + |sig.footer| <= e <= p + sig.lookback + |sig.footer|
    && OccursAt(data, sig.footer, e - |sig.footer|)
    && forall q :: p + |sig.header| <= q < e - |sig.footer| ==> !OccursAt(data, sig.footer, q)
  }

  /** Where the file that starts at `p` ends, if one starts there and `hi` does not cut it short. */
  function EndOf(sig: Signature, data: seq<byte>, p: nat, hi: nat): (r: Option<nat>)
    ensures forall e: nat :: r == Some(e) <==> FileAt(sig, data, p, e) && e <= hi
  {
    if !OccursAt(data, sig.header, p) then None else
    var f := Find(data, sig.footer, p + |sig.header|);
    if f.None? || f.value > p + sig.lookback || f.value + |sig.footer| > hi then None
    else Some(f.value + |sig.footer|)
  }

  lemma OneEnd(sig: Signature, data: seq<byte>, p: nat, e: nat, e': nat)
    requires FileAt(sig, data, p, e) && FileAt(sig, data, p, e')
    ensures e == e'
  {}

  /** Position by position: take the file that starts here, go on behind it. */
  function Extents(sig: Signature, data: seq<byte>, from: nat, hi: nat): (r: seq<Extent>)
    decreases hi - from
  {
    if from >= hi then [] else
    var e := EndOf(sig, data, from, hi);
    if e.None? then Extents(sig, data, from + 1, hi)
    else [Extent(from, e.value)] + Extents(sig, data, e.value, hi)
  }

  function FileOf(sig: Signature, data: seq<byte>, x: Extent): CarvedFile
    requires x.start <= x.end <= |data|
  {
    CarvedFile(data[x.start..x.end], x.start, x.end, sig.name, sig.extension)
  }

  predicate LongEnough(sig: Signature, x: Extent) { x.end - x.start >= sig.minSize }

  ghost predicate Within(xs: seq<Extent>, data: seq<byte>)
  {
    forall i :: 0 <= i < |xs| ==> xs[i].start <= xs[i].end <= |data|
  }

  /** The files of the extents that are long enough. */
  function FilesOf(sig: Signature, data: seq<byte>, xs: seq<Extent>): seq<CarvedFile>
    requires Within(xs, data)
  {
    if xs == [] then []
    else (if LongEnough(sig, xs[0]) then [FileOf(sig, data, xs[0])] else []) + FilesOf(sig, data, xs[1..])
  }

  lemma {:induction false} FilesOfConcat(sig: Signature, data: seq<byte>, xs: seq<Extent>, ys: seq<Extent>)
    requires Within(xs, data) && Within(ys, data)
    ensures Within(xs + ys, data) && FilesOf(sig, data, xs + ys) == FilesOf(sig, data, xs) + FilesOf(sig, data, ys)
  {
    hide FileOf, LongEnough;
    if xs == [] {
      assert xs + ys == ys;
    } else {
      var first := if LongEnough(sig, xs[0]) then [FileOf(sig, data, xs[0])] else [];
      FilesOfConcat(sig, data, xs[1..], ys);
      assert (xs + ys)[1..] == xs[1..] + ys && (xs + ys)[0] == xs[0];
      ConcatAssoc(first, FilesOf(sig, data, xs[1..]), FilesOf(sig, data, ys));
    }
  }

  lemma FilesOfOne(sig: Signature, data: seq<byte>, x: Extent)
    requires x.start <= x.end <= |data| && LongEnough(sig, x)
    ensures Within([x], data) && FilesOf(sig, data, [x]) == [FileOf(sig, data, x)]
  {
    assert [x][1..] == [];
    assert FilesOf(sig, data, []) == [];
  }

  lemma {:induction false} ExtentsWithin(sig: Signature, data: seq<byte>, from: nat, hi: nat)
    ensures Within(Extents(sig, data, from, hi), data)
    decreases hi - from
  {
    hide FileAt, OccursAt;
    if from >= hi {
    } else {
      var e := EndOf(sig, data, from, hi);
      if e.None? {
        ExtentsWithin(sig, data, from + 1, hi);
      } else {
        FileIsInside(sig, data, from, e.value);
        ExtentsWithin(sig, data, e.value, hi);
      }
    }
  }

  lemma FileIsInside(sig: Signature, data: seq<byte>, p: nat, e: nat)
    ensures FileAt(sig, data, p, e) ==> p < p + |sig.header| < e <= |data|
  {}

  /** What carving a buffer gives. */
  function Carved(sig: Signature, data: seq<byte>): seq<CarvedFile>
  {
    ExtentsWithin(sig, data, 0, |data|);
    FilesOf(sig, data, Extents(sig, data, 0, |data|))
  }

  // ---- the carver's loop ----

  /** Positions without a header are passed over. */
  lemma {:induction false} SkipTo(sig: Signature, data: seq<byte>, from: nat, next: nat, hi: nat)
    requires from <= next
    requires forall p :: from <= p < next ==> !OccursAt(data, sig.header, p)
    ensures Extents(sig, data, from, hi) == Extents(sig, data, next, hi)
    decreases next
  {
    hide OccursAt;
    if from >= next {
    } else {
      SkipTo(sig, data, from, next - 1, hi);
    }
  }

  ghost predicate CarveState(sig: Signature, data: seq<byte>, offset: nat, results: seq<CarvedFile>)
  {
    Within(Extents(sig, data, offset, |data|), data)
    && Carved(sig, data) == results + FilesOf(sig, data, Extents(sig, data, offset, |data|))
  }

  lemma CarveStart(sig: Signature, data: seq<byte>)
    ensures CarveState(sig, data, 0, [])
  {
    ExtentsWithin(sig, data, 0, |data|);
    hide *;
  }

  lemma CarveSkip(sig: Signature, data: seq<byte>, offset: nat, start: nat, results: seq<CarvedFile>)
    requires CarveState(sig, data, offset, results) && offset <= start
    requires forall p :: offset <= p < start ==> !OccursAt(data, sig.header, p)
    ensures CarveState(sig, data, start, results)
  {
    SkipTo(sig, data, offset, start, |data|);
    hide Carved, OccursAt, Extents, FilesOf, Within;
  }

  lemma CarveNone(sig: Signature, data: seq<byte>, start: nat, results: seq<CarvedFile>)
    requires CarveState(sig, data, start, results) && start < |data| && EndOf(sig, data, start, |data|).None?
    ensures CarveState(sig, data, start + 1, results)
  {
    hide Carved, EndOf, FilesOf, Within;
  }

  lemma CarveOne(sig: Signature, data: seq<byte>, start: nat, e: nat, results: seq<CarvedFile>)
    requires CarveState(sig, data, start, results) && start < |data| && EndOf(sig, data, start, |data|) == Some(e)
    ensures start <= e <= |data|
    ensures var more := if LongEnough(sig, Extent(start, e)) then [FileOf(sig, data, Extent(start, e))] else [];
      CarveState(sig, data, e, results + more)
  {
    FileIsInside(sig, data, start, e);
    ExtentsWithin(sig, data, e, |data|);
    hide Carved, EndOf, FileAt, LongEnough, FileOf, Within;
    var rest := Extents(sig, data, e, |data|);
    assert ([Extent(start, e)] + rest)[1..] == rest;
  }

  lemma CarveEnd(sig: Signature, data: seq<byte>, offset: nat, results: seq<CarvedFile>)
    requires CarveState(sig, data, offset, results)
    requires offset >= |data| || forall p :: offset <= p ==> !OccursAt(data, sig.header, p)
    ensures results == Carved(sig, data)
  {
    if offset < |data| { SkipTo(sig, data, offset, |data|, |data|); }
    hide Carved, OccursAt;
  }

  /** `JPEGCarver.carve`, for the given signature and search limit. */
  method Carve(sig: Signature, data: seq<byte>) returns (results: seq<CarvedFile>)
    ensures results == Carved(sig, data)
  {
    hide *;
    results := [];
    var offset := 0;
    CarveStart(sig, data);
    while offset < |data|
      invariant CarveState(sig, data, offset, results)
      decreases |data| - offset
    {
      var found := Find(data, sig.header, offset);
      if found.None? {
        CarveEnd(sig, data, offset, results);
        return;
      }
      var start := found.value;
      CarveSkip(sig, data, offset, start, results);
      var searchLimit := start + sig.lookback;
      var end := Find(data, sig.footer, start + |sig.header|);
      EndFound(sig, data, start);
      if end.None? || end.value > searchLimit {
        offset := start + 1;
        CarveNone(sig, data, start, results);
        continue;
      }
      var e := end.value + |sig.footer|;
      CarveOne(sig, data, start, e, results);
      CarveKeep(sig, data, start, e, results);
      var fileData := data[start..e];
      if |fileData| >= sig.minSize {
        results := results + [CarvedFile(fileData, start, e, sig.name, sig.extension)];
      }
      offset := e;
    }
    CarveEnd(sig, data, offset, results);
  }

  /** What a failed and what a successful search for the footer mean. */
  lemma EndFound(sig: Signature, data: seq<byte>, start: nat)
    requires OccursAt(data, sig.header, start)
    ensures start < |data|
    ensures var f := Find(data, sig.footer, start + |sig.header|);
      EndOf(sig, data, start, |data|)
      == if f.None? || f.value > start + sig.lookback then None else Some(f.value + |sig.footer|)
  {
    hide Find, FileAt;
  }

  lemma CarveKeep(sig: Signature, data: seq<byte>, start: nat, e: nat, results: seq<CarvedFile>)
    requires start <= e <= |data|
    ensures results + (if LongEnough(sig, Extent(start, e)) then [FileOf(sig, data, Extent(start, e))] else [])
         == if |data[start..e]| >= sig.minSize
            then results + [CarvedFile(data[start..e], start, e, sig.name, sig.extension)]
            else results
  {}

  // ---- what carving means ----

  ghost predicate Covered(xs: seq<Extent>, p: nat)
  {
    exists i :: 0 <= i < |xs| && xs[i].start <= p < xs[i].end
  }

  ghost predicate Ascending(xs: seq<Extent>, from: nat)
  {
    xs == [] || (from <= xs[0].start <= xs[0].end && Ascending(xs[1..], xs[0].end))
  }

  /** Files that do not overlap, in ascending order, among which every file of the buffer starts. */
  ghost predicate Selection(sig: Signature, data: seq<byte>, from: nat, hi: nat, xs: seq<Extent>)
  {
    Ascending(xs, from)
    && (forall i :: 0 <= i < |xs| ==> IsFile(sig, data, hi, xs[i]))
    && (forall p :: from <= p && EndOf(sig, data, p, hi).Some? ==> Covered(xs, p))
  }

  ghost predicate IsFile(sig: Signature, data: seq<byte>, hi: nat, x: Extent)
  {
    EndOf(sig, data, x.start, hi) == Some(x.end)
  }

  lemma CoveredTail(xs: seq<Extent>, p: nat)
    requires xs != []
    ensures Covered(xs, p) <==> xs[0].start <= p < xs[0].end || Covered(xs[1..], p)
  {
    if Covered(xs, p) {
      var i :| 0 <= i < |xs| && xs[i].start <= p < xs[i].end;
      if i > 0 { assert xs[1..][i - 1] == xs[i]; }
    }
  }

  lemma {:induction false} AscendingAbove(xs: seq<Extent>, from: nat, p: nat)
    requires Ascending(xs, from) && Covered(xs, p)
    ensures from <= p
  {
    CoveredTail(xs, p);
    if !(xs[0].start <= p < xs[0].end) { AscendingAbove(xs[1..], xs[0].end, p); }
  }

  lemma {:induction false} ExtentsAreSelection(sig: Signature, data: seq<byte>, from: nat, hi: nat)
    ensures Selection(sig, data, from, hi, Extents(sig, data, from, hi))
    decreases hi - from
  {
    var xs := Extents(sig, data, from, hi);
    hide EndOf, FileAt, Covered;
    if from >= hi {
      forall p | from <= p ensures EndOf(sig, data, p, hi).None? { NoFileBehind(sig, data, p, hi); }
    } else {
      var e := EndOf(sig, data, from, hi);
      if e.None? {
        ExtentsAreSelection(sig, data, from + 1, hi);
        AscendingFrom(xs, from, from + 1);
      } else {
        EndFits(sig, data, from, hi);
        ExtentsAreSelection(sig, data, e.value, hi);
        assert xs[1..] == Extents(sig, data, e.value, hi);
        SelectionCons(sig, data, from, hi, xs);
      }
    }
  }

  lemma EndFits(sig: Signature, data: seq<byte>, p: nat, hi: nat)
    requires EndOf(sig, data, p, hi).Some?
    ensures p < EndOf(sig, data, p, hi).value <= hi
  {}

  lemma NoFileBehind(sig: Signature, data: seq<byte>, p: nat, hi: nat)
    ensures hi <= p ==> EndOf(sig, data, p, hi).None?
  {}

  lemma AscendingFrom(xs: seq<Extent>, from: nat, above: nat)
    ensures Ascending(xs, above) && from <= above ==> Ascending(xs, from)
  {}

  lemma SelectionCons(sig: Signature, data: seq<byte>, from: nat, hi: nat, xs: seq<Extent>)
    requires xs != [] && xs[0].start == from && from < xs[0].end && EndOf(sig, data, from, hi) == Some(xs[0].end)
    requires Selection(sig, data, xs[0].end, hi, xs[1..])
    ensures Selection(sig, data, from, hi, xs)
  {
    hide EndOf, Covered;
    forall p | from <= p && EndOf(sig, data, p, hi).Some? ensures Covered(xs, p) { CoveredTail(xs, p); }
    forall i | 0 <= i < |xs| ensures IsFile(sig, data, hi, xs[i]) {
      if i > 0 { assert xs[i] == xs[1..][i - 1]; }
    }
  }

  /** There is only one such selection, so carving is determined without looking at its loop. */
  lemma {:induction false} SelectionIsUnique(sig: Signature, data: seq<byte>, from: nat, hi: nat, xs: seq<Extent>)
    ensures Selection(sig, data, from, hi, xs) <==> xs == Extents(sig, data, from, hi)
    decreases hi - from
  {
    ExtentsAreSelection(sig, data, from, hi);
    if Selection(sig, data, from, hi, xs) { SelectionIsExtents(sig, data, from, hi, xs); }
  }

  lemma {:induction false} SelectionIsExtents(sig: Signature, data: seq<byte>, from: nat, hi: nat, xs: seq<Extent>)
    requires Selection(sig, data, from, hi, xs)
    ensures xs == Extents(sig, data, from, hi)
    decreases hi - from
  {
    hide EndOf, Covered, FileAt;
    if xs != [] { assert IsFile(sig, data, hi, xs[0]); EndFits(sig, data, xs[0].start, hi); }
    if from >= hi {
    } else {
      if EndOf(sig, data, from, hi).None? {
        assert xs != [] ==> xs[0].start != from;
        SelectionIsExtents(sig, data, from + 1, hi, xs);
      } else {
        EndFits(sig, data, from, hi);
        SelectionStarts(sig, data, from, hi, xs);
        SelectionRest(sig, data, from, hi, xs);
        SelectionIsExtents(sig, data, xs[0].end, hi, xs[1..]);
      }
    }
  }

  lemma SelectionStarts(sig: Signature, data: seq<byte>, from: nat, hi: nat, xs: seq<Extent>)
    requires Selection(sig, data, from, hi, xs) && EndOf(sig, data, from, hi).Some?
    ensures xs != [] && xs[0] == Extent(from, EndOf(sig, data, from, hi).value)
  {
    hide EndOf;
    assert Covered(xs, from);
    CoveredTail(xs, from);
    if !(xs[0].start <= from < xs[0].end) { AscendingAbove(xs[1..], xs[0].end, from); }
    assert IsFile(sig, data, hi, xs[0]);
  }

  lemma SelectionRest(sig: Signature, data: seq<byte>, from: nat, hi: nat, xs: seq<Extent>)
    requires Selection(sig, data, from, hi, xs) && xs != []
    ensures Selection(sig, data, xs[0].end, hi, xs[1..])
  {
    hide EndOf, Covered;
    forall p | xs[0].end <= p && EndOf(sig, data, p, hi).Some? ensures Covered(xs[1..], p) {
      CoveredTail(xs, p);
    }
    forall i | 0 <= i < |xs[1..]| ensures IsFile(sig, data, hi, xs[1..][i]) {
      assert xs[i + 1] == xs[1..][i];
    }
  }

  /** Where one header and one footer occur, the file between them is all there is. */
  lemma SoleFile(sig: Signature, data: seq<byte>, p: nat, q: nat)
    requires forall r: nat :: OccursAt(data, sig.header, r) <==> r == p
    requires forall r: nat :: OccursAt(data, sig.footer, r) <==> r == q
    requires p + |sig.header| <= q <= p + sig.lookback
    ensures q + |sig.footer| <= |data| && Extents(sig, data, 0, |data|) == [Extent(p, q + |sig.footer|)]
  {
    hide OccursAt;
    var e := q + |sig.footer|;
    FooterFits(data, sig.footer, q);
    forall r: nat ensures EndOf(sig, data, r, |data|) == if r == p then Some(e) else None {
      SoleEnd(sig, data, p, q, r);
    }
    var xs := [Extent(p, e)];
    hide EndOf, FileAt;
    assert xs[1..] == [] && xs[0].start <= p < xs[0].end;
    assert Covered(xs, p) && Ascending(xs[1..], e) && Ascending(xs, 0) && IsFile(sig, data, |data|, xs[0]);
    SelectionIsUnique(sig, data, 0, |data|, xs);
  }

  lemma FooterFits(data: seq<byte>, pattern: seq<byte>, q: nat)
    requires OccursAt(data, pattern, q)
    ensures q + |pattern| <= |data|
  {}

  lemma SoleEnd(sig: Signature, data: seq<byte>, p: nat, q: nat, r: nat)
    requires forall r: nat :: OccursAt(data, sig.header, r) <==> r == p
    requires forall r: nat :: OccursAt(data, sig.footer, r) <==> r == q
    requires p + |sig.header| <= q <= p + sig.lookback && q + |sig.footer| <= |data|
    ensures EndOf(sig, data, r, |data|) == if r == p then Some(q + |sig.footer|) else None
  {
    hide OccursAt;
    assert r == p ==> FileAt(sig, data, p, q + |sig.footer|);
  }
}
