/** Mapping pairs: the two decoders of a run list, an encoder for the format they read, and the round trip. */
module NtfsCodec {
  import opened RawImage
  import opened NtfsMapping

  // ---- shifts and bitwise or ----

  function Pow2(k: nat): (p: nat)
    ensures p > 0
  {
    if k == 0 then 1 else 2 * Pow2(k - 1)
  }

  function Pow256(n: nat): (p: nat)
    ensures p > 0
  {
    if n == 0 then 1 else 256 * Pow256(n - 1)
  }

  lemma {:induction false} Pow256IsPow2(n: nat)
    ensures Pow2(8 * n) == Pow256(n)
    ensures n > 0 ==> Pow2(8 * n - 1) == 128 * Pow256(n - 1)
  {
    if n == 0 {
    } else {
      Pow256IsPow2(n - 1);
      assert Pow2(8 * n) == 2 * Pow2(8 * n - 1);
      assert Pow2(8 * n - 1) == 2 * Pow2(8 * n - 2) == 4 * Pow2(8 * n - 3) == 8 * Pow2(8 * n - 4);
      assert Pow2(8 * n - 4) == 2 * Pow2(8 * n - 5) == 4 * Pow2(8 * n - 6) == 8 * Pow2(8 * n - 7);
      assert Pow2(8 * n - 7) == 2 * Pow2(8 * (n - 1));
    }
  }

  /** Bitwise or of a natural number and an integer in two's complement, which has no width. */
  function Or(a: nat, b: int): int
  {
    if a == 0 then b else 2 * Or(a / 2, b / 2) + if a % 2 == 1 || b % 2 == 1 then 1 else 0
  }

  /** Where the bits of the operands do not meet, or adds. */
  lemma {:induction false} OrAdds(a: nat, b: int, k: nat)
    requires a < Pow2(k)
    ensures Or(a, b * Pow2(k)) == a + b * Pow2(k)
  {
    if a == 0 {
    } else {
      Halve(b, k);
      OrAdds(a / 2, b, k - 1);
    }
  }

  lemma Halve(b: int, k: nat)
    requires k > 0
    ensures b * Pow2(k) == 2 * (b * Pow2(k - 1))
    ensures b * Pow2(k) / 2 == b * Pow2(k - 1) && b * Pow2(k) % 2 == 0
  {
    var p := b * Pow2(k - 1);
    assert b * Pow2(k) == b * (2 * Pow2(k - 1)) == 2 * p;
  }

  // ---- little-endian fields ----

  /** The `n` bytes at `pos`, least significant first, as a number. */
  function Unsigned(data: seq<byte>, pos: nat, n: nat): (v: nat)
    requires pos + n <= |data|
  {
    if n == 0 then 0 else Unsigned(data, pos, n - 1) + data[pos + n - 1] as int * Pow256(n - 1)
  }

  lemma {:induction false} UnsignedBound(data: seq<byte>, pos: nat, n: nat)
    requires pos + n <= |data|
    ensures Unsigned(data, pos, n) < Pow256(n)
  {
    if n == 0 {
    } else {
      UnsignedBound(data, pos, n - 1);
      ByteTimes(data[pos + n - 1], Pow256(n - 1));
    }
  }

  lemma ByteTimes(b: byte, p: nat)
    ensures b as int * p <= 255 * p
  {}

  /** Two's complement of `n` bytes. */
  function Signed(data: seq<byte>, pos: nat, n: nat): int
    requires pos + n <= |data|
  {
    var v := Unsigned(data, pos, n);
    if n > 0 && v >= 128 * Pow256(n - 1) then v - Pow256(n) else v
  }

  lemma OrNextByte(data: seq<byte>, pos: nat, i: nat)
    requires pos + i < |data|
    ensures Or(Unsigned(data, pos, i), data[pos + i] as int * Pow2(8 * i)) == Unsigned(data, pos, i + 1)
  {
    hide Or, Pow2, Pow256;
    UnsignedBound(data, pos, i);
    Pow256IsPow2(i);
    OrAdds(Unsigned(data, pos, i), data[pos + i] as int, 8 * i);
  }

  method ReadUnsigned(data: seq<byte>, pos: nat, n: nat) returns (v: nat)
    requires pos + n <= |data|
    ensures v == Unsigned(data, pos, n)
  {
    hide Or, Pow2;
    v := 0;
    for i := 0 to n
      invariant v == Unsigned(data, pos, i)
    {
      OrNextByte(data, pos, i);
      v := Or(v, data[pos + i] as int * Pow2(8 * i));
    }
  }

  method ReadSigned(data: seq<byte>, pos: nat, n: nat) returns (v: int)
    requires pos + n <= |data|
    ensures v == Signed(data, pos, n)
  {
    v := 0;
    if n > 0 {
      var raw := ReadUnsigned(data, pos, n);
      v := raw;
      SignBit(data, pos, n);
      if raw / Pow2(n * 8 - 1) % 2 != 0 {
        v := Or(raw, -1 - Pow2(n * 8) + 1);
      }
    }
  }

  /** The top bit says whether the field is negative, and or-ing in the sign extension subtracts 256 to the `n`. */
  lemma SignBit(data: seq<byte>, pos: nat, n: nat)
    requires 0 < n && pos + n <= |data|
    ensures var raw := Unsigned(data, pos, n);
      && (raw / Pow2(n * 8 - 1) % 2 != 0 <==> raw >= 128 * Pow256(n - 1))
      && Or(raw, -1 - Pow2(n * 8) + 1) == raw - Pow256(n)
  {
    var raw, half := Unsigned(data, pos, n), Pow2(8 * n - 1);
    UnsignedBound(data, pos, n);
    Pow256IsPow2(n);
    OrAdds(raw, -1, 8 * n);
    assert raw < 2 * half;
    if raw >= half {
      QuotientIs(raw, half, 1);
    } else {
      QuotientIs(raw, half, 0);
    }
  }

  lemma QuotientIs(a: nat, d: nat, q: nat)
    requires d > 0 && q * d <= a < (q + 1) * d
    ensures a / d == q
  {
    var k := a / d - q;
    assert a == (q + k) * d + a % d;
    assert (q + k) * d == q * d + k * d && (q + 1) * d == q * d + d;
    MultipleAtLeast(k, d);
  }

  lemma MultipleAtLeast(k: int, d: nat)
    ensures k >= 1 ==> k * d >= d
    ensures k <= -1 ==> k * d + d <= 0
  {}

  // ---- the two decoders ----

  function CountBytes(header: byte): nat { header as int % 16 }

  function OffsetBytes(header: byte): nat { header as int / 16 % 16 }

  /** A whole, non-terminating entry starts at `pos`. */
  predicate EntryAt(data: seq<byte>, pos: nat)
  {
    pos < |data| && data[pos] != 0 && pos + 1 + CountBytes(data[pos]) + OffsetBytes(data[pos]) <= |data|
  }

  function NextEntry(data: seq<byte>, pos: nat): nat
    requires EntryAt(data, pos)
  {
    pos + 1 + CountBytes(data[pos]) + OffsetBytes(data[pos])
  }

  /** `decode_runlist_entry`: one entry, its relative offset standing in for a position. */
  function Decoded(data: seq<byte>, pos: nat): DataRun
    requires EntryAt(data, pos)
  {
    var (nc, no) := (CountBytes(data[pos]), OffsetBytes(data[pos]));
    var offset := Signed(data, pos + 1 + nc, no);
    DataRun(0, 0, offset, Unsigned(data, pos + 1, nc), offset == 0 && no == 0, offset)
  }

  method DecodeRunlistEntry(data: seq<byte>, pos: nat) returns (run: Option<DataRun>, nextPos: nat)
    ensures run == if EntryAt(data, pos) then Some(Decoded(data, pos)) else None
    ensures nextPos == if EntryAt(data, pos) then NextEntry(data, pos) else pos
  {
    if pos >= |data| {
      return None, pos;
    }
    var headerByte := data[pos];
    if headerByte == 0 {
      return None, pos;
    }
    var countBytes := headerByte as int % 16;
    var offsetBytes := headerByte as int / 16 % 16;
    if pos + 1 + countBytes + offsetBytes > |data| {
      return None, pos;
    }
    var clusterCount := ReadUnsigned(data, pos + 1, countBytes);
    var clusterOffset := ReadSigned(data, pos + 1 + countBytes, offsetBytes);
    return Some(DataRun(0, 0, clusterOffset, clusterCount, clusterOffset == 0 && offsetBytes == 0, clusterOffset)),
           pos + 1 + countBytes + offsetBytes;
  }

  /** What `parse_runlist` appends for the entry at `pos`. */
  function ParsedRun(data: seq<byte>, pos: nat): RawRun
    requires EntryAt(data, pos)
  {
    var (nc, no) := (CountBytes(data[pos]), OffsetBytes(data[pos]));
    RawRun(Unsigned(data, pos + 1, nc), Signed(data, pos + 1 + nc, no), no == 0)
  }

  function Parsed(data: seq<byte>, pos: nat): seq<RawRun>
    decreases |data| - pos
  {
    if !EntryAt(data, pos) then [] else [ParsedRun(data, pos)] + Parsed(data, NextEntry(data, pos))
  }

  method ParseRunlist(data: seq<byte>, offset: nat) returns (runs: seq<RawRun>)
    ensures runs == Parsed(data, offset)
  {
    runs := [];
    var pos := offset;
    while pos < |data|
      invariant runs + Parsed(data, pos) == Parsed(data, offset)
      decreases |data| - pos
    {
      var headerByte := data[pos];
      if headerByte == 0 {
        break;
      }
      var countBytes := headerByte as int % 16;
      var offsetBytes := headerByte as int / 16 % 16;
      if pos + 1 + countBytes + offsetBytes > |data| {
        break;
      }
      var clusterCount := ReadUnsigned(data, pos + 1, countBytes);
      var isSparse := offsetBytes == 0;
      var clusterOffset := ReadSigned(data, pos + 1 + countBytes, offsetBytes);
      ghost var rest := Parsed(data, NextEntry(data, pos));
      ConcatAssoc(runs, [RawRun(clusterCount, clusterOffset, isSparse)], rest);
      runs := runs + [RawRun(clusterCount, clusterOffset, isSparse)];
      pos := pos + (1 + countBytes + offsetBytes);
    }
    assert Parsed(data, pos) == [];
  }

  /** Decoding entry after entry until there is none. */
  function DecodedFrom(data: seq<byte>, pos: nat): seq<DataRun>
    decreases |data| - pos
  {
    if !EntryAt(data, pos) then [] else [Decoded(data, pos)] + DecodedFrom(data, NextEntry(data, pos))
  }

  function Raw(run: DataRun): RawRun { RawRun(run.clusterCount, run.relativeOffset, run.isSparse) }

  /** On any bytes the two decoders yield the same runs. */
  lemma {:induction false} DecodersAgree(data: seq<byte>, pos: nat)
    ensures |DecodedFrom(data, pos)| == |Parsed(data, pos)|
    ensures forall i :: 0 <= i < |Parsed(data, pos)| ==> Raw(DecodedFrom(data, pos)[i]) == Parsed(data, pos)[i]
    decreases |data| - pos
  {
    if EntryAt(data, pos) {
      DecodersAgree(data, NextEntry(data, pos));
      hide Unsigned;
      assert Raw(Decoded(data, pos)) == ParsedRun(data, pos);
    }
  }

  // ---- the encoder ----

  /** `n` bytes of a number, least significant first. */
  function Bytes(v: nat, n: nat): (r: seq<byte>)
    ensures |r| == n
  {
    if n == 0 then [] else [(v % 256) as byte] + Bytes(v / 256, n - 1)
  }

  predicate FitsSigned(v: int, n: nat) { n > 0 && -128 * Pow256(n - 1) <= v < 128 * Pow256(n - 1) }

  function TwosComplement(v: int, n: nat): nat
    requires FitsSigned(v, n)
  {
    if v < 0 then v + Pow256(n) else v
  }

  /** A run with the widths its two fields are written in; a hole has no offset field. */
  datatype Coded = Coded(run: RawRun, countWidth: nat, offsetWidth: nat)
  {
    ghost predicate Legal()
    {
      && countWidth <= 15 && offsetWidth <= 15 && run.clusterCount < Pow256(countWidth)
      && if run.isSparse then countWidth > 0 && offsetWidth == 0 && run.clusterOffset == 0
         else FitsSigned(run.clusterOffset, offsetWidth)
    }

    function Header(): byte
      requires Legal()
    {
      (countWidth + 16 * offsetWidth) as byte
    }

    function Encode(): (r: seq<byte>)
      requires Legal()
      ensures |r| == 1 + countWidth + offsetWidth
    {
      [Header()] + Bytes(run.clusterCount, countWidth)
      + if run.isSparse then [] else Bytes(TwosComplement(run.clusterOffset, offsetWidth), offsetWidth)
    }
  }

  ghost predicate AllLegal(coded: seq<Coded>)
  {
    forall i :: 0 <= i < |coded| ==> coded[i].Legal()
  }

  function EncodeAll(coded: seq<Coded>): seq<byte>
    requires AllLegal(coded)
  {
    if coded == [] then [] else coded[0].Encode() + EncodeAll(coded[1..])
  }

  function Runs(coded: seq<Coded>): seq<RawRun>
  {
    if coded == [] then [] else [coded[0].run] + Runs(coded[1..])
  }

  /** A field read from its first byte on. */
  lemma {:induction false} UnsignedHead(data: seq<byte>, pos: nat, n: nat)
    requires 0 < n && pos + n <= |data|
    ensures Unsigned(data, pos, n) == data[pos] as int + 256 * Unsigned(data, pos + 1, n - 1)
  {
    if n > 1 {
      UnsignedHead(data, pos, n - 1);
      var last, p := data[pos + n - 1] as int, Pow256(n - 2);
      assert last * Pow256(n - 1) == last * (256 * p) == 256 * (last * p);
    } else {
      assert Unsigned(data, pos, 0) == 0 && Unsigned(data, pos, 1) == data[pos] as int * Pow256(0);
    }
  }

  lemma {:induction false} ReadBack(data: seq<byte>, pos: nat, v: nat, n: nat)
    requires v < Pow256(n) && pos + n <= |data| && data[pos..pos + n] == Bytes(v, n)
    ensures Unsigned(data, pos, n) == v
    decreases n
  {
    if n == 0 {
    } else {
      UnsignedHead(data, pos, n);
      assert data[pos..pos + n][0] == data[pos];
      assert data[pos + 1..pos + n] == data[pos..pos + n][1..] == Bytes(v / 256, n - 1);
      ReadBack(data, pos + 1, v / 256, n - 1);
    }
  }

  lemma ReadBackSigned(data: seq<byte>, pos: nat, v: int, n: nat)
    requires FitsSigned(v, n) && pos + n <= |data| && data[pos..pos + n] == Bytes(TwosComplement(v, n), n)
    ensures Signed(data, pos, n) == v
  {
    ReadBack(data, pos, TwosComplement(v, n), n);
  }

  /** An encoded entry is decoded to the run it was made from, wherever it stands. */
  lemma ParseOne(data: seq<byte>, pos: nat, c: Coded)
    requires c.Legal() && pos + |c.Encode()| <= |data| && data[pos..pos + |c.Encode()|] == c.Encode()
    ensures EntryAt(data, pos) && ParsedRun(data, pos) == c.run && NextEntry(data, pos) == pos + |c.Encode()|
  {
    hide Unsigned, Bytes, FitsSigned, Pow256, Signed;
    var nc, no := c.countWidth, c.offsetWidth;
    if !c.run.isSparse { Positive(c.run.clusterOffset, no); }
    HeaderFields(nc, no);
    EncodedFields(data, pos, c);
    ReadBack(data, pos + 1, c.run.clusterCount, nc);
    if c.run.isSparse {
      NoOffset(data, pos + 1 + nc);
    } else {
      ReadBackSigned(data, pos + 1 + nc, c.run.clusterOffset, no);
    }
  }

  /** Where the three parts of an encoded entry lie. */
  lemma EncodedFields(data: seq<byte>, pos: nat, c: Coded)
    requires c.Legal() && pos + |c.Encode()| <= |data| && data[pos..pos + |c.Encode()|] == c.Encode()
    ensures data[pos] == c.Header()
    ensures var p := pos + 1;
      data[p..p + c.countWidth] == Bytes(c.run.clusterCount, c.countWidth)
    ensures var p := pos + 1 + c.countWidth;
      !c.run.isSparse ==>
        data[p..p + c.offsetWidth] == Bytes(TwosComplement(c.run.clusterOffset, c.offsetWidth), c.offsetWidth)
  {
    hide Bytes, FitsSigned, Pow256;
    var count := Bytes(c.run.clusterCount, c.countWidth);
    var offset := if c.run.isSparse then [] else Bytes(TwosComplement(c.run.clusterOffset, c.offsetWidth),
      c.offsetWidth);
    assert c.Encode() == [c.Header()] + (count + offset);
    SplitAt(data, pos, [c.Header()], count + offset);
    assert data[pos..pos + 1][0] == data[pos];
    SplitAt(data, pos + 1, count, offset);
  }

  lemma Positive(v: int, n: nat)
    ensures FitsSigned(v, n) ==> n > 0
  {}

  lemma NoOffset(data: seq<byte>, pos: nat)
    requires pos <= |data|
    ensures Signed(data, pos, 0) == 0
  {}

  lemma HeaderFields(nc: nat, no: nat)
    requires nc <= 15 && no <= 15 && nc + no > 0
    ensures var h := (nc + 16 * no) as byte; h != 0 && CountBytes(h) == nc && OffsetBytes(h) == no
  {}

  lemma SplitAt<T>(data: seq<T>, pos: nat, a: seq<T>, b: seq<T>)
    requires pos + |a + b| <= |data| && data[pos..pos + |a + b|] == a + b
    ensures data[pos..pos + |a|] == a && data[pos + |a|..pos + |a| + |b|] == b
  {
    assert data[pos..pos + |a|] == (a + b)[..|a|];
    assert data[pos + |a|..pos + |a| + |b|] == (a + b)[|a|..];
  }

  /** Encoding then parsing gives the runs back, whatever bytes come before, and whether a terminator
      followed by anything, or the end of the data, comes after. */
  lemma {:induction false} ParseEncoded(data: seq<byte>, pos: nat, coded: seq<Coded>)
    requires AllLegal(coded) && pos + |EncodeAll(coded)| <= |data|
    requires data[pos..pos + |EncodeAll(coded)|] == EncodeAll(coded)
    requires var end := pos + |EncodeAll(coded)|; end == |data| || data[end] == 0
    ensures Parsed(data, pos) == Runs(coded)
    decreases |coded|
  {
    if coded == [] {
      assert !EntryAt(data, pos);
    } else {
      var e, rest := coded[0].Encode(), EncodeAll(coded[1..]);
      hide ParsedRun, EntryAt, NextEntry;
      SplitAt(data, pos, e, rest);
      ParseOne(data, pos, coded[0]);
      ParseEncoded(data, pos + |e|, coded[1..]);
    }
  }

  lemma OneByte(data: seq<byte>, pos: nat)
    requires pos < |data|
    ensures Unsigned(data, pos, 1) == data[pos] as int
    ensures Signed(data, pos, 1) == if data[pos] >= 128 then data[pos] as int - 256 else data[pos] as int
  {
    assert Pow256(0) == 1 && Pow256(1) == 256 && Unsigned(data, pos, 0) == 0;
  }

  lemma TwoBytes(data: seq<byte>, pos: nat)
    requires pos + 1 < |data|
    ensures Unsigned(data, pos, 2) == data[pos] as int + 256 * data[pos + 1] as int
    ensures Signed(data, pos, 2) == Unsigned(data, pos, 2) - if data[pos + 1] >= 128 then 65536 else 0
  {
    OneByte(data, pos);
    assert Pow256(1) == 256 * Pow256(0) == 256 && Pow256(2) == 256 * Pow256(1);
  }

  /** A run list byte by byte: 0x18 clusters at 0x5634, two clusters sixteen before that, a hole of five, the end. */
  lemma KnownRunlist(data: seq<byte>)
    requires |data| >= 10 && data[0] == 0x21 && data[1] == 0x18 && data[2] == 0x34 && data[3] == 0x56
    requires data[4] == 0x11 && data[5] == 0x02 && data[6] == 0xF0 && data[7] == 0x01 && data[8] == 0x05 && data[9] == 0
    ensures Parsed(data, 0) == [RawRun(0x18, 0x5634, false), RawRun(2, -16, false), RawRun(5, 0, true)]
  {
    hide Parsed, Unsigned, Signed;
    OneByte(data, 1);
    TwoBytes(data, 2);
    OneByte(data, 5);
    OneByte(data, 6);
    OneByte(data, 8);
    NoOffset(data, 9);
    ParsedHead(data, 9);
    ParsedHead(data, 7);
    ParsedHead(data, 4);
    ParsedHead(data, 0);
  }

  lemma ParsedHead(data: seq<byte>, pos: nat)
    ensures Parsed(data, pos)
         == if EntryAt(data, pos) then [ParsedRun(data, pos)] + Parsed(data, NextEntry(data, pos)) else []
  {}

  // ---- fragments ----

  /** A file as its owner sees it: stretches of clusters at absolute positions, and holes. */
  datatype Fragment = Extent(lcn: int, count: nat) | Hole(count: nat)

  function LastLcnOf(fragments: seq<Fragment>, n: nat): int
    requires n <= |fragments|
  {
    if n == 0 then 0
    else if fragments[n - 1].Extent? then fragments[n - 1].lcn
    else LastLcnOf(fragments, n - 1)
  }

  /** The fragment as a signed step from the extent before it. */
  function Delta(fragments: seq<Fragment>, i: nat): RawRun
    requires i < |fragments|
  {
    var f := fragments[i];
    if f.Hole? then RawRun(f.count, 0, true) else RawRun(f.count, f.lcn - LastLcnOf(fragments, i), false)
  }

  function Deltas(fragments: seq<Fragment>): (r: seq<RawRun>)
    ensures |r| == |fragments| && forall i :: 0 <= i < |r| ==> r[i] == Delta(fragments, i)
  {
    seq(|fragments|, i requires 0 <= i < |fragments| => Delta(fragments, i))
  }

  function CountBefore(fragments: seq<Fragment>, n: nat): nat
    requires n <= |fragments|
  {
    if n == 0 then 0 else CountBefore(fragments, n - 1) + fragments[n - 1].count
  }

  lemma {:induction false} DeltasAddUp(fragments: seq<Fragment>, n: nat)
    requires n <= |fragments|
    ensures LcnAfter(Deltas(fragments), n) == LastLcnOf(fragments, n)
    ensures VcnAfter(Deltas(fragments), n) == CountBefore(fragments, n)
  {
    if n == 0 {
    } else {
      DeltasAddUp(fragments, n - 1);
    }
  }

  /** Run `i` of a resolved list stands for fragment `i`, placed right after the fragments before it. */
  predicate Represents(run: DataRun, fragments: seq<Fragment>, i: nat)
    requires i < |fragments|
  {
    var f := fragments[i];
    && run.clusterCount == f.count && run.isSparse == f.Hole?
    && run.lcn == (if f.Hole? then -1 else f.lcn)
    && run.vcnStart == CountBefore(fragments, i) && run.vcnEnd == CountBefore(fragments, i) + f.count - 1
  }

  lemma ResolvedDeltas(fragments: seq<Fragment>)
    ensures var runs := Resolved(Deltas(fragments));
      |runs| == |fragments| && forall i :: 0 <= i < |runs| ==> Represents(runs[i], fragments, i)
  {
    var runs := Resolved(Deltas(fragments));
    forall i | 0 <= i < |runs|
      ensures Represents(runs[i], fragments, i)
    {
      DeltasAddUp(fragments, i);
      DeltasAddUp(fragments, i + 1);
    }
  }

  // ---- smallest widths ----

  /** The least positive number of bytes that holds `v`. */
  function CountWidth(v: nat): (w: nat)
    ensures w > 0 && v < Pow256(w)
    ensures w > 1 ==> v >= Pow256(w - 1)
  {
    if v < 256 then assert Pow256(1) == 256 * Pow256(0); 1 else 1 + CountWidth(v / 256)
  }

  /** The least number of bytes that holds `v` in two's complement. */
  function OffsetWidth(v: int): (w: nat)
    ensures FitsSigned(v, w)
    ensures w > 1 ==> !FitsSigned(v, w - 1)
    decreases if v < 0 then -v else v
  {
    if -128 <= v < 128 then assert Pow256(0) == 1; 1
    else WidenSigned(v, OffsetWidth(v / 256)); WidenSigned(v, OffsetWidth(v / 256) - 1); 1 + OffsetWidth(v / 256)
  }

  lemma WidenSigned(v: int, w: nat)
    ensures w > 0 ==> (FitsSigned(v, w + 1) <==> FitsSigned(v / 256, w))
    ensures w == 0 && !(-128 <= v < 128) ==> !FitsSigned(v, w + 1)
  {
    assert w > 0 ==> Pow256(w) == 256 * Pow256(w - 1);
  }

  /** Both fields fit the fifteen bytes a header nibble can announce. */
  ghost predicate Encodable(fragments: seq<Fragment>)
  {
    forall i :: 0 <= i < |fragments| ==> EncodableRun(Delta(fragments, i))
  }

  predicate EncodableRun(run: RawRun)
  {
    CountWidth(run.clusterCount) <= 15 && OffsetWidth(run.clusterOffset) <= 15
  }

  function Narrow(run: RawRun): Coded
  {
    Coded(run, CountWidth(run.clusterCount), if run.isSparse then 0 else OffsetWidth(run.clusterOffset))
  }

  function NarrowAll(runs: seq<RawRun>): seq<Coded>
  {
    if runs == [] then [] else [Narrow(runs[0])] + NarrowAll(runs[1..])
  }

  lemma {:induction false} NarrowAllLegal(runs: seq<RawRun>)
    requires forall i :: 0 <= i < |runs| ==> EncodableRun(runs[i]) && (runs[i].isSparse ==> runs[i].clusterOffset == 0)
    ensures AllLegal(NarrowAll(runs)) && Runs(NarrowAll(runs)) == runs
  {
    if runs == [] {
    } else {
      hide Pow256, FitsSigned, CountWidth, OffsetWidth;
      NarrowAllLegal(runs[1..]);
      assert Narrow(runs[0]).Legal();
    }
  }

  lemma FragmentsLegal(fragments: seq<Fragment>)
    requires Encodable(fragments)
    ensures AllLegal(NarrowAll(Deltas(fragments))) && Runs(NarrowAll(Deltas(fragments))) == Deltas(fragments)
  {
    NarrowAllLegal(Deltas(fragments));
  }

  function EncodeFragments(fragments: seq<Fragment>): seq<byte>
    requires Encodable(fragments)
  {
    FragmentsLegal(fragments);
    EncodeAll(NarrowAll(Deltas(fragments)))
  }

  /** The round trip: fragments written as mapping pairs with a zero terminator, inside any bytes,
      come back from parsing and resolution as the same fragments end to end. */
  lemma CodecRoundTrip(before: seq<byte>, fragments: seq<Fragment>, after: seq<byte>)
    requires Encodable(fragments)
    ensures var runs := Resolved(Parsed(before + EncodeFragments(fragments) + [0] + after, |before|));
      |runs| == |fragments| && forall i :: 0 <= i < |runs| ==> Represents(runs[i], fragments, i)
  {
    var coded, body := NarrowAll(Deltas(fragments)), EncodeFragments(fragments);
    var data, end := before + body + [0] + after, |before| + |body|;
    hide EncodeAll, NarrowAll, Parsed, Resolved, Represents;
    FragmentsLegal(fragments);
    assert data[|before|..end] == body && data[end] == 0;
    ParseEncoded(data, |before|, coded);
    ResolvedDeltas(fragments);
  }
}
