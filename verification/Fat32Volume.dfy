/** A FAT32 volume by its bytes: what the fields of the boot sector, the four bytes of a table slot and the bytes of a
    cluster make the recovery of a deleted file return. */
module Fat32Volume {
  import opened RawImage
  import opened Fat32
  import opened Fat32Recovery

  /** The fields of a boot sector that fix where the first table and the data region lie. */
  datatype Fields = Fields(bytesPerSector: nat, sectorsPerCluster: nat, reservedSectors: nat, fatCount: nat,
    fatSizeSectors: nat)

  function BootSectorOf(f: Fields): BootSector
  {
    FromFields(f.bytesPerSector, f.sectorsPerCluster, f.reservedSectors, f.fatCount, f.fatSizeSectors)
  }

  predicate HasByte(image: seq<byte>, at: int, value: int) { 0 <= at < |image| && image[at] as int == value }

  // ---- slots of the table ----

  /** The slot at `at` holds the number `v`, lowest byte first. */
  predicate SlotHolds(image: seq<byte>, at: int, v: nat)
  {
    && HasByte(image, at, v % 256)
    && HasByte(image, at + 1, v / 256 % 256)
    && HasByte(image, at + 2, v / 65536 % 256)
    && HasByte(image, at + 3, v / 16777216 % 256)
  }

  lemma Quotients(v: nat)
    ensures v / 65536 == v / 256 / 256 && v / 16777216 == v / 256 / 256 / 256
  {}

  lemma FourBytes(v: nat)
    ensures (v % 256 + 256 * (v / 256 % 256) + 65536 * (v / 65536 % 256) + 16777216 * (v / 16777216 % 256))
      % 0x1000_0000 == v % 0x1000_0000
  {
    Quotients(v);
    var a := v / 256;
    var b := a / 256;
    var c := b / 256;
    var low := v % 256 + 256 * (a % 256) + 65536 * (b % 256) + 16777216 * (c % 256);
    assert v == 256 * a + v % 256 && a == 256 * b + a % 256 && b == 256 * c + b % 256;
    assert v == low + 0x1000_0000 * (16 * (c / 256));
    SameRemainder(low, 16 * (c / 256));
  }

  lemma SameRemainder(low: nat, n: nat)
    ensures (low + 0x1000_0000 * n) % 0x1000_0000 == low % 0x1000_0000
  {}

  /** The successor of a cluster is the number in its slot without the top four bits. */
  lemma SlotIsRead(image: seq<byte>, b: BootSector, cluster: nat, v: nat)
    requires SlotHolds(image, b.fatStart + 4 * cluster, v)
    ensures Next(image, b, cluster) == v % 0x1000_0000
  {
    FourBytes(v);
  }

  function SlotBytes(v: nat): (r: seq<byte>)
    ensures |r| == 4
  {
    [(v % 256) as byte, (v / 256 % 256) as byte, (v / 65536 % 256) as byte, (v / 16777216 % 256) as byte]
  }

  /** The image with the number `v` written into the slot of a cluster, byte by byte. */
  function WriteSlot(image: seq<byte>, b: BootSector, cluster: nat, v: nat): (r: seq<byte>)
    requires b.fatStart + 4 * cluster + 4 <= |image|
    ensures |r| == |image|
  {
    WriteAt(image, b.fatStart + 4 * cluster, SlotBytes(v))
  }

  lemma WrittenSlotHolds(image: seq<byte>, b: BootSector, cluster: nat, v: nat)
    requires b.fatStart + 4 * cluster + 4 <= |image|
    ensures SlotHolds(WriteSlot(image, b, cluster, v), b.fatStart + 4 * cluster, v)
  {
    var at, bytes := b.fatStart + 4 * cluster, SlotBytes(v);
    var r := WriteSlot(image, b, cluster, v);
    assert forall k :: 0 <= k < 4 ==> r[at + k] == bytes[k];
    assert r[at] == bytes[0] && r[at + 1] == bytes[1] && r[at + 2] == bytes[2] && r[at + 3] == bytes[3];
  }

  /** Writing one slot leaves the others as they read. */
  lemma OtherSlotStays(image: seq<byte>, b: BootSector, cluster: nat, v: nat, other: nat)
    requires b.fatStart + 4 * cluster + 4 <= |image| && other != cluster
    ensures Next(WriteSlot(image, b, cluster, v), b, other) == Next(image, b, other)
  {
    var at := b.fatStart + 4 * other;
    hide ReadAt, WriteAt, LittleEndian;
    WriteElsewhere(image, b.fatStart + 4 * cluster, SlotBytes(v), at, 4);
  }

  ghost predicate SlotsInImage(size: nat, b: BootSector, chain: seq<nat>)
  {
    forall i :: 0 <= i < |chain| ==> b.fatStart + 4 * chain[i] + 4 <= size
  }

  /** What is written into the slot of place `i` of the chain: the next cluster, or `end` behind the last. */
  function Successor(chain: seq<nat>, i: nat, end: nat): nat { if i + 1 < |chain| then chain[i + 1] else end }

  /** The image with a chain written into its table. */
  function WriteChain(image: seq<byte>, b: BootSector, chain: seq<nat>, end: nat): (r: seq<byte>)
    requires SlotsInImage(|image|, b, chain)
    ensures |r| == |image|
    decreases |chain|
  {
    if chain == [] then image
    else WriteChain(WriteSlot(image, b, chain[0], Successor(chain, 0, end)), b, chain[1..], end)
  }

  lemma {:induction false} OtherSlotsStay(image: seq<byte>, b: BootSector, chain: seq<nat>, end: nat, other: nat)
    requires SlotsInImage(|image|, b, chain) && other !in chain
    ensures Next(WriteChain(image, b, chain, end), b, other) == Next(image, b, other)
    decreases |chain|
  {
    hide Next, WriteSlot;
    if chain == [] {
    } else {
      OtherSlotStays(image, b, chain[0], Successor(chain, 0, end), other);
      OtherSlotsStay(WriteSlot(image, b, chain[0], Successor(chain, 0, end)), b, chain[1..], end, other);
    }
  }

  /** Each slot of a written chain reads as what was written into it. */
  lemma {:induction false} WrittenChainReads(image: seq<byte>, b: BootSector, chain: seq<nat>, end: nat, i: nat)
    requires SlotsInImage(|image|, b, chain) && NoRepeat(chain) && i < |chain|
    ensures Next(WriteChain(image, b, chain, end), b, chain[i]) == Successor(chain, i, end) % 0x1000_0000
    decreases |chain|
  {
    hide Next, WriteSlot;
    var first := WriteSlot(image, b, chain[0], Successor(chain, 0, end));
    if i == 0 {
      WrittenSlotHolds(image, b, chain[0], Successor(chain, 0, end));
      SlotIsRead(first, b, chain[0], Successor(chain, 0, end));
      OtherSlotsStay(first, b, chain[1..], end, chain[0]);
    } else {
      WrittenChainReads(first, b, chain[1..], end, i - 1);
    }
  }

  /** The slot of place `i` reads as what belongs there. */
  predicate ReadsOn(image: seq<byte>, b: BootSector, chain: seq<nat>, end: nat, i: nat)
    requires i < |chain|
  {
    Next(image, b, chain[i]) == Successor(chain, i, end) % 0x1000_0000
  }

  lemma ReadsOnMeans(image: seq<byte>, b: BootSector, chain: seq<nat>, end: nat, i: nat)
    requires i < |chain| && ReadsOn(image, b, chain, end, i)
    ensures i + 1 < |chain| && chain[i + 1] <= 0x0FFF_FFF6 ==> Next(image, b, chain[i]) == chain[i + 1]
    ensures i + 1 == |chain| && 0x0FFF_FFF8 <= end % 0x1000_0000 ==> EndOfChain(Next(image, b, chain[i]))
  {
    hide Next;
  }

  /** Clusters whose slots read as a chain and an end of chain are an ended chain. */
  lemma ReadsAsEnded(image: seq<byte>, b: BootSector, chain: seq<nat>, end: nat)
    requires chain != [] && NoRepeat(chain) && 0x0FFF_FFF8 <= end % 0x1000_0000
    requires forall i :: 0 <= i < |chain| ==> 2 <= chain[i] <= 0x0FFF_FFF6
    requires forall i :: 0 <= i < |chain| ==> ReadsOn(image, b, chain, end, i)
    ensures EndedChain(image, b, chain)
  {
    hide Next, ReadsOn;
    assert AllData(chain);
    forall i | 0 <= i < |chain| - 1 ensures chain[i + 1] == Next(image, b, chain[i]) {
      assert ReadsOn(image, b, chain, end, i);
      ReadsOnMeans(image, b, chain, end, i);
    }
    ReadsOnMeans(image, b, chain, end, |chain| - 1);
  }

  lemma WrittenChainEnds(image: seq<byte>, b: BootSector, chain: seq<nat>, end: nat)
    requires SlotsInImage(|image|, b, chain) && chain != [] && NoRepeat(chain) && 0x0FFF_FFF8 <= end % 0x1000_0000
    requires forall i :: 0 <= i < |chain| ==> 2 <= chain[i] <= 0x0FFF_FFF6
    ensures EndedChain(WriteChain(image, b, chain, end), b, chain)
  {
    hide Next, WriteChain, EndedChain, NoRepeat, SlotsInImage;
    var written := WriteChain(image, b, chain, end);
    forall i | 0 <= i < |chain| ensures ReadsOn(written, b, chain, end, i) {
      WrittenChainReads(image, b, chain, end, i);
    }
    ReadsAsEnded(written, b, chain, end);
  }

  // ---- bytes of the file ----

  /** Byte `j` of cluster `i` of the chain holds the byte of the file that belongs there, if the file reaches so far. */
  predicate ByteInPlace(image: seq<byte>, dataStart: nat, size: nat, chain: seq<nat>, content: seq<byte>, i: nat,
                        j: nat)
    requires i < |chain|
  {
    i * size + j < |content| ==>
      HasByte(image, dataStart + (chain[i] - 2) * size + j, content[i * size + j] as int)
  }

  /** The file stands in the clusters of the chain, in their order. */
  ghost predicate FileInPlace(image: seq<byte>, dataStart: nat, size: nat, chain: seq<nat>, content: seq<byte>)
  {
    forall i, j :: 0 <= i < |chain| && 0 <= j < size ==> ByteInPlace(image, dataStart, size, chain, content, i, j)
  }

  lemma RestInPlace(image: seq<byte>, dataStart: nat, size: nat, chain: seq<nat>, content: seq<byte>)
    requires chain != [] && FileInPlace(image, dataStart, size, chain, content) && size <= |content|
    ensures FileInPlace(image, dataStart, size, chain[1..], content[size..])
  {
    forall i, j | 0 <= i < |chain[1..]| && 0 <= j < size
      ensures ByteInPlace(image, dataStart, size, chain[1..], content[size..], i, j)
    {
      assert ByteInPlace(image, dataStart, size, chain, content, i + 1, j);
      assert (i + 1) * size + j == size + (i * size + j);
    }
  }

  /** The first cluster reads as the first part of the file. */
  lemma FirstInPlace(image: seq<byte>, b: BootSector, chain: seq<nat>, content: seq<byte>)
    requires chain != [] && chain[0] >= 2 && FileInPlace(image, b.dataStart, b.clusterSize, chain, content)
    ensures var n := Min(b.clusterSize, |content|);
      content[..n] <= ClusterData(image, b, chain[0]) && |ClusterData(image, b, chain[0])| <= b.clusterSize
  {
    var n, at := Min(b.clusterSize, |content|), ClusterOffset(b, chain[0]);
    forall j | 0 <= j < n
      ensures at + j < |image| && image[at + j] == content[j]
    {
      assert ByteInPlace(image, b.dataStart, b.clusterSize, chain, content, 0, j);
    }
    if n > 0 {
      assert ByteInPlace(image, b.dataStart, b.clusterSize, chain, content, 0, n - 1);
      hide ClusterOffset, FileInPlace, ByteInPlace;
      assert ReadAt(image, at, b.clusterSize)[..n] == content[..n];
    }
  }

  lemma {:induction false} InPlaceIsRead(image: seq<byte>, b: BootSector, chain: seq<nat>, content: seq<byte>)
    requires FileInPlace(image, b.dataStart, b.clusterSize, chain, content) && |content| <= |chain| * b.clusterSize
    requires forall i :: 0 <= i < |chain| ==> 2 <= chain[i]
    ensures content <= ChainData(image, b, chain)
    decreases |chain|
  {
    if chain == [] {
    } else {
      RoomStep(|chain|, b.clusterSize, |content|);
      FirstInPlace(image, b, chain, content);
      hide ClusterData, FileInPlace;
      var n := Min(b.clusterSize, |content|);
      var first, rest := ClusterData(image, b, chain[0]), ChainData(image, b, chain[1..]);
      if n == b.clusterSize {
        RestInPlace(image, b.dataStart, b.clusterSize, chain, content);
        InPlaceIsRead(image, b, chain[1..], content[n..]);
      }
      PrefixJoin(content, n, first, rest);
    }
  }

  lemma FileInClustersIsRecovered(image: seq<byte>, b: BootSector, chain: seq<nat>, end: nat, content: seq<byte>)
    requires 0 < |chain| <= 10_000_000 && NoRepeat(chain) && 0x0FFF_FFF8 <= end % 0x1000_0000
    requires forall i :: 0 <= i < |chain| ==> 2 <= chain[i] <= 0x0FFF_FFF6
    requires forall i :: 0 <= i < |chain| ==> SlotHolds(image, b.fatStart + 4 * chain[i], Successor(chain, i, end))
    requires 0 < |content| <= |chain| * b.clusterSize
    requires FileInPlace(image, b.dataStart, b.clusterSize, chain, content)
    ensures RecoveryOf(image, b, Entry(false, chain[0], |content|)) == Recovery(chain, content, Recovered, [])
  {
    hide FileInPlace, Next, SlotHolds, NoRepeat, EndedChain, Follow, ChainData, Successor;
    forall i | 0 <= i < |chain| ensures ReadsOn(image, b, chain, end, i) {
      SlotIsRead(image, b, chain[i], Successor(chain, i, end));
    }
    ReadsAsEnded(image, b, chain, end);
    EndedChainIsRead(image, b, chain, ChainLimit(0));
    InPlaceIsRead(image, b, chain, content);
    assert Cut(ChainData(image, b, chain), |content|) == content;
  }

  /** Whatever else an image holds: when the table slots hold a chain of clusters and an end-of-chain value, byte by
      byte, and the clusters hold a file, byte by byte, then recovery returns that chain and that file. */
  lemma FileInImageIsRecovered(f: Fields, image: seq<byte>, chain: seq<nat>, end: nat, content: seq<byte>)
    requires 0 < |chain| <= 10_000_000 && NoRepeat(chain) && 0x0FFF_FFF8 <= end % 0x1000_0000
    requires forall i :: 0 <= i < |chain| ==> 2 <= chain[i] <= 0x0FFF_FFF6
    requires forall i :: 0 <= i < |chain| ==>
      SlotHolds(image, f.reservedSectors * f.bytesPerSector + 4 * chain[i], Successor(chain, i, end))
    requires 0 < |content| <= |chain| * (f.bytesPerSector * f.sectorsPerCluster)
    requires FileInPlace(image, (f.reservedSectors + f.fatCount * f.fatSizeSectors) * f.bytesPerSector,
                         f.bytesPerSector * f.sectorsPerCluster, chain, content)
    ensures RecoveryOf(image, BootSectorOf(f), Entry(false, chain[0], |content|))
         == Recovery(chain, content, Recovered, [])
  {
    hide FileInPlace, SlotHolds, NoRepeat, RecoveryOf, Successor;
    FileInClustersIsRecovered(image, BootSectorOf(f), chain, end, content);
  }

  // ---- a file written to a volume ----

  /** The slot of the cluster lies in the first table. */
  predicate InFirstTable(f: Fields, cluster: nat) { cluster * 4 + 4 <= f.fatSizeSectors * f.bytesPerSector }

  /** With at least one table, its slots lie before the data region. */
  lemma TableBeforeData(f: Fields, cluster: nat)
    requires f.fatCount >= 1 && InFirstTable(f, cluster)
    ensures SlotBeforeData(BootSectorOf(f), cluster)
  {
    AtLeast(f.fatCount, f.fatSizeSectors);
    var rest := f.fatCount * f.fatSizeSectors - f.fatSizeSectors;
    assert (f.reservedSectors + f.fatCount * f.fatSizeSectors) * f.bytesPerSector
        == f.reservedSectors * f.bytesPerSector + f.fatSizeSectors * f.bytesPerSector + rest * f.bytesPerSector;
  }

  /** On a volume with sectors, clusters and a table, a file laid over a chain that the table ends is recovered. */
  lemma EndedChainOnVolume(f: Fields, image: seq<byte>, chain: seq<nat>, content: seq<byte>)
    requires f.bytesPerSector > 0 && f.sectorsPerCluster > 0 && f.fatCount >= 1
    requires forall i :: 0 <= i < |chain| ==> InFirstTable(f, chain[i])
    requires var b := BootSectorOf(f);
      && InBounds(|image|, b, chain) && EndedChain(image, b, chain) && |chain| <= ChainLimit(0)
      && 0 < |content| <= |chain| * b.clusterSize
    ensures var b := BootSectorOf(f);
      RecoveryOf(Lay(image, b, chain, content), b, Entry(false, chain[0], |content|))
        == Recovery(chain, content, Recovered, [])
  {
    hide RecoveryOf, Lay, EndedChain, InBounds, InFirstTable, SlotBeforeData;
    var b := BootSectorOf(f);
    AtLeast(f.bytesPerSector, f.sectorsPerCluster);
    assert b.clusterSize > 0;
    hide BootSectorOf;
    forall i | 0 <= i < |chain| ensures SlotBeforeData(b, chain[i]) { TableBeforeData(f, chain[i]); }
    LaidFileIsRecovered(image, b, chain, content);
  }

  lemma DataInImage(size: nat, b: BootSector, chain: seq<nat>)
    requires chain != [] && InBounds(size, b, chain)
    ensures b.dataStart <= size
  {
    assert ClusterOffset(b, chain[0]) + b.clusterSize <= size;
    assert (chain[0] - 2) * b.clusterSize >= 0;
  }

  lemma SlotsFit(f: Fields, size: nat, chain: seq<nat>)
    requires f.fatCount >= 1 && chain != [] && InBounds(size, BootSectorOf(f), chain)
    requires forall i :: 0 <= i < |chain| ==> InFirstTable(f, chain[i])
    ensures SlotsInImage(size, BootSectorOf(f), chain)
  {
    hide BootSectorOf, InFirstTable, InBounds;
    var b := BootSectorOf(f);
    DataInImage(size, b, chain);
    forall i | 0 <= i < |chain| ensures b.fatStart + 4 * chain[i] + 4 <= size { TableBeforeData(f, chain[i]); }
  }

  /** Write a chain into the table and a file over its clusters, on any image and over any clusters the table and the
      image have room for: recovery returns the chain and the file, byte for byte. */
  lemma FileOnVolumeIsRecovered(f: Fields, image: seq<byte>, chain: seq<nat>, end: nat, content: seq<byte>)
    requires f.bytesPerSector > 0 && f.sectorsPerCluster > 0 && f.fatCount >= 1
    requires 0 < |chain| <= 10_000_000 && NoRepeat(chain) && 0x0FFF_FFF8 <= end % 0x1000_0000
    requires forall i :: 0 <= i < |chain| ==> 2 <= chain[i] <= 0x0FFF_FFF6 && InFirstTable(f, chain[i])
    requires InBounds(|image|, BootSectorOf(f), chain)
    requires 0 < |content| <= |chain| * (f.bytesPerSector * f.sectorsPerCluster)
    ensures SlotsInImage(|image|, BootSectorOf(f), chain)
    ensures var b := BootSectorOf(f);
      RecoveryOf(Lay(WriteChain(image, b, chain, end), b, chain, content), b, Entry(false, chain[0], |content|))
        == Recovery(chain, content, Recovered, [])
  {
    hide RecoveryOf, Lay, EndedChain, InBounds, InFirstTable, WriteChain, NoRepeat;
    SlotsFit(f, |image|, chain);
    WrittenChainEnds(image, BootSectorOf(f), chain, end);
    EndedChainOnVolume(f, WriteChain(image, BootSectorOf(f), chain, end), chain, content);
  }
}
