/** Recovery of a deleted file from its FAT32 directory entry. */
module Fat32Recovery {
  import opened RawImage
  import opened Fat32

  datatype Entry = Entry(isDirectory: bool, startCluster: nat, fileSize: nat)

  datatype Status = Recovered | SkippedDirectory | NoStartCluster | EmptyChain | Truncated

  datatype Note =
    | InvalidStart(cluster: nat)
    | ChainIsEmpty(status: ChainStatus)
    | SizeWasZero
    | TruncatedTo(expected: nat, got: nat)

  class RecoveredFile {
    const entry: Entry
    var clusterChain: seq<nat>
    var data: seq<byte>
    var status: Status
    var notes: seq<Note>

    constructor (entry: Entry)
      ensures this.entry == entry && clusterChain == [] && data == [] && status == Recovered && notes == []
    {
      this.entry := entry;
      clusterChain, data, status, notes := [], [], Recovered, [];
    }
  }

  /** What is recovered from an entry. */
  datatype Recovery = Recovery(chain: seq<nat>, data: seq<byte>, status: Status, notes: seq<Note>)

  function Cut(data: seq<byte>, fileSize: nat): seq<byte> { if fileSize > 0 then Take(data, fileSize) else data }

  function RecoveryOf(image: seq<byte>, b: BootSector, entry: Entry): Recovery
  {
    if entry.isDirectory then Recovery([], [], SkippedDirectory, [])
    else if entry.startCluster < 2 then Recovery([], [], NoStartCluster, [InvalidStart(entry.startCluster)])
    else
      var (chain, status) := Follow(image, b, entry.startCluster, [], ChainLimit(0));
      if chain == [] then Recovery([], [], EmptyChain, [ChainIsEmpty(status)])
      else
        var all := ChainData(image, b, chain);
        var data := Cut(all, entry.fileSize);
        if |data| < entry.fileSize then Recovery(chain, data, Truncated, [TruncatedTo(entry.fileSize, |data|)])
        else Recovery(chain, data, Recovered, if entry.fileSize == 0 && all != [] then [SizeWasZero] else [])
  }

  /** What comes of an entry: which are refused, that a chain from a data cluster is never empty, and that a file is cut
      to its size, called truncated when less was found, and kept whole when it has no size. */
  lemma RecoveryCases(image: seq<byte>, b: BootSector, entry: Entry)
    ensures var r := RecoveryOf(image, b, entry); var all := ChainData(image, b, r.chain);
      && (r.status == SkippedDirectory <==> entry.isDirectory)
      && (r.status == NoStartCluster <==> !entry.isDirectory && entry.startCluster < 2)
      && (r.status == EmptyChain <==> !entry.isDirectory && entry.startCluster > 0x0FFF_FFF6)
      && (!entry.isDirectory && 2 <= entry.startCluster <= 0x0FFF_FFF6 ==>
            && r.chain != [] && r.chain[0] == entry.startCluster
            && r.data == (if 0 < entry.fileSize < |all| then all[..entry.fileSize] else all)
            && r.status == (if |all| < entry.fileSize then Truncated else Recovered))
  {
    var (chain, status) := Follow(image, b, entry.startCluster, [], ChainLimit(0));
    ChainStarts(image, b, entry.startCluster, ChainLimit(0), chain, status);
    hide Follow, ChainData;
  }

  lemma ChainStarts(image: seq<byte>, b: BootSector, start: nat, limit: nat, chain: seq<nat>, status: ChainStatus)
    requires Follow(image, b, start, [], limit) == (chain, status) && limit > 0
    ensures if 2 <= start <= 0x0FFF_FFF6 then chain != [] && chain[0] == start else chain == []
  {
    hide Next, Follow, Linked, NoRepeat;
    ResultIsUnique(image, b, start, limit, chain, status);
  }

  /** `recover_deleted_file`. */
  method RecoverDeletedFile(image: seq<byte>, b: BootSector, entry: Entry) returns (recovered: RecoveredFile)
    ensures fresh(recovered) && recovered.entry == entry
    ensures Recovery(recovered.clusterChain, recovered.data, recovered.status, recovered.notes)
      == RecoveryOf(image, b, entry)
  {
    hide Follow, ChainData;
    recovered := new RecoveredFile(entry);
    if entry.isDirectory {
      recovered.status := SkippedDirectory;
      return;
    }
    if entry.startCluster < 2 {
      recovered.status := NoStartCluster;
      recovered.notes := recovered.notes + [InvalidStart(entry.startCluster)];
      return;
    }
    var chain, status := ReadClusterChain(image, b, entry.startCluster, 0);
    recovered.clusterChain := chain;
    if chain == [] {
      recovered.status := EmptyChain;
      recovered.notes := recovered.notes + [ChainIsEmpty(status)];
      return;
    }
    var data := ReadChainData(image, b, chain);
    if entry.fileSize > 0 && |data| > entry.fileSize {
      data := data[..entry.fileSize];
    } else if entry.fileSize == 0 && data != [] {
      recovered.notes := recovered.notes + [SizeWasZero];
    }
    recovered.data := data;
    if entry.fileSize > 0 && |data| < entry.fileSize {
      recovered.notes := recovered.notes + [TruncatedTo(entry.fileSize, |data|)];
      recovered.status := Truncated;
    } else {
      recovered.status := Recovered;
    }
  }

  // ---- a file laid over a chain ----

  function WriteAt(image: seq<byte>, offset: nat, data: seq<byte>): (r: seq<byte>)
    requires offset + |data| <= |image|
    ensures |r| == |image|
  {
    image[..offset] + data + image[offset + |data|..]
  }

  /** Every cluster of the chain lies wholly in the image. */
  ghost predicate InBounds(size: nat, b: BootSector, chain: seq<nat>)
  {
    forall i :: 0 <= i < |chain| ==> chain[i] >= 2 && ClusterOffset(b, chain[i]) + b.clusterSize <= size
  }

  /** The image after a file was written over the clusters of the chain, in their order. */
  function Lay(image: seq<byte>, b: BootSector, chain: seq<nat>, content: seq<byte>): (r: seq<byte>)
    requires InBounds(|image|, b, chain)
    ensures |r| == |image|
    decreases |chain|
  {
    if chain == [] then image
    else
      var n := Min(b.clusterSize, |content|);
      Lay(WriteAt(image, ClusterOffset(b, chain[0]), content[..n]), b, chain[1..], content[n..])
  }

  lemma WriteElsewhere(image: seq<byte>, offset: nat, data: seq<byte>, from: nat, size: nat)
    requires offset + |data| <= |image| && (from + size <= offset || offset + |data| <= from)
    ensures ReadAt(WriteAt(image, offset, data), from, size) == ReadAt(image, from, size)
  {}

  lemma ReadWritten(image: seq<byte>, offset: nat, data: seq<byte>, size: nat)
    requires offset + |data| <= |image| && |data| <= size
    ensures data <= ReadAt(WriteAt(image, offset, data), offset, size)
  {}

  /** Different clusters do not share bytes. */
  lemma ClustersApart(b: BootSector, c: nat, d: nat)
    requires 2 <= c < d
    ensures ClusterOffset(b, c) + b.clusterSize <= ClusterOffset(b, d)
  {
    assert (d - 2) * b.clusterSize == (c - 2) * b.clusterSize + (d - c) * b.clusterSize;
    AtLeast(d - c, b.clusterSize);
  }

  lemma AtLeast(n: nat, m: nat)
    requires n > 0
    ensures n * m >= m
  {}

  /** Laying a file leaves a stretch alone that lies before the data region or in another cluster. */
  lemma {:induction false} LayElsewhere(image: seq<byte>, b: BootSector, chain: seq<nat>, content: seq<byte>,
                                        from: nat, size: nat)
    requires InBounds(|image|, b, chain)
    requires forall i :: 0 <= i < |chain| ==> Misses(b, chain[i], from, size)
    ensures ReadAt(Lay(image, b, chain, content), from, size) == ReadAt(image, from, size)
    decreases |chain|
  {
    hide ClusterOffset, ReadAt, WriteAt;
    if chain == [] {
    } else {
      var n := Min(b.clusterSize, |content|);
      assert Misses(b, chain[0], from, size);
      WriteElsewhere(image, ClusterOffset(b, chain[0]), content[..n], from, size);
      LayElsewhere(WriteAt(image, ClusterOffset(b, chain[0]), content[..n]), b, chain[1..], content[n..], from, size);
    }
  }

  predicate Misses(b: BootSector, cluster: nat, from: nat, size: nat)
  {
    cluster >= 2 && (from + size <= ClusterOffset(b, cluster) || ClusterOffset(b, cluster) + b.clusterSize <= from)
  }

  /** The tables lie before the data region, the data region in the image, and clusters hold something. */
  ghost predicate WellPlaced(size: nat, b: BootSector, chain: seq<nat>)
  {
    b.clusterSize > 0 && InBounds(size, b, chain)
    && forall i :: 0 <= i < |chain| ==> SlotBeforeData(b, chain[i])
  }

  predicate SlotBeforeData(b: BootSector, cluster: nat) { b.fatStart + cluster * 4 + 4 <= b.dataStart }

  /** Room for `size` bytes in `clusters` clusters. */
  lemma RoomStep(clusters: nat, per: nat, size: nat)
    requires clusters > 0 && size <= clusters * per
    ensures size - Min(per, size) <= (clusters - 1) * per
  {
    assert clusters * per == (clusters - 1) * per + per;
  }

  lemma ClusterMisses(b: BootSector, c: nat, d: nat)
    requires c >= 2 && d >= 2 && c != d
    ensures Misses(b, c, ClusterOffset(b, d), b.clusterSize)
  {
    hide ClusterOffset;
    if c < d { ClustersApart(b, c, d); } else { ClustersApart(b, d, c); }
  }

  /** The first cluster still holds its part after the rest of the file was laid. */
  lemma FirstStays(image: seq<byte>, b: BootSector, chain: seq<nat>, content: seq<byte>)
    requires chain != [] && InBounds(|image|, b, chain) && NoRepeat(chain)
    ensures content[..Min(b.clusterSize, |content|)] <= ClusterData(Lay(image, b, chain, content), b, chain[0])
  {
    hide ClusterOffset, ReadAt, WriteAt;
    var n, offset := Min(b.clusterSize, |content|), ClusterOffset(b, chain[0]);
    var written := WriteAt(image, offset, content[..n]);
    forall i | 0 <= i < |chain[1..]| ensures Misses(b, chain[1..][i], offset, b.clusterSize) {
      ClusterMisses(b, chain[i + 1], chain[0]);
    }
    LayElsewhere(written, b, chain[1..], content[n..], offset, b.clusterSize);
    ReadWritten(image, offset, content[..n], b.clusterSize);
  }

  /** A full cluster is read whole. */
  lemma FullCluster(image: seq<byte>, b: BootSector, cluster: nat)
    requires cluster >= 2 && ClusterOffset(b, cluster) + b.clusterSize <= |image|
    ensures |ClusterData(image, b, cluster)| == b.clusterSize
  {}

  /** What was laid over a chain is what the chain's data begins with. */
  lemma {:induction false} LaidIsRead(image: seq<byte>, b: BootSector, chain: seq<nat>, content: seq<byte>)
    requires InBounds(|image|, b, chain) && NoRepeat(chain) && |content| <= |chain| * b.clusterSize
    ensures content <= ChainData(Lay(image, b, chain, content), b, chain)
    decreases |chain|
  {
    if chain == [] {
    } else {
      RoomStep(|chain|, b.clusterSize, |content|);
      hide ClusterOffset, ReadAt, WriteAt, ClusterData;
      var n := Min(b.clusterSize, |content|);
      var laid := Lay(image, b, chain, content);
      FirstStays(image, b, chain, content);
      FullCluster(laid, b, chain[0]);
      LaidIsRead(WriteAt(image, ClusterOffset(b, chain[0]), content[..n]), b, chain[1..], content[n..]);
      PrefixJoin(content, n, ClusterData(laid, b, chain[0]), ChainData(laid, b, chain[1..]));
    }
  }

  lemma PrefixJoin<T>(s: seq<T>, n: nat, a: seq<T>, b: seq<T>)
    requires n <= |s| && s[..n] <= a && s[n..] <= b && (|a| == n || n == |s|)
    ensures s <= a + b
  {}

  /** The table reads the same after a file was laid. */
  lemma NextStays(image: seq<byte>, b: BootSector, chain: seq<nat>, content: seq<byte>, cluster: nat)
    requires InBounds(|image|, b, chain) && SlotBeforeData(b, cluster)
    ensures Next(Lay(image, b, chain, content), b, cluster) == Next(image, b, cluster)
  {
    hide Lay, Misses, SlotBeforeData, ReadAt, ClusterOffset;
    var offset := b.fatStart + cluster * 4;
    forall i | 0 <= i < |chain| ensures Misses(b, chain[i], offset, 4) { SlotMisses(b, chain[i], cluster); }
    LayElsewhere(image, b, chain, content, offset, 4);
  }

  lemma SlotMisses(b: BootSector, c: nat, cluster: nat)
    requires c >= 2 && SlotBeforeData(b, cluster)
    ensures Misses(b, c, b.fatStart + cluster * 4, 4)
  {}

  /** The chain of the directory entry: it starts at `start`, and the table ends it. */
  ghost predicate EndedChain(image: seq<byte>, b: BootSector, chain: seq<nat>)
  {
    chain != [] && Walk(image, b, chain[0], chain) && EndOfChain(Next(image, b, chain[|chain| - 1]))
  }

  lemma EndedChainStays(image: seq<byte>, b: BootSector, chain: seq<nat>, content: seq<byte>)
    requires WellPlaced(|image|, b, chain) && EndedChain(image, b, chain)
    ensures EndedChain(Lay(image, b, chain, content), b, chain)
  {
    hide Next, Lay, InBounds, SlotBeforeData;
    forall i | 0 <= i < |chain| ensures Next(Lay(image, b, chain, content), b, chain[i]) == Next(image, b, chain[i]) {
      assert SlotBeforeData(b, chain[i]);
      NextStays(image, b, chain, content, chain[i]);
    }
  }

  /** The walk reads an ended chain whole. */
  lemma EndedChainIsRead(image: seq<byte>, b: BootSector, chain: seq<nat>, limit: nat)
    requires EndedChain(image, b, chain) && |chain| <= limit
    ensures Follow(image, b, chain[0], [], limit) == (chain, Complete)
  {
    hide Next, Follow, Walk;
    ResultIsUnique(image, b, chain[0], limit, chain, Complete);
  }

  /** A file laid over a chain that the table ends is recovered byte for byte. */
  lemma LaidFileIsRecovered(image: seq<byte>, b: BootSector, chain: seq<nat>, content: seq<byte>)
    requires WellPlaced(|image|, b, chain) && EndedChain(image, b, chain) && |chain| <= ChainLimit(0)
    requires 0 < |content| <= |chain| * b.clusterSize
    ensures RecoveryOf(Lay(image, b, chain, content), b, Entry(false, chain[0], |content|))
         == Recovery(chain, content, Recovered, [])
  {
    hide Lay, Follow, ChainData, Next;
    var laid := Lay(image, b, chain, content);
    EndedChainStays(image, b, chain, content);
    EndedChainIsRead(laid, b, chain, ChainLimit(0));
    LaidIsRead(image, b, chain, content);
    assert ValidData(chain[0]);
    assert Cut(ChainData(laid, b, chain), |content|) == content;
  }
}
