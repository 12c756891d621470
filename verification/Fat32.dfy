/** FAT32 cluster chains, and the recovery of a deleted file from one. */
module Fat32 {
  import opened RawImage

  /** The numbers the fields of a boot sector work out to. */
  datatype BootSector = BootSector(clusterSize: nat, fatStart: nat, dataStart: nat)

  function FromFields(bytesPerSector: nat, sectorsPerCluster: nat, reservedSectors: nat, fatCount: nat,
                      fatSizeSectors: nat): BootSector
  {
    BootSector(bytesPerSector * sectorsPerCluster,
               reservedSectors * bytesPerSector,
               (reservedSectors + fatCount * fatSizeSectors) * bytesPerSector)
  }

  const EOC_MIN := 0x0FFF_FFF8
  const EOC_MAX := 0x0FFF_FFFF
  const BAD_CLUSTER := 0x0FFF_FFF7
  const FREE_CLUSTER := 0

  predicate EndOfChain(value: int) { EOC_MIN <= value <= EOC_MAX }

  predicate ValidData(value: int) { 2 <= value <= 0x0FFF_FFF6 }

  datatype ChainStatus = Complete | BadCluster | TruncatedFree | FreeStart | InvalidCluster | LoopDetected | ZeroNext

  // ---- the table ----

  function LittleEndian(data: seq<byte>): nat
    requires |data| == 4
  {
    data[0] as nat + 0x100 * data[1] as nat + 0x1_0000 * data[2] as nat + 0x100_0000 * data[3] as nat
  }

  /** `get_next_cluster`: the low 28 bits of the slot, or the end of the chain when the slot is not in the image. */
  function Next(image: seq<byte>, b: BootSector, cluster: nat): (r: nat)
    ensures r <= EOC_MAX
    ensures var at := b.fatStart + 4 * cluster;
      r == if at + 4 > |image| then 0x0FFF_FFFF
           else (image[at] as nat + 256 * image[at + 1] as nat + 65536 * image[at + 2] as nat
                 + 16777216 * image[at + 3] as nat) % 0x1000_0000
  {
    var offset := b.fatStart + cluster * 4;
    if offset + 4 > |image| then EOC_MAX
    else LittleEndian(ReadAt(image, offset, 4)) % 0x1000_0000
  }

  function ChainLimit(maxClusters: int): nat { if maxClusters > 0 then maxClusters else 10_000_000 }

  /** Why the walk stops at a value that is no data cluster. */
  function StopStatus(cluster: int, seen: seq<nat>): ChainStatus
  {
    if EndOfChain(cluster) then Complete
    else if cluster == BAD_CLUSTER then BadCluster
    else if cluster == FREE_CLUSTER then (if seen != [] then TruncatedFree else FreeStart)
    else InvalidCluster
  }

  /** The walk from `cluster` after the clusters `seen`, with `limit` rounds left. */
  function Follow(image: seq<byte>, b: BootSector, cluster: int, seen: seq<nat>, limit: nat): (seq<nat>, ChainStatus)
    decreases limit
  {
    if limit == 0 then (seen, Complete)
    else if !ValidData(cluster) then (seen, StopStatus(cluster, seen))
    else if cluster in seen then (seen, LoopDetected)
    else if Next(image, b, cluster) == 0 then (seen + [cluster], ZeroNext)
    else Follow(image, b, Next(image, b, cluster), seen + [cluster], limit - 1)
  }

  /** `read_cluster_chain`. */
  method ReadClusterChain(image: seq<byte>, b: BootSector, startCluster: int, maxClusters: int)
    returns (chain: seq<nat>, status: ChainStatus)
    ensures (chain, status) == Follow(image, b, startCluster, [], ChainLimit(maxClusters))
    ensures ChainResult(image, b, startCluster, if maxClusters > 0 then maxClusters else 10_000_000, chain, status)
  {
    hide Next, ChainResult;
    ghost var walk := Follow(image, b, startCluster, [], ChainLimit(maxClusters));
    ResultIsUnique(image, b, startCluster, ChainLimit(maxClusters), walk.0, walk.1);
    chain := [];
    var cluster := startCluster;
    status := Complete;
    var limit := ChainLimit(maxClusters);
    for i := 0 to limit
      invariant status == Complete
      invariant Follow(image, b, cluster, chain, limit - i) == Follow(image, b, startCluster, [], limit)
    {
      if !ValidData(cluster) {
        status := StopStatus(cluster, chain);
        return;
      }
      if cluster in chain {
        status := LoopDetected;
        return;
      }
      chain := chain + [cluster];
      cluster := Next(image, b, cluster);
      if cluster == 0 {
        status := ZeroNext;
        return;
      }
    }
  }

  // ---- what the walk returns ----

  ghost predicate Linked(image: seq<byte>, b: BootSector, chain: seq<nat>)
  {
    forall i :: 0 <= i < |chain| - 1 ==> chain[i + 1] == Next(image, b, chain[i])
  }

  ghost predicate AllData(chain: seq<nat>) { forall i :: 0 <= i < |chain| ==> ValidData(chain[i]) }

  ghost predicate NoRepeat(chain: seq<nat>) { forall i, j :: 0 <= i < j < |chain| ==> chain[i] != chain[j] }

  /** The value the walk meets after `chain`. */
  function Following(image: seq<byte>, b: BootSector, start: int, chain: seq<nat>): int
  {
    if chain == [] then start else Next(image, b, chain[|chain| - 1])
  }

  /** A walk from `start` along the table: data clusters, each the successor of the one before, none twice. */
  ghost predicate Walk(image: seq<byte>, b: BootSector, start: int, chain: seq<nat>)
  {
    AllData(chain) && NoRepeat(chain) && Linked(image, b, chain) && (chain != [] ==> chain[0] == start)
  }

  /** What each status says about the value after the chain. */
  predicate Explains(status: ChainStatus, next: int, chain: seq<nat>, limit: nat)
  {
    match status
    case Complete => EndOfChain(next) || (|chain| == limit && (chain != [] ==> next != 0))
    case BadCluster => next == BAD_CLUSTER && |chain| < limit
    case TruncatedFree => false
    case FreeStart => next == 0 && chain == [] && |chain| < limit
    case InvalidCluster => !ValidData(next) && !EndOfChain(next) && next != BAD_CLUSTER && next != 0 && |chain| < limit
    case LoopDetected => next in chain && |chain| < limit
    case ZeroNext => next == 0 && chain != []
  }

  ghost predicate ChainResult(image: seq<byte>, b: BootSector, start: int, limit: nat, chain: seq<nat>,
                              status: ChainStatus)
  {
    Walk(image, b, start, chain) && |chain| <= limit
      && Explains(status, Following(image, b, start, chain), chain, limit)
  }

  lemma WalkSnoc(image: seq<byte>, b: BootSector, start: int, chain: seq<nat>)
    requires Walk(image, b, start, chain)
    requires var next := Following(image, b, start, chain); ValidData(next) && next !in chain
    ensures Walk(image, b, start, chain + [Following(image, b, start, chain)])
  {
    hide Next;
  }

  lemma {:induction false} FollowFrom(image: seq<byte>, b: BootSector, start: int, seen: seq<nat>, limit: nat,
                                      left: nat)
    requires Walk(image, b, start, seen) && |seen| + left == limit
    requires seen != [] ==> Following(image, b, start, seen) != 0
    ensures var r := Follow(image, b, Following(image, b, start, seen), seen, left);
      forall chain, status :: r == (chain, status) ==> ChainResult(image, b, start, limit, chain, status)
    decreases left
  {
    hide Next, Walk;
    var next := Following(image, b, start, seen);
    if left > 0 && ValidData(next) && next !in seen {
      WalkSnoc(image, b, start, seen);
      if Next(image, b, next) != 0 { FollowFrom(image, b, start, seen + [next], limit, left - 1); }
    }
  }

  lemma {:induction false} ResultIsFollow(image: seq<byte>, b: BootSector, start: int, limit: nat, seen: seq<nat>,
                                          left: nat,
                                          chain: seq<nat>, status: ChainStatus)
    requires ChainResult(image, b, start, limit, chain, status) && seen <= chain && |seen| + left == limit
    requires seen != [] ==> Following(image, b, start, seen) != 0
    ensures Follow(image, b, Following(image, b, start, seen), seen, left) == (chain, status)
    decreases left
  {
    hide Next;
    var next := Following(image, b, start, seen);
    if |chain| > |seen| {
      assert chain[|seen|] == next;
      assert seen + [next] <= chain;
      if Next(image, b, next) == 0 {
        if |seen| < |chain| - 1 { SuccessorIsData(image, b, start, chain, |seen|); }
        assert chain == seen + [next];
      } else {
        ResultIsFollow(image, b, start, limit, seen + [next], left - 1, chain, status);
      }
    } else {
      assert seen == chain;
    }
  }

  lemma SuccessorIsData(image: seq<byte>, b: BootSector, start: int, chain: seq<nat>, i: nat)
    requires Walk(image, b, start, chain) && i < |chain| - 1
    ensures Next(image, b, chain[i]) >= 2
  {
    hide Next;
    assert ValidData(chain[i + 1]);
  }

  /** The walk returns a chain and a status as the table demands, and there is no other: it cannot stop early, go on,
      or misname its end. */
  lemma ResultIsUnique(image: seq<byte>, b: BootSector, start: int, limit: nat, chain: seq<nat>, status: ChainStatus)
    ensures ChainResult(image, b, start, limit, chain, status)
      <==> Follow(image, b, start, [], limit) == (chain, status)
  {
    hide Next, Follow, ChainResult;
    FollowFrom(image, b, start, [], limit, limit);
    if ChainResult(image, b, start, limit, chain, status) {
      ResultIsFollow(image, b, start, limit, [], limit, chain, status);
    }
  }

  /** The status in numbers, when the limit is not used up: what the slot of the last cluster leads to, or the start. */
  lemma StatusMeans(image: seq<byte>, b: BootSector, start: int, limit: nat, chain: seq<nat>, status: ChainStatus)
    requires Follow(image, b, start, [], limit) == (chain, status) && |chain| < limit
    ensures var next := if chain == [] then start else Next(image, b, chain[|chain| - 1]);
      && status == (if 0x0FFF_FFF8 <= next <= 0x0FFF_FFFF then Complete
                    else if next == 0x0FFF_FFF7 then BadCluster
                    else if next == 0 then (if chain == [] then FreeStart else ZeroNext)
                    else if 2 <= next <= 0x0FFF_FFF6 then LoopDetected
                    else InvalidCluster)
      && (2 <= next <= 0x0FFF_FFF6 <==> next in chain)
  {
    hide Next, Follow, Linked, NoRepeat;
    ResultIsUnique(image, b, start, limit, chain, status);
  }

  // ---- how long a chain can be ----

  /** The slots of the table that lie in the image. */
  function Slots(image: seq<byte>, b: BootSector): nat
  {
    if |image| < b.fatStart then 0 else (|image| - b.fatStart) / 4
  }

  lemma {:induction false} Pigeonhole(chain: seq<nat>, n: nat)
    requires NoRepeat(chain) && forall i :: 0 <= i < |chain| ==> 2 <= chain[i] < n
    ensures |chain| <= Max(0, n - 2)
    decreases n
  {
    if chain == [] {
    } else {
      assert 2 <= chain[0] < n;
      if k :| 0 <= k < |chain| && chain[k] == n - 1 {
        var rest := chain[..k] + chain[k + 1..];
        forall i, j | 0 <= i < j < |rest| ensures rest[i] != rest[j] {
          assert rest[i] == chain[if i < k then i else i + 1] && rest[j] == chain[if j < k then j else j + 1];
        }
        Pigeonhole(rest, n - 1);
      } else {
        Pigeonhole(chain, n - 1);
      }
    }
  }

  /** No chain is longer than the table: each cluster but the last has its slot in the image. */
  lemma ChainIsBounded(image: seq<byte>, b: BootSector, start: int, chain: seq<nat>)
    requires Walk(image, b, start, chain)
    ensures |chain| <= Max(1, Slots(image, b) - 1)
  {
    if |chain| > 1 {
      var init := chain[..|chain| - 1];
      forall i | 0 <= i < |init| ensures 2 <= init[i] < Slots(image, b) {
        assert ValidData(chain[i]) && ValidData(chain[i + 1]) && chain[i + 1] == Next(image, b, chain[i]);
        SlotInImage(image, b, chain[i]);
      }
      hide Slots, Next;
      Pigeonhole(init, Slots(image, b));
    }
  }

  lemma SlotInImage(image: seq<byte>, b: BootSector, cluster: nat)
    ensures Next(image, b, cluster) != EOC_MAX ==> cluster < Slots(image, b)
  {}

  /** When the limit exceeds what the table can hold, `ok` means that the end of the chain was read. */
  lemma CompleteMeansEnd(image: seq<byte>, b: BootSector, start: int, limit: nat)
    requires limit > Max(1, Slots(image, b) - 1)
    ensures var (chain, status) := Follow(image, b, start, [], limit);
      status == Complete <==> EndOfChain(Following(image, b, start, chain))
  {
    hide Next, Slots, Follow, Linked, NoRepeat;
    var (chain, status) := Follow(image, b, start, [], limit);
    ResultIsUnique(image, b, start, limit, chain, status);
    ChainIsBounded(image, b, start, chain);
  }

  // ---- the data of a chain ----

  function ClusterOffset(b: BootSector, cluster: nat): nat
    requires cluster >= 2
  {
    b.dataStart + (cluster - 2) * b.clusterSize
  }

  /** `read_cluster_data`. */
  function ClusterData(image: seq<byte>, b: BootSector, cluster: nat): seq<byte>
  {
    if cluster < 2 then [] else ReadAt(image, ClusterOffset(b, cluster), b.clusterSize)
  }

  function ChainData(image: seq<byte>, b: BootSector, chain: seq<nat>): seq<byte>
  {
    if chain == [] then [] else ClusterData(image, b, chain[0]) + ChainData(image, b, chain[1..])
  }

  lemma {:induction false} ChainDataSnoc(image: seq<byte>, b: BootSector, chain: seq<nat>, cluster: nat)
    ensures ChainData(image, b, chain + [cluster]) == ChainData(image, b, chain) + ClusterData(image, b, cluster)
  {
    hide ClusterData;
    if chain == [] {
      assert (chain + [cluster])[1..] == [];
    } else {
      assert (chain + [cluster])[1..] == chain[1..] + [cluster];
      ChainDataSnoc(image, b, chain[1..], cluster);
    }
  }

  /** `read_chain_data`. */
  method ReadChainData(image: seq<byte>, b: BootSector, chain: seq<nat>) returns (data: seq<byte>)
    ensures data == ChainData(image, b, chain)
  {
    hide ClusterData;
    data := [];
    for i := 0 to |chain|
      invariant data == ChainData(image, b, chain[..i])
    {
      assert chain[..i + 1] == chain[..i] + [chain[i]];
      ChainDataSnoc(image, b, chain[..i], chain[i]);
      data := data + ClusterData(image, b, chain[i]);
    }
    assert chain[..|chain|] == chain;
  }
}
