/**
  Cluster chains of a FAT32 volume, the walk along them with its cache of the last position,
  and where the bytes of a file lie on the device.
 */
module Fat32Chain {
  import opened Arith
  import opened Common

  /** The cluster after `cluster`; entries outside the range of data clusters end a chain. */
  function NextCluster(fat: seq<nat>, cluster: nat): (n: Option<nat>)
    ensures n.Some? ==> 2 <= n.value < 0x0FFF_FFF8
  {
    if cluster < |fat| && 2 <= fat[cluster] < 0x0FFF_FFF8 then Some(fat[cluster]) else None
  }

  /** The cluster `n` steps after `cluster`, if the chain goes that far. */
  function Nth(fat: seq<nat>, cluster: nat, n: nat): Option<nat> {
    if n == 0 then Some(cluster)
    else match Nth(fat, cluster, n - 1)
      case None => None
      case Some(c) => NextCluster(fat, c)
  }

  /** Walking on from a point of the chain. */
  lemma {:induction false} NthAdd(fat: seq<nat>, cluster: nat, i: nat, n: nat)
    requires Nth(fat, cluster, i).Some?
    ensures Nth(fat, cluster, i + n) == Nth(fat, Nth(fat, cluster, i).value, n)
  {
    if n > 0 { NthAdd(fat, cluster, i, n - 1); }
  }

  /** A chain that ends stays ended. */
  lemma {:induction false} NthEnded(fat: seq<nat>, cluster: nat, i: nat, n: nat)
    requires i <= n && Nth(fat, cluster, i).None?
    ensures Nth(fat, cluster, n).None?
  {
    if i < n { NthEnded(fat, cluster, i, n - 1); }
  }

  // ---------------------------------------------------------------- the walk hint

  class FileInfo {
    const entryCluster: nat
    const fileSize: nat
    /** Position and cluster number of the last step walked, packed in 64 bits; 0 when there is none. */
    var walkHint: nat

    constructor (entry: nat, size: nat)
      ensures entryCluster == entry && fileSize == size && walkHint == 0
    {
      entryCluster, fileSize, walkHint := entry, size, 0;
    }

    /** The hint is empty or names the true cluster at its position. */
    ghost predicate HintOk(fat: seq<nat>)
      reads this
    {
      walkHint % 0x1_0000_0000 < 2 || Nth(fat, entryCluster, walkHint / 0x1_0000_0000) == Some(walkHint % 0x1_0000_0000)
    }

    method WalkStart(clustersToSkip: nat) returns (cluster: nat, index: nat)
      ensures index <= clustersToSkip
      ensures forall fat: seq<nat> :: HintOk(fat) ==> Nth(fat, entryCluster, index) == Some(cluster)
    {
      var hintIndex, hintCluster := walkHint / 0x1_0000_0000, walkHint % 0x1_0000_0000;
      if hintCluster >= 2 && hintIndex <= clustersToSkip {
        return hintCluster, hintIndex;
      }
      return entryCluster, 0;
    }

    method UpdateWalkHint(index: nat, cluster: nat)
      requires cluster < 0x1_0000_0000
      modifies this`walkHint
      ensures walkHint / 0x1_0000_0000 == index && walkHint % 0x1_0000_0000 == cluster
    {
      walkHint := index * 0x1_0000_0000 + cluster;
      DivStep(index, cluster, 0x1_0000_0000);
    }

    /**
      Walks to the cluster that holds a request's first byte. The hint never changes the
      answer: it is that of a walk from the entry cluster, also when the chain is too short.
     */
    method WalkTo(fat: seq<nat>, clustersToSkip: nat) returns (cluster: Option<nat>)
      requires HintOk(fat)
      modifies this`walkHint
      ensures HintOk(fat)
      ensures cluster == Nth(fat, entryCluster, clustersToSkip)
    {
      var c, i := WalkStart(clustersToSkip);
      while i < clustersToSkip
        invariant i <= clustersToSkip && HintOk(fat) && Nth(fat, entryCluster, i) == Some(c)
      {
        var next := NextCluster(fat, c);
        if next.None? {
          NthEnded(fat, entryCluster, i + 1, clustersToSkip);
          return None;
        }
        c := next.value;
        UpdateWalkHint(i + 1, c);
        i := i + 1;
      }
      cluster := Some(c);
    }
  }

  // ---------------------------------------------------------------- geometry

  /** `base`: first byte of the volume on the device. */
  datatype Geometry = Geometry(base: nat, bytesPerSector: nat, sectorsPerCluster: nat, reservedSectors: nat,
    numberOfFats: nat, fatSectors: nat)

  predicate ValidGeometry(g: Geometry) {
    g.bytesPerSector > 0 && g.sectorsPerCluster > 0
  }

  function BytesPerCluster(g: Geometry): nat { g.sectorsPerCluster * g.bytesPerSector }

  function ClusterToSector(g: Geometry, cluster: nat): nat
    requires cluster >= 2
  {
    g.reservedSectors + g.numberOfFats * g.fatSectors + (cluster - 2) * g.sectorsPerCluster
  }

  /** The device address of a sector. */
  function SectorAddress(g: Geometry, sector: nat): nat { g.base + sector * g.bytesPerSector }

  function ClusterAddress(g: Geometry, cluster: nat): nat
    requires cluster >= 2
  {
    SectorAddress(g, ClusterToSector(g, cluster))
  }

  /** Where file allocation table `k` starts: the tables follow the reserved sectors. */
  ghost function FatStart(g: Geometry, k: nat): nat {
    g.base + g.reservedSectors * g.bytesPerSector + k * (g.fatSectors * g.bytesPerSector)
  }

  /** The first byte behind the reserved sectors and all file allocation tables. */
  ghost function DataStart(g: Geometry): nat { FatStart(g, g.numberOfFats) }

  /** Clusters fill the data area from its first byte on, number 2 first. */
  lemma ClusterPlace(g: Geometry, cluster: nat)
    requires cluster >= 2
    ensures ClusterAddress(g, cluster) == DataStart(g) + (cluster - 2) * BytesPerCluster(g)
    ensures ClusterAddress(g, 2) == DataStart(g)
    ensures g.numberOfFats > 0 ==>
      DataStart(g) == FatStart(g, g.numberOfFats - 1) + g.fatSectors * g.bytesPerSector
  {
    var b := g.bytesPerSector;
    Distribute(g.reservedSectors + g.numberOfFats * g.fatSectors, (cluster - 2) * g.sectorsPerCluster, b);
    Distribute(g.reservedSectors, g.numberOfFats * g.fatSectors, b);
    Associate(g.numberOfFats, g.fatSectors, b);
    Associate(cluster - 2, g.sectorsPerCluster, b);
    if g.numberOfFats > 0 { Distribute(g.numberOfFats - 1, 1, g.fatSectors * b); }
  }

  lemma ClusterSize(g: Geometry)
    requires ValidGeometry(g)
    ensures BytesPerCluster(g) >= g.bytesPerSector > 0
  {
  }

  lemma Distribute(a: nat, b: nat, c: nat)
    ensures (a + b) * c == a * c + b * c
  {
  }

  lemma Associate(a: nat, b: nat, c: nat)
    ensures (a * b) * c == a * (b * c)
  {
  }

  /** Consecutive clusters are consecutive on the device. */
  lemma ClusterAddressStep(g: Geometry, cluster: nat, k: nat)
    requires cluster >= 2
    ensures ClusterAddress(g, cluster + k) == ClusterAddress(g, cluster) + k * BytesPerCluster(g)
  {
  }

  /** A table entry that numbers a data cluster. */
  predicate IsCluster(entry: nat) { 2 <= entry < 0x0FFF_FFF8 }

  /** The table's entry for `cluster` is the data cluster at position `i` of the chain. */
  ghost predicate Leads(fat: seq<nat>, cluster: nat, chain: seq<nat>, i: nat)
    requires i < |chain|
  {
    cluster < |fat| && fat[cluster] == chain[i] && IsCluster(chain[i])
  }

  /**
    `chain` is the whole cluster chain of a file: each cluster's entry in the table is the
    number of the next one, and the last cluster has no entry or one that is no cluster.
   */
  ghost predicate ChainIs(fat: seq<nat>, entry: nat, chain: seq<nat>) {
    && |chain| > 0 && chain[0] == entry && entry >= 2
    && (forall i :: 0 <= i < |chain| - 1 ==> Leads(fat, chain[i], chain, i + 1))
    && (chain[|chain| - 1] < |fat| ==> !IsCluster(fat[chain[|chain| - 1]]))
  }

  /** The walk finds the chain. */
  lemma ChainStep(fat: seq<nat>, entry: nat, chain: seq<nat>)
    requires ChainIs(fat, entry, chain)
    ensures forall i :: 0 <= i < |chain| - 1 ==> NextCluster(fat, chain[i]) == Some(chain[i + 1])
    ensures NextCluster(fat, chain[|chain| - 1]) == None
  {
    forall i | 0 <= i < |chain| - 1 ensures NextCluster(fat, chain[i]) == Some(chain[i + 1]) {
      assert Leads(fat, chain[i], chain, i + 1);
    }
  }

  lemma {:induction false} ChainNth(fat: seq<nat>, entry: nat, chain: seq<nat>, n: nat)
    requires ChainIs(fat, entry, chain)
    ensures n < |chain| ==> Nth(fat, entry, n) == Some(chain[n]) && chain[n] >= 2
    ensures n >= |chain| ==> Nth(fat, entry, n) == None
  {
    if n > 0 { ChainNth(fat, entry, chain, n - 1); }
  }

  /** Where byte `j` of a file is on the device: in the data area, counted in clusters from number 2. */
  ghost function ByteAddress(g: Geometry, chain: seq<nat>, j: nat): (a: nat)
    requires ValidGeometry(g)
    requires BytesPerCluster(g) > 0 && j / BytesPerCluster(g) < |chain| && chain[j / BytesPerCluster(g)] >= 2
    ensures a == ClusterAddress(g, chain[j / BytesPerCluster(g)]) + j % BytesPerCluster(g)
  {
    ClusterPlace(g, chain[j / BytesPerCluster(g)]);
    DataStart(g) + (chain[j / BytesPerCluster(g)] - 2) * BytesPerCluster(g) + j % BytesPerCluster(g)
  }

  /** Clusters first..last of the file are physically consecutive. */
  ghost predicate Consecutive(chain: seq<nat>, first: nat, last: nat)
    requires first <= last < |chain|
  {
    forall k :: first <= k <= last ==> chain[k] == chain[first] + (k - first)
  }

  /** The bytes of consecutive clusters follow one another on the device. */
  lemma ByteAddressRun(g: Geometry, chain: seq<nat>, first: nat, last: nat, x: nat)
    requires ValidGeometry(g) && BytesPerCluster(g) > 0 && first <= last < |chain| && Consecutive(chain, first, last)
      && chain[first] >= 2
    requires x < (last - first + 1) * BytesPerCluster(g)
    ensures var j := first * BytesPerCluster(g) + x;
      && first <= j / BytesPerCluster(g) <= last && chain[j / BytesPerCluster(g)] >= 2
      && ByteAddress(g, chain, j) == ClusterAddress(g, chain[first]) + x
  {
    hide ClusterAddress;
    var n := BytesPerCluster(g);
    var q, r := x / n, x % n;
    assert x == n * q + r;
    assert q <= last - first by { QuotientBound(x, n, last - first + 1); }
    Distribute(first, q, n);
    DivStep(first + q, r, n);
    assert first * n + x == (first + q) * n + r;
    ClusterAddressStep(g, chain[first], q);
  }

  lemma QuotientBound(x: nat, n: nat, m: nat)
    requires n > 0 && x < m * n
    ensures x / n < m
  {
  }
}
