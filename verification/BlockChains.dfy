// Files whose bytes lie in clusters all over a device: the clusters of a FAT chain, or the zones
// of a minix file.  The first two numbers name no cluster in either.

module BlockChains {
  import opened FlatBlocks
  import opened Sequences

  const FIRST_CLUSTER := 2

  // Where a cluster's bytes begin on the device.
  function Start(dataStart: nat, size: nat, cluster: nat): nat
    requires FIRST_CLUSTER <= cluster
  {
    dataStart + Offset(cluster - FIRST_CLUSTER, size)
  }

  predicate Fits(disk: seq<byte>, dataStart: nat, size: nat, cluster: nat) {
    FIRST_CLUSTER <= cluster && Start(dataStart, size, cluster) + size <= |disk|
  }

  function Cluster(disk: seq<byte>, dataStart: nat, size: nat, cluster: nat): (block: Block)
    requires Fits(disk, dataStart, size, cluster)
    ensures |block| == size
  {
    disk[Start(dataStart, size, cluster)..Start(dataStart, size, cluster) + size]
  }

  predicate ChainFits(disk: seq<byte>, dataStart: nat, size: nat, chain: seq<nat>) {
    forall i | 0 <= i < |chain| :: Fits(disk, dataStart, size, chain[i])
  }

  // The clusters of a chain, in its order, as blocks of bytes.
  function Clusters(disk: seq<byte>, dataStart: nat, size: nat, chain: seq<nat>): (blocks: seq<Block>)
    requires ChainFits(disk, dataStart, size, chain)
    ensures |blocks| == |chain| && Uniform(blocks, size)
    ensures forall i | 0 <= i < |chain| :: blocks[i] == Cluster(disk, dataStart, size, chain[i])
  {
    seq(|chain|, i requires 0 <= i < |chain| => Cluster(disk, dataStart, size, chain[i]))
  }

  // k bytes inside one cluster of a chain, seen in the bytes of the whole chain.
  lemma InCluster(disk: seq<byte>, dataStart: nat, size: nat, chain: seq<nat>, i: nat, offset: nat, k: nat)
    requires ChainFits(disk, dataStart, size, chain) && i < |chain| && offset + k <= size
    ensures var at, bytes := Start(dataStart, size, chain[i]) + offset, Flat(Clusters(disk, dataStart, size, chain));
      && at + k <= |disk| && Offset(i, size) + offset + k <= |bytes|
      && disk[at..at + k] == bytes[Offset(i, size) + offset..Offset(i, size) + offset + k]
  {
    hide Flat, Offset, Start, Clusters;
    var start := Start(dataStart, size, chain[i]);
    FlatPeek(Clusters(disk, dataStart, size, chain), size, i, offset, k);
    SliceOfSlice(disk, start, start + size, offset, offset + k);
  }

  // The bytes of a chain in plain numbers: byte r of its part k is byte r of cluster chain[k], and
  // clusters are counted from 2 on.
  lemma ByteOfChain(disk: seq<byte>, dataStart: nat, size: nat, chain: seq<nat>, k: nat, r: nat)
    requires ChainFits(disk, dataStart, size, chain) && k < |chain| && r < size
    ensures 2 <= chain[k] && 0 <= (chain[k] - 2) * size && dataStart + (chain[k] - 2) * size + r < |disk|
    ensures 0 <= k * size && k * size + r < |Flat(Clusters(disk, dataStart, size, chain))|
    ensures Flat(Clusters(disk, dataStart, size, chain))[k * size + r] ==
            disk[dataStart + (chain[k] - 2) * size + r]
  {
    hide Flat, Offset, Clusters;
    var bytes := Flat(Clusters(disk, dataStart, size, chain));
    InCluster(disk, dataStart, size, chain, k, r, 1);
    OffsetIsProduct(k, size);
    OffsetIsProduct(chain[k] - 2, size);
    var at, i := dataStart + (chain[k] - 2) * size + r, k * size + r;
    assert disk[at..at + 1][0] == disk[at] && bytes[i..i + 1][0] == bytes[i];
  }

  lemma ClustersApart(dataStart: nat, size: nat, c: nat, d: nat)
    requires FIRST_CLUSTER <= c && FIRST_CLUSTER <= d && c != d
    ensures
      || Start(dataStart, size, c) + size <= Start(dataStart, size, d)
      || Start(dataStart, size, d) + size <= Start(dataStart, size, c)
  {
    if c < d {
      OffsetMonotone(c - FIRST_CLUSTER, d - FIRST_CLUSTER, size);
    } else {
      OffsetMonotone(d - FIRST_CLUSTER, c - FIRST_CLUSTER, size);
    }
  }

  lemma SpliceElsewhere(s: seq<byte>, at: nat, data: seq<byte>, lo: nat, size: nat)
    requires at + |data| <= |s| && lo + size <= |s| && (lo + size <= at || at + |data| <= lo)
    ensures Splice(s, at, data)[lo..lo + size] == s[lo..lo + size]
  {
  }

  lemma SpliceInside(s: seq<byte>, lo: nat, size: nat, offset: nat, data: seq<byte>)
    requires lo + size <= |s| && offset + |data| <= size
    ensures Splice(s, lo + offset, data)[lo..lo + size] == Splice(s[lo..lo + size], offset, data)
  {
  }

  // Writing inside one cluster changes that cluster and no other cluster at all.
  lemma PatchCluster(disk: seq<byte>, dataStart: nat, size: nat, c: nat, offset: nat, data: seq<byte>)
    requires Fits(disk, dataStart, size, c) && offset + |data| <= size
    ensures var after := Splice(disk, Start(dataStart, size, c) + offset, data);
      && after[..dataStart] == disk[..dataStart]
      && Cluster(after, dataStart, size, c) == Splice(Cluster(disk, dataStart, size, c), offset, data)
      && forall d: nat | d != c && Fits(disk, dataStart, size, d) ::
           Cluster(after, dataStart, size, d) == Cluster(disk, dataStart, size, d)
  {
    hide Offset;
    var start := Start(dataStart, size, c);
    var after := Splice(disk, start + offset, data);
    SpliceElsewhere(disk, start + offset, data, 0, dataStart);
    SpliceInside(disk, start, size, offset, data);
    forall d: nat | d != c && Fits(disk, dataStart, size, d)
      ensures Cluster(after, dataStart, size, d) == Cluster(disk, dataStart, size, d)
    {
      ClustersApart(dataStart, size, d, c);
      SpliceElsewhere(disk, start + offset, data, Start(dataStart, size, d), size);
    }
  }

  // ... and, seen through a chain, writes the chain's bytes.
  lemma PatchChain(disk: seq<byte>, dataStart: nat, size: nat, chain: seq<nat>, i: nat, offset: nat, data: seq<byte>)
    requires ChainFits(disk, dataStart, size, chain) && Distinct(chain) && i < |chain| && offset + |data| <= size
    ensures var after := Splice(disk, Start(dataStart, size, chain[i]) + offset, data);
      && ChainFits(after, dataStart, size, chain)
      && Offset(i, size) + offset + |data| <= |Flat(Clusters(disk, dataStart, size, chain))|
      && Flat(Clusters(after, dataStart, size, chain)) ==
           Splice(Flat(Clusters(disk, dataStart, size, chain)), Offset(i, size) + offset, data)
  {
    hide Flat, Offset, Start, Clusters, Cluster, Splice;
    var after := Splice(disk, Start(dataStart, size, chain[i]) + offset, data);
    var blocks := Clusters(disk, dataStart, size, chain);
    PatchCluster(disk, dataStart, size, chain[i], offset, data);
    assert Clusters(after, dataStart, size, chain) == blocks[i := Splice(blocks[i], offset, data)];
    FlatPatch(blocks, size, i, offset, data);
  }

  // Since disk0, data has been written over the chain's bytes from `from` on, and nothing else.
  ghost predicate Progress(disk0: seq<byte>, disk: seq<byte>, dataStart: nat, size: nat, chain: seq<nat>, from: nat,
                           data: seq<byte>)
  {
    && dataStart <= |disk| == |disk0| && disk[..dataStart] == disk0[..dataStart]
    && ChainFits(disk, dataStart, size, chain) && ChainFits(disk0, dataStart, size, chain)
    && from + |data| <= |Flat(Clusters(disk0, dataStart, size, chain))|
    && Flat(Clusters(disk, dataStart, size, chain)) == Splice(Flat(Clusters(disk0, dataStart, size, chain)), from, data)
    && forall c: nat | c !in chain && Fits(disk, dataStart, size, c) ::
         Cluster(disk, dataStart, size, c) == Cluster(disk0, dataStart, size, c)
  }

  lemma NoProgress(disk: seq<byte>, dataStart: nat, size: nat, chain: seq<nat>, from: nat)
    requires ChainFits(disk, dataStart, size, chain) && from <= |Flat(Clusters(disk, dataStart, size, chain))|
    requires dataStart <= |disk|
    ensures Progress(disk, disk, dataStart, size, chain, from, [])
  {
    hide Flat, Offset, Start, Clusters, Cluster;
  }

  lemma SpliceBefore(s: seq<byte>, from: nat, data: seq<byte>, more: seq<byte>)
    requires from + |data| <= |s|
    ensures Splice(s, from, data) + more == Splice(s + more, from, data)
  {
  }

  lemma ProgressGrows(disk0: seq<byte>, disk: seq<byte>, dataStart: nat, size: nat, chain: seq<nat>, from: nat,
                      data: seq<byte>, c: nat)
    requires Progress(disk0, disk, dataStart, size, chain, from, data)
    requires c !in chain && Fits(disk, dataStart, size, c)
    ensures Progress(disk0, disk, dataStart, size, chain + [c], from, data)
  {
    hide Flat, Offset, Start, Cluster, Splice;
    var block := Cluster(disk, dataStart, size, c);
    var was, now := Clusters(disk0, dataStart, size, chain), Clusters(disk, dataStart, size, chain);
    assert Clusters(disk0, dataStart, size, chain + [c]) == was + [block];
    assert Clusters(disk, dataStart, size, chain + [c]) == now + [block];
    FlatPush(was, block);
    FlatPush(now, block);
    SpliceBefore(Flat(was), from, data, block);
  }

  lemma ProgressWrites(disk0: seq<byte>, disk: seq<byte>, dataStart: nat, size: nat, chain: seq<nat>, from: nat,
                       data: seq<byte>,
                       i: nat, offset: nat, more: seq<byte>)
    requires Progress(disk0, disk, dataStart, size, chain, from, data)
    requires Distinct(chain) && i < |chain| && offset + |more| <= size && from + |data| == Offset(i, size) + offset
    ensures Start(dataStart, size, chain[i]) + offset + |more| <= |disk|
    ensures var after := Splice(disk, Start(dataStart, size, chain[i]) + offset, more);
      Progress(disk0, after, dataStart, size, chain, from, data + more)
  {
    hide Flat, Offset, Start, Clusters, Cluster, Splice;
    PatchCluster(disk, dataStart, size, chain[i], offset, more);
    PatchChain(disk, dataStart, size, chain, i, offset, more);
    SpliceTwice(Flat(Clusters(disk0, dataStart, size, chain)), from, data, more);
  }

  // What was written is what the chain has there, and around it the chain is what it was.
  lemma WrittenIsRead(disk0: seq<byte>, disk: seq<byte>, dataStart: nat, size: nat, chain: seq<nat>, from: nat,
                      data: seq<byte>)
    requires Progress(disk0, disk, dataStart, size, chain, from, data)
    ensures var before := Flat(Clusters(disk0, dataStart, size, chain));
      var after := Flat(Clusters(disk, dataStart, size, chain));
      && |after| == |before| >= from + |data| && after[from..from + |data|] == data
      && after[..from] == before[..from] && after[from + |data|..] == before[from + |data|..]
  {
    hide Flat, Clusters;
    var before := Flat(Clusters(disk0, dataStart, size, chain));
    assert Splice(before, from, data)[from..from + |data|] == data;
  }
}
