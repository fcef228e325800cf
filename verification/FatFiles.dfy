// Files of src/filesys/fat/fat16.c: a stream that walks the chain of its clusters.

module FatFiles {
  import opened FlatBlocks
  import opened BlockChains
  import opened FatGrowth
  import opened FatTable
  import Arithmetic

  class Volume {
    const table: Table
    const size: nat
    const dataStart: nat
    var disk: seq<byte>
    var devPos: nat

    ghost predicate Valid()
      reads this, table, table.fat
    {
      && 0 < size && table.Valid() && dataStart <= |disk|
      && (table.fat.Length > FIRST_CLUSTER ==> Start(dataStart, size, table.fat.Length) <= |disk|)
    }

    ghost function Files(): Files
      reads table, table.fat
    {
      FatGrowth.Files(table.fat[..], table.chains)
    }

    constructor (table: Table, size: nat, dataStart: nat, disk: seq<byte>)
      requires 0 < size && table.Valid() && dataStart <= |disk|
      requires table.fat.Length > FIRST_CLUSTER ==> Start(dataStart, size, table.fat.Length) <= |disk|
      ensures Valid() && this.table == table && this.size == size && this.dataStart == dataStart && this.disk == disk
    {
      this.table, this.size, this.dataStart, this.disk, devPos := table, size, dataStart, disk, 0;
    }

    lemma ClusterFits(cluster: nat)
      requires Valid() && FIRST_CLUSTER <= cluster < table.fat.Length
      ensures Fits(disk, dataStart, size, cluster)
    {
      OffsetMonotone(cluster - FIRST_CLUSTER, table.fat.Length - FIRST_CLUSTER, size);
    }

    lemma ChainOnDisk(chain: seq<nat>)
      requires Valid() && IsChain(table.fat[..], chain)
      ensures ChainFits(disk, dataStart, size, chain)
    {
      forall i | 0 <= i < |chain| ensures Fits(disk, dataStart, size, chain[i]) {
        ClusterFits(chain[i]);
      }
    }

    // fread on the device at its own position.
    method ReadDevice(n: nat) returns (bytes: seq<byte>)
      requires devPos + n <= |disk|
      modifies this`devPos
      ensures devPos == old(devPos) + n && bytes == disk[old(devPos)..devPos]
    {
      bytes := disk[devPos..devPos + n];
      devPos := devPos + n;
    }

    // fwrite likewise.
    method WriteDevice(bytes: seq<byte>)
      requires devPos + |bytes| <= |disk|
      modifies this`devPos, this`disk
      ensures devPos == old(devPos) + |bytes| && disk == Splice(old(disk), old(devPos), bytes)
    {
      disk := disk[..devPos] + bytes + disk[devPos + |bytes|..];
      devPos := devPos + |bytes|;
    }
  }

  // ---- small steps of the proofs ----

  // A chain that is byte for byte what it was.
  ghost predicate SameClusters(disk0: seq<byte>, disk: seq<byte>, dataStart: nat, size: nat, chain: seq<nat>) {
    && ChainFits(disk0, dataStart, size, chain) && ChainFits(disk, dataStart, size, chain)
    && Clusters(disk, dataStart, size, chain) == Clusters(disk0, dataStart, size, chain)
  }

  lemma OffsetStep(i: nat, size: nat)
    ensures Offset(i + 1, size) == Offset(i, size) + size
  {
  }

  lemma {:induction false} NoItems(count: nat, size: nat)
    ensures count == 0 || size == 0 ==> Offset(count, size) == 0
  {
    if 0 < count {
      NoItems(count - 1, size);
    }
  }

  lemma {:induction false} OneByOne(n: nat)
    ensures Offset(n, 1) == n
  {
    if n > 0 {
      OneByOne(n - 1);
    }
  }

  lemma TakeMore(written: seq<byte>, data: seq<byte>, n: nat, more: nat)
    requires n + more <= |data|
    ensures written + data[..n] + data[n..][..more] == written + data[..n + more]
  {
    assert data[..n] + data[n..][..more] == data[..n + more];
    assert written + data[..n] + data[n..][..more] == written + (data[..n] + data[n..][..more]);
  }

  lemma TakeItem(data: seq<byte>, at: nat, size: nat, n: nat)
    requires at + size <= |data| && n <= size
    ensures data[..at] + data[at..at + size][..n] == data[..at + n]
  {
  }

  lemma JoinSlices(s: seq<byte>, a: nat, b: nat, c: nat)
    requires a <= b <= c <= |s|
    ensures s[a..b] + s[b..c] == s[a..c]
  {
  }

  // Where a chain goes from its element number i.
  lemma ChainStep(fat: seq<entry>, chain: seq<nat>, i: nat)
    requires IsChain(fat, chain) && i < |chain| && |fat| <= MAX_CLUSTERS
    ensures chain[i] < |fat| && IsUsed(chain[i])
    ensures IsEof(fat[chain[i]]) <==> i + 1 == |chain|
    ensures i + 1 < |chain| ==> fat[chain[i]] == chain[i + 1]
  {
    assert i + 1 < |chain| ==> fat[chain[i]] == chain[i + 1];
  }

  function Min(a: nat, b: nat): nat {
    if a < b then a else b
  }

  // How many items fat16_fread goes for.
  function CutCount(left: nat, size: nat, count: nat): nat
    requires 0 < size
  {
    Min(count, (left + size - 1) / size)
  }

  // Enough for what is left and less than an item more; all that is asked for if that is left.
  lemma CutEnough(left: nat, size: nat, count: nat)
    requires 0 < size
    ensures Offset(CutCount(left, size, count), size) == size * CutCount(left, size, count)
    ensures size * count <= left ==> CutCount(left, size, count) == count
    ensures size * CutCount(left, size, count) < left + size
    ensures size == 1 ==> CutCount(left, size, count) == Min(left, count)
    ensures 0 < CutCount(left, size, count) ==> size <= size * CutCount(left, size, count)
    ensures size * CutCount(left, size, count) <= size * count
    ensures size * CutCount(left, size, count) >= Min(size * count, left)
  {
    Arithmetic.ProductOrder(size, CutCount(left, size, count), count);
    Arithmetic.MulSign(size, CutCount(left, size, count));
    Arithmetic.ItemsLeft(left, size, count);
    Arithmetic.DivisionLaw(left + size - 1, size);
    OffsetIsProduct(CutCount(left, size, count), size);
    Arithmetic.ProductOrder(size, CutCount(left, size, count), (left + size - 1) / size);
  }

  class FatFile {
    const vol: Volume
    const realFirstCluster: nat
    const lastPosIn: nat
    const lastCluster: nat
    var pos: nat
    var posIn: nat
    var cluster: nat
    var realCluster: nat
    var fileSize: nat
    var eof: bool
    ghost var chain: seq<nat>
    ghost var place: nat

    // The size the stream believes in: the file's when it was opened.
    ghost function Known(): nat {
      Offset(lastCluster, vol.size) + lastPosIn
    }

    // Where the clusters end that such a file takes up.
    ghost function Whole(): nat {
      Offset(if lastPosIn == 0 then lastCluster else lastCluster + 1, vol.size)
    }

    // real_cluster is element number `place` of the file's chain.
    ghost predicate Standing()
      reads this, vol, vol.table, vol.table.fat
    {
      && vol.Valid() && IsChain(vol.table.fat[..], chain) && chain[0] == realFirstCluster
      && lastPosIn < vol.size && Known() <= Offset(|chain|, vol.size)
      && place < |chain| && realCluster == chain[place] && FIRST_CLUSTER <= realCluster && posIn <= vol.size
    }

    // The position in the chain's bytes at which the stream really reads and writes.
    ghost function Spot(): nat
      reads this
    {
      Offset(place, vol.size) + posIn
    }

    // The stream stands where its numbers say: real_cluster is element number `cluster` of the
    // chain, and pos counts the clusters before it.
    ghost predicate Sound()
      reads this, vol, vol.table, vol.table.fat
    {
      Standing() && place == cluster && pos == Spot()
    }

    // As far as a sound stream can read on from cluster c: to the end of that cluster, and of
    // the last one it knows of.
    ghost function Reach(c: nat): nat {
      if Offset(c + 1, vol.size) < Whole() then Whole() else Offset(c + 1, vol.size)
    }

    // The bytes of the whole chain, of which the file is the first fileSize.
    ghost function Bytes(): seq<byte>
      requires Standing()
      reads this, vol, vol.table, vol.table.fat
    {
      vol.ChainOnDisk(chain);
      Flat(Clusters(vol.disk, vol.dataStart, vol.size, chain))
    }

    // The end of fat16_fopen_all, for a directory entry whose chain is long enough.
    constructor (vol: Volume, first: nat, fileSize: nat, ghost chain: seq<nat>)
      requires vol.Valid() && IsChain(vol.table.fat[..], chain) && chain[0] == first
      requires fileSize <= Offset(|chain|, vol.size)
      ensures Sound() && this.vol == vol && this.chain == chain && this.fileSize == Known() == fileSize
      ensures pos == cluster == 0 && realFirstCluster == first
    {
      this.vol, realFirstCluster, this.chain, place := vol, first, chain, 0;
      pos, posIn, cluster, realCluster := 0, 0, 0, first;
      this.fileSize := fileSize;
      lastCluster, lastPosIn := fileSize / vol.size, fileSize % vol.size;
      eof := false;
      new;
      DivOffset(fileSize, vol.size);
    }

    lemma BytesLength()
      requires Standing()
      ensures |Bytes()| == Offset(|chain|, vol.size) && Spot() <= |Bytes()|
    {
      vol.ChainOnDisk(chain);
      FlatLength(Clusters(vol.disk, vol.dataStart, vol.size, chain), vol.size);
      OffsetMonotone(place, |chain|, vol.size);
    }

    // What the last cluster the stream knows of means for a cluster number.
    lemma KnownClusters(c: nat)
      requires Standing()
      ensures Offset(c, vol.size) < Known() <==> Offset(c, vol.size) < Whole()
      ensures Offset(c, vol.size) < Known() ==> Offset(c + 1, vol.size) <= Whole() && c < |chain|
      ensures Offset(c, vol.size) < Known() <==> c < lastCluster || (c == lastCluster && 0 < lastPosIn)
      ensures Known() <= Whole() <= Offset(|chain|, vol.size)
    {
      hide Offset;
      PlaceOrder(c, 0, lastCluster, lastPosIn, vol.size);
      PlaceOrder(|chain|, 0, lastCluster, lastPosIn, vol.size);
      OffsetStep(lastCluster, vol.size);
      var whole := if lastPosIn == 0 then lastCluster else lastCluster + 1;
      OffsetMonotone(whole, |chain|, vol.size);
      if c < whole {
        OffsetMonotone(c + 1, whole, vol.size);
        OffsetStep(c, vol.size);
      } else {
        OffsetMonotone(whole, c, vol.size);
      }
    }

    // fat16_devseek
    method DevSeek()
      requires FIRST_CLUSTER <= realCluster
      modifies vol`devPos
      ensures vol.devPos == Start(vol.dataStart, vol.size, realCluster) + posIn
    {
      OffsetIsProduct(realCluster - FIRST_CLUSTER, vol.size);
      vol.devPos := vol.dataStart + (realCluster - FIRST_CLUSTER) * vol.size + posIn;
    }

    // ---- reading ----

    // fat16_fread_next_cluster, at the start of cluster number `cluster`.
    method NextCluster() returns (ok: bool)
      requires Standing() && cluster == place + 1 && posIn == 0
      modifies this`realCluster, this`place, this`eof
      ensures Standing() && (ok <==> Offset(cluster, vol.size) < Known())
      ensures ok ==> place == cluster
      ensures !ok ==> eof && place == old(place) && realCluster == old(realCluster)
    {
      hide Offset;
      KnownClusters(cluster);
      if cluster > lastCluster {
        eof := true;
        return false;
      }
      if cluster == lastCluster && posIn >= lastPosIn {
        eof := true;
        return false;
      }
      ChainStep(vol.table.fat[..], chain, place);
      realCluster := vol.table.GetFat(realCluster);
      place := cluster;
      return true;
    }

    // At the end of a cluster, on to the next one.
    method Advance() returns (ok: bool)
      requires Sound() && vol.devPos == Start(vol.dataStart, vol.size, realCluster) + posIn
      modifies this`posIn, this`cluster, this`realCluster, this`place, this`eof, vol`devPos
      ensures Standing() && Bytes() == old(Bytes())
      ensures ok <==> old(posIn) < vol.size || Offset(old(cluster) + 1, vol.size) < Known()
      ensures ok ==> Sound() && posIn < vol.size && Reach(cluster) == old(Reach(cluster))
      ensures ok ==> vol.devPos == Start(vol.dataStart, vol.size, realCluster) + posIn
      ensures !ok ==> cluster == place + 1 && posIn == 0 && old(pos) == old(Reach(cluster))
    {
      hide Offset, Flat, Clusters, IsChain;
      OffsetStep(cluster, vol.size);
      KnownClusters(cluster + 1);
      ok := true;
      if posIn >= vol.size {
        posIn := 0;
        cluster := cluster + 1;
        OffsetStep(cluster, vol.size);
        ok := NextCluster();
        if ok {
          DevSeek();
        }
      }
    }

    // One round of the inner loop of fat16_freadwrite, reading; nothing when there is no way on.
    method ReadPiece(sizeRem: nat) returns (bytes: seq<byte>)
      requires Sound() && 0 < sizeRem
      requires vol.devPos == Start(vol.dataStart, vol.size, realCluster) + posIn
      modifies this`pos, this`posIn, this`cluster, this`realCluster, this`place, this`eof, vol`devPos
      ensures Standing() && Bytes() == old(Bytes())
      ensures |bytes| <= sizeRem && pos == old(pos) + |bytes| <= |old(Bytes())|
      ensures bytes == old(Bytes())[old(pos)..pos]
      ensures 0 < |bytes| ==>
        && Sound() && 0 < posIn && Reach(cluster) == old(Reach(cluster))
        && vol.devPos == Start(vol.dataStart, vol.size, realCluster) + posIn
      ensures |bytes| == 0 ==> cluster == place + 1 && posIn == 0 && pos == old(Reach(cluster))
    {
      hide Flat, Offset, Clusters, IsChain;
      BytesLength();
      var ok := Advance();
      if !ok {
        return [];
      }
      var tryRead := sizeRem;
      if tryRead > vol.size - posIn {
        tryRead := vol.size - posIn;
      }
      vol.ChainOnDisk(chain);
      InCluster(vol.disk, vol.dataStart, vol.size, chain, cluster, posIn, tryRead);
      bytes := vol.ReadDevice(tryRead);
      pos := pos + tryRead;
      posIn := posIn + tryRead;
    }

    // The inner loop: one item, or what there is of it.
    method ReadItem(size: nat) returns (bytes: seq<byte>)
      requires Sound() && vol.devPos == Start(vol.dataStart, vol.size, realCluster) + posIn
      modifies this`pos, this`posIn, this`cluster, this`realCluster, this`place, this`eof, vol`devPos
      ensures Standing() && Bytes() == old(Bytes())
      ensures |bytes| <= size && pos == old(pos) + |bytes| <= |old(Bytes())|
      ensures bytes == old(Bytes())[old(pos)..pos]
      ensures |bytes| == size ==>
        && Sound() && Reach(cluster) == old(Reach(cluster)) && (0 < size ==> 0 < posIn)
        && vol.devPos == Start(vol.dataStart, vol.size, realCluster) + posIn
      ensures |bytes| < size ==> cluster == place + 1 && posIn == 0 && pos == old(Reach(cluster))
    {
      hide Flat, Offset, Clusters, IsChain;
      bytes := [];
      BytesLength();
      ghost var all, from, reach := Bytes(), pos, Reach(cluster);
      while |bytes| < size
        invariant |bytes| <= size && pos == from + |bytes| <= |all| && bytes == all[from..pos]
        invariant Sound() && Bytes() == all && Reach(cluster) == reach && (0 < |bytes| ==> 0 < posIn)
        invariant vol.devPos == Start(vol.dataStart, vol.size, realCluster) + posIn
      {
        ghost var at := pos;
        var piece := ReadPiece(size - |bytes|);
        JoinSlices(all, from, at, pos);
        bytes := bytes + piece;
        if |piece| == 0 {
          return;
        }
      }
    }

    lemma ReachBounds()
      requires Sound()
      ensures pos <= Reach(cluster) <= Offset(|chain|, vol.size)
    {
      OffsetStep(cluster, vol.size);
      KnownClusters(cluster);
      OffsetMonotone(cluster + 1, |chain|, vol.size);
    }

    // fat16_freadwrite, reading: what is asked for, as far as the stream can reach.
    method ReadItems(size: nat, count: nat) returns (done: nat, bytes: seq<byte>)
      requires Sound()
      modifies this`pos, this`posIn, this`cluster, this`realCluster, this`place, this`eof, vol`devPos
      ensures Standing() && Bytes() == old(Bytes()) && old(pos) <= old(Reach(cluster))
      ensures pos == Min(old(pos) + Offset(count, size), old(Reach(cluster))) <= |old(Bytes())|
      ensures |bytes| == pos - old(pos) && bytes == old(Bytes())[old(pos)..pos]
      ensures 0 < size ==> Offset(done, size) <= |bytes| && (done == count || |bytes| < Offset(done + 1, size))
      ensures 0 < size ==> (done == count <==> |bytes| == Offset(count, size))
      ensures Sound() <==> |bytes| == Offset(count, size)
      ensures 0 < |bytes| == Offset(count, size) ==> 0 < posIn
      ensures count == 0 || size == 0 ==> cluster == old(cluster)
      ensures |bytes| < Offset(count, size) ==> cluster == place + 1 && posIn == 0
    {
      hide Flat, Clusters, IsChain, Offset;
      done, bytes := 0, [];
      BytesLength();
      NoItems(count, size);
      NoItems(0, size);
      ReachBounds();
      ghost var all, from, reach := Bytes(), pos, Reach(cluster);
      if count == 0 || size == 0 {
        return;
      }
      DevSeek();
      while done < count
        invariant done <= count && pos == from + |bytes| <= |all| && bytes == all[from..pos]
        invariant |bytes| == Offset(done, size) && pos <= reach
        invariant Sound() && Bytes() == all && Reach(cluster) == reach && (0 < done ==> 0 < posIn)
        invariant vol.devPos == Start(vol.dataStart, vol.size, realCluster) + posIn
      {
        ghost var at := pos;
        OffsetStep(done, size);
        OffsetMonotone(done + 1, count, size);
        var item := ReadItem(size);
        JoinSlices(all, from, at, pos);
        bytes := bytes + item;
        if |item| < size {
          return;
        }
        ReachBounds();
        done := done + 1;
      }
    }

    // Where fat16_fread gets to.
    ghost function ReadEnd(size: nat, count: nat): nat
      requires 0 < size
      reads this
    {
      if pos > fileSize then pos
      else Min(pos + size * CutCount(fileSize - pos, size, count), Reach(cluster))
    }

    lemma ItemsOf(size: nat, done: nat, n: nat)
      ensures Offset(done, size) == size * done && Offset(done + 1, size) == size * (done + 1)
    {
      OffsetIsProduct(done, size);
      OffsetIsProduct(done + 1, size);
    }

    lemma WhatIsLeft()
      requires Standing()
      ensures Reach(cluster) >= Known() == lastCluster * vol.size + lastPosIn
    {
      OffsetStep(lastCluster, vol.size);
      OffsetIsProduct(lastCluster, vol.size);
    }

    // In plain numbers: nothing is read from behind the end of the file, no more than is asked for,
    // less than an item more than is left, and all that is left if that much is asked for and the
    // file has not grown since it was opened.
    lemma ReadEndPlainly(size: nat, count: nat)
      requires Sound() && 0 < size
      ensures pos > fileSize ==> ReadEnd(size, count) == pos
      ensures pos <= fileSize ==>
        && 0 <= ReadEnd(size, count) - pos <= size * count && ReadEnd(size, count) < fileSize + size
        && (fileSize == lastCluster * vol.size + lastPosIn ==>
             ReadEnd(size, count) - pos >= if size * count < fileSize - pos then size * count else fileSize - pos)
    {
      ReachBounds();
      WhatIsLeft();
      hide Offset, Reach, Whole, CutCount, Standing, Sound;
      if pos <= fileSize {
        CutEnough(fileSize - pos, size, count);
        Arithmetic.ProductOrder(size, 0, CutCount(fileSize - pos, size, count));
      }
    }

    // fat16_fread: whole items up to the first that would begin behind the end of the file, as
    // far as the stream can reach.  An item that ends behind the end of the file is read from
    // the cluster's slack and counted, if there is enough of that.
    method Read(size: nat, count: nat) returns (done: nat, bytes: seq<byte>)
      requires Sound() && 0 < size
      modifies this`pos, this`posIn, this`cluster, this`realCluster, this`place, this`eof, vol`devPos
      ensures Standing() && Bytes() == old(Bytes())
      ensures old(pos) <= old(ReadEnd(size, count)) <= |old(Bytes())|
      ensures bytes == old(Bytes())[old(pos)..old(ReadEnd(size, count))]
      ensures pos == if old(pos) <= fileSize then Min(old(ReadEnd(size, count)), fileSize) else old(pos)
      ensures size * done <= |bytes| && (|bytes| < size * (done + 1) || done == count)
      // It is right for what lies in the file, and leaves a sound stream exactly when it got all
      // it went for and that lies in the file.
      ensures old(pos) + size * count <= fileSize ==>
        (done == count <==> old(pos) + size * count <= old(Reach(cluster)))
      ensures Sound() <==>
        || old(pos) > fileSize
        || (old(pos) + size * CutCount(fileSize - old(pos), size, count) == old(ReadEnd(size, count)) <= fileSize)
      ensures Sound() ==> if bytes == [] then cluster == old(cluster) else 0 < posIn
    {
      hide Flat, Clusters, Offset, IsChain, ChainFits, CutCount;
      BytesLength();
      if pos > fileSize {
        ReachBounds();
        return 0, [];
      }
      var cut := CutCount(fileSize - pos, size, count);
      CutEnough(fileSize - pos, size, count);
      done, bytes := ReadItems(size, cut);
      ItemsOf(size, done, |bytes|);
      if pos > fileSize {
        pos := fileSize;
      }
    }

    // A position inside the file, in clusters.
    lemma InFile(p: nat)
      requires Standing() && p < Known()
      ensures p / vol.size < |chain|
    {
      hide Offset;
      Arithmetic.DivisionLaw(p, vol.size);
      DivOffset(p, vol.size);
      PlaceOrder(p / vol.size, p % vol.size, |chain|, 0, vol.size);
    }

    // The cluster that the last byte came from.
    lemma ClusterOf()
      requires Sound() && 0 < posIn
      ensures 0 < pos && cluster == (pos - 1) / vol.size
    {
      OffsetIsProduct(cluster, vol.size);
      Arithmetic.DivisionUnique(pos - 1, vol.size, cluster, posIn - 1);
    }

    lemma LastPlace()
      requires Standing()
      ensures Spot() <= Offset(|chain|, vol.size)
    {
      OffsetMonotone(place, |chain|, vol.size);
    }

    // ---- seeking ----

    lemma NextInChain(i: nat)
      requires Standing() && i < |chain|
      ensures chain[i] < vol.table.fat.Length
      ensures i + 1 < |chain| <==> IsUsed(vol.table.fat[chain[i]])
      ensures i + 1 < |chain| ==> vol.table.fat[chain[i]] == chain[i + 1] >= FIRST_CLUSTER
    {
      ChainStep(vol.table.fat[..], chain, i);
      if i + 1 < |chain| {
        ChainStep(vol.table.fat[..], chain, i + 1);
      }
    }

    lemma ChainStart()
      requires Standing()
      ensures chain != [] && FIRST_CLUSTER <= realFirstCluster
    {
    }

    // fat16_fsetpos.  It walks from the start of the chain only to get forward; the number of a
    // cluster behind the current one is taken down without a walk.
    method SetPos(p: nat) returns (result: SeekResult)
      requires Standing()
      modifies this`pos, this`posIn, this`cluster, this`realCluster, this`place, this`eof
      ensures Standing() && Bytes() == old(Bytes())
      ensures result == SeekOk <==> p <= Known() && (p / vol.size <= old(cluster) || p / vol.size < |chain|)
      ensures result == SeekFailed ==>
        pos == old(pos) && posIn == old(posIn) && cluster == old(cluster) && place == old(place)
      ensures result == SeekOk ==>
        && pos == p && cluster == p / vol.size && posIn == p % vol.size
        && place == if p / vol.size <= old(cluster) then old(place) else cluster
      ensures result == SeekOk ==> (Sound() <==> p / vol.size > old(cluster) || p / vol.size == old(place))
      ensures eof == (old(eof) || (p / vol.size == lastCluster && p <= Known()))
    {
      hide Flat, Clusters, IsChain, Offset;
      Arithmetic.DivisionLaw(p, vol.size);
      var target: nat, inside: nat := p / vol.size, p % vol.size;
      DivOffset(p, vol.size);
      PlaceOrder(lastCluster, lastPosIn, target, inside, vol.size);
      if target > lastCluster {
        return SeekFailed;
      }
      if target == lastCluster {
        if inside > lastPosIn {
          return SeekFailed;
        } else {
          eof := true;
        }
      }
      var walked, clus, at := realCluster, cluster, place;
      if target > cluster {
        ChainStart();
        ghost var ended := eof;
        walked, clus, at := realFirstCluster, 0, 0;
        while clus < target
          invariant unchanged(this`cluster, this`realCluster, this`place, this`pos, this`posIn, vol, vol.table.fat)
          invariant eof == ended && at == clus <= target && clus < |chain| && walked == chain[clus]
          invariant FIRST_CLUSTER <= walked
        {
          NextInChain(clus);
          walked := vol.table.GetFat(walked);
          if !IsUsed(walked) {
            return SeekFailed;
          }
          clus := clus + 1;
          at := clus;
        }
      }
      realCluster, place, cluster, posIn, pos := walked, at, target, inside, p;
      assert place == cluster ==> pos == Spot();
      return SeekOk;
    }

    // ---- writing ----

    // The file has chain number k of the table, which may be made longer.
    ghost predicate Owns(k: nat)
      reads this, vol, vol.table, vol.table.fat
    {
      Standing() && k < |vol.table.chains| && chain == vol.table.chains[k]
    }

    lemma FreshCluster(k: nat)
      requires vol.Valid() && k < |vol.table.chains|
      ensures forall c: nat | c < vol.table.fat.Length && IsFree(vol.table.fat[c]) :: c !in vol.table.chains[k]
    {
      forall c: nat | c < vol.table.fat.Length && IsFree(vol.table.fat[c]) ensures c !in vol.table.chains[k] {
        FreeIsOutside(vol.table.fat[..], vol.table.chains, c, k);
      }
    }

    // fat16_fwrite_next_cluster: at the end of the chain, one more cluster, if there is one free.
    method WriteNextCluster(ghost k: nat) returns (ok: bool)
      requires Owns(k)
      modifies this`realCluster, this`place, this`eof, this`chain, vol.table, vol.table.fat
      ensures Owns(k)
      ensures !ok <==> old(place) + 1 == |old(chain)| && NoneFree(old(vol.table.fat[..]))
      ensures !ok ==>
        && chain == old(chain) && vol.table.chains == old(vol.table.chains)
        && vol.table.fat[..] == old(vol.table.fat[..])
        && place == old(place) && realCluster == old(realCluster)
      ensures ok ==>
        && place == old(place) + 1 && HasFile(old(vol.Files()), k)
        && vol.Files() == (if place < |old(chain)| then old(vol.Files()) else Extend(old(vol.Files()), k))
        && chain == (if place < |old(chain)| then old(chain) else old(chain) + [realCluster])
        && FIRST_CLUSTER <= realCluster < vol.table.fat.Length
        && (place == |old(chain)| ==>
             realCluster in FreeSet(old(vol.table.fat[..])) && realCluster !in old(chain))
    {
      hide Offset;
      ChainStep(vol.table.fat[..], chain, place);
      OffsetStep(|chain|, vol.size);
      var new' := vol.table.GetFat(realCluster);
      if IsEof(new') {
        FreshCluster(k);
        ghost var files := vol.Files();
        new' := vol.table.SetNextCluster(realCluster, k);
        if IsEof(new') {
          eof := true;
          return false;
        }
        LowestIs(files.fat, new');
        chain := vol.table.chains[k];
      }
      realCluster := new';
      place := place + 1;
      return true;
    }

    // At the end of a cluster, on to the next one, which may have to be a new one.
    method AdvanceWriting(ghost k: nat, ghost disk0: seq<byte>, ghost from: nat, ghost data: seq<byte>)
      returns (ok: bool)
      requires Owns(k) && vol.devPos == Start(vol.dataStart, vol.size, realCluster) + posIn
      requires Progress(disk0, vol.disk, vol.dataStart, vol.size, chain, from, data)
      modifies this`posIn, this`cluster, this`realCluster, this`place, this`eof, this`chain, vol`devPos, vol.table
      modifies vol.table.fat
      ensures Owns(k) && Progress(disk0, vol.disk, vol.dataStart, vol.size, chain, from, data) && old(place) <= place
      ensures Grown(k, old(vol.Files()), vol.Files())
      ensures ok ==>
        && posIn < vol.size && vol.devPos == Start(vol.dataStart, vol.size, realCluster) + posIn
        && Spot() == old(Spot()) && cluster - place == old(cluster - place)
      ensures |chain| > |old(chain)| ==> ok && place == |chain| - 1
      ensures !ok ==>
        && NoneFree(vol.table.fat[..]) && old(Spot()) == Offset(|chain|, vol.size)
        && place == |chain| - 1 && posIn == 0 && cluster - place == old(cluster - place) + 1
    {
      hide Progress, IsChain, Offset, Extend, Grown, Forest;
      NotGrown(k, vol.Files());
      if posIn >= vol.size {
        OffsetStep(place, vol.size);
        posIn := 0;
        cluster := cluster + 1;
        ok := WriteNextCluster(k);
        if !ok {
          return false;
        }
        GrownOnce(k, old(vol.Files()));
        if place == |old(chain)| {
          vol.ClusterFits(realCluster);
          ProgressGrows(disk0, vol.disk, vol.dataStart, vol.size, old(chain), from, data, realCluster);
        }
        DevSeek();
      }
      return true;
    }

    // Stopped by a full table: at the start of the last cluster, with a number that is one too
    // high.
    ghost predicate Stopped(skew: int)
      reads this, vol.table, vol.table.fat
    {
      NoneFree(vol.table.fat[..]) && place == |chain| - 1 && posIn == 0 && cluster - place == skew + 1
    }

    // One round of the inner loop of fat16_freadwrite, writing: 0 when no cluster was free.
    method WritePiece(data: seq<byte>, ghost k: nat, ghost disk0: seq<byte>, ghost from: nat, ghost written: seq<byte>)
      returns (n: nat)
      requires Owns(k) && vol.devPos == Start(vol.dataStart, vol.size, realCluster) + posIn
      requires Progress(disk0, vol.disk, vol.dataStart, vol.size, chain, from, written)
      requires Spot() == from + |written| && 0 < |data|
      modifies this`pos, this`posIn, this`cluster, this`realCluster, this`place, this`eof, this`chain
      modifies vol`devPos, vol`disk, vol.table, vol.table.fat
      ensures n <= |data| && pos == old(pos) + n && Owns(k) && old(place) <= place
      ensures Progress(disk0, vol.disk, vol.dataStart, vol.size, chain, from, written + data[..n])
      ensures Grown(k, old(vol.Files()), vol.Files())
      ensures 0 < n ==>
        && vol.devPos == Start(vol.dataStart, vol.size, realCluster) + posIn && 0 < posIn
        && Spot() == old(Spot()) + n && cluster - place == old(cluster - place)
      ensures |chain| > |old(chain)| ==> 0 < n && place == |chain| - 1
      ensures n == 0 ==> Stopped(old(cluster - place)) && old(Spot()) == Offset(|chain|, vol.size)
    {
      hide Progress, IsChain, Grown, NoneFree, Offset, Start, Flat, Splice;
      var ok := AdvanceWriting(k, disk0, from, written);
      if !ok {
        assert written + data[..0] == written;
        return 0;
      }
      n := |data|;
      if n > vol.size - posIn {
        n := vol.size - posIn;
      }
      ChainDistinct(vol.table.fat[..], chain);
      ProgressWrites(disk0, vol.disk, vol.dataStart, vol.size, chain, from, written, place, posIn, data[..n]);
      vol.WriteDevice(data[..n]);
      pos := pos + n;
      posIn := posIn + n;
    }

    // The inner loop: one item, all of it unless the table is full.
    method WriteItem(item: seq<byte>, ghost k: nat, ghost disk0: seq<byte>, ghost from: nat, ghost written: seq<byte>)
      returns (n: nat)
      requires Owns(k) && vol.devPos == Start(vol.dataStart, vol.size, realCluster) + posIn
      requires Progress(disk0, vol.disk, vol.dataStart, vol.size, chain, from, written)
      requires Spot() == from + |written|
      modifies this`pos, this`posIn, this`cluster, this`realCluster, this`place, this`eof, this`chain
      modifies vol`devPos, vol`disk, vol.table, vol.table.fat
      ensures n <= |item| && pos == old(pos) + n && Owns(k) && old(place) <= place
      ensures Progress(disk0, vol.disk, vol.dataStart, vol.size, chain, from, written + item[..n])
      ensures Grown(k, old(vol.Files()), vol.Files())
      ensures n == |item| ==>
        && vol.devPos == Start(vol.dataStart, vol.size, realCluster) + posIn
        && Spot() == old(Spot()) + n && cluster - place == old(cluster - place)
      ensures |chain| > |old(chain)| ==> place == |chain| - 1
      ensures n == |item| ==> if 0 < n then 0 < posIn else cluster == old(cluster) && chain == old(chain)
      ensures n < |item| ==> Stopped(old(cluster - place)) && old(Spot()) + n == Offset(|chain|, vol.size)
    {
      hide Progress, IsChain, Grown, NoneFree, Offset, Start, Flat, Splice, Forest;
      ghost var files0 := vol.Files();
      n := 0;
      assert written + item[..0] == written;
      NotGrown(k, files0);
      while n < |item|
        invariant n <= |item| && pos == old(pos) + n && Owns(k) && old(place) <= place
        invariant vol.devPos == Start(vol.dataStart, vol.size, realCluster) + posIn
        invariant Spot() == old(Spot()) + n && cluster - place == old(cluster - place)
        invariant Progress(disk0, vol.disk, vol.dataStart, vol.size, chain, from, written + item[..n])
        invariant Grown(k, files0, vol.Files())
        invariant |chain| > |old(chain)| ==> place == |chain| - 1
        invariant if 0 < n then 0 < posIn else cluster == old(cluster) && chain == old(chain)
      {
        ghost var files1 := vol.Files();
        var more := WritePiece(item[n..], k, disk0, from, written + item[..n]);
        TakeMore(written, item, n, more);
        GrownTwice(k, files0, files1, vol.Files());
        if more == 0 {
          return;
        }
        n := n + more;
      }
    }

    // fat16_freadwrite, writing count items at the stream's spot.
    method WriteItems(data: seq<byte>, size: nat, count: nat, ghost k: nat) returns (done: nat)
      requires Owns(k) && |data| == Offset(count, size)
      modifies this`pos, this`posIn, this`cluster, this`realCluster, this`place, this`eof, this`chain
      modifies vol`devPos, vol`disk, vol.table, vol.table.fat
      ensures Owns(k) && 0 <= pos - old(pos) <= |data|
      ensures pos - old(pos) == |data| ==> Spot() == old(Spot()) + |data| && cluster - place == old(cluster - place)
      ensures pos - old(pos) < |data| ==>
        Stopped(old(cluster - place)) && old(Spot()) + (pos - old(pos)) == Offset(|chain|, vol.size)
      ensures 0 < size ==>
        && Offset(done, size) <= pos - old(pos)
        && (if pos - old(pos) == |data| then done == count else done < count && pos - old(pos) < Offset(done + 1, size))
      ensures Progress(old(vol.disk), vol.disk, vol.dataStart, vol.size, chain, old(Spot()), data[..pos - old(pos)])
      ensures Grown(k, old(vol.Files()), vol.Files())
      ensures |chain| > |old(chain)| ==> place == |chain| - 1
      ensures pos - old(pos) == |data| ==>
        if |data| > 0 then 0 < posIn else cluster == old(cluster) && chain == old(chain)
    {
      hide Progress, IsChain, Grown, NoneFree, Start, Flat, Splice, Forest, Offset, ChainFits, Clusters;
      ghost var files0 := vol.Files();
      ghost var disk0, from, from0 := vol.disk, Spot(), pos;
      NotGrown(k, files0);
      BytesLength();
      vol.ChainOnDisk(chain);
      NoProgress(disk0, vol.dataStart, vol.size, chain, from);
      assert data[..0] == [];
      NoItems(count, size);
      NoItems(0, size);
      OffsetStep(count, size);
      if count == 0 || size == 0 {
        OffsetStep(0, size);
        return 0;
      }
      OffsetStep(count - 1, size);
      DevSeek();
      done := 0;
      while done < count
        invariant done <= count && Owns(k) && pos == from0 + Offset(done, size)
        invariant vol.devPos == Start(vol.dataStart, vol.size, realCluster) + posIn
        invariant Spot() == from + Offset(done, size) && cluster - place == old(cluster - place)
        invariant Offset(done, size) <= |data|
        invariant Progress(disk0, vol.disk, vol.dataStart, vol.size, chain, from, data[..Offset(done, size)])
        invariant Grown(k, files0, vol.Files())
        invariant |chain| > |old(chain)| ==> place == |chain| - 1
        invariant if 0 < done then 0 < posIn else cluster == old(cluster) && chain == old(chain)
      {
        ghost var files1 := vol.Files();
        OffsetMonotone(done, count, size);
        OffsetStep(done, size);
        var at := Offset(done, size);
        var n := WriteItem(data[at..at + size], k, disk0, from, data[..at]);
        TakeItem(data, at, size, n);
        GrownTwice(k, files0, files1, vol.Files());
        if n < size {
          return;
        }
        done := done + 1;
      }
    }

    lemma WithinChain()
      requires Standing()
      ensures Spot() <= Offset(|chain|, vol.size)
      ensures place == |chain| - 1 && 0 < posIn ==> Offset(|chain| - 1, vol.size) < Spot()
    {
      hide Offset;
      OffsetMonotone(place, |chain|, vol.size);
    }

    lemma OthersKept(k: nat, l: nat, disk0: seq<byte>, from: nat, data: seq<byte>)
      requires Owns(k) && l < |vol.table.chains| && k != l
      requires Progress(disk0, vol.disk, vol.dataStart, vol.size, chain, from, data)
      ensures SameClusters(disk0, vol.disk, vol.dataStart, vol.size, vol.table.chains[l])
    {
      hide Flat, Offset, Splice, Start;
      var other := vol.table.chains[l];
      vol.ChainOnDisk(other);
    }

    // fat16_fwrite.  It writes as much as there is room for in the chain and the free clusters
    // together.  That goes over the bytes of the chain, which gets no cluster too many and always
    // the lowest that is free, and touches no other chain.  A sound stream stays sound if and
    // only if all was written, and knows the size of its file if and only if the file has not
    // grown.
    method Write(data: seq<byte>, size: nat, count: nat, ghost k: nat) returns (done: nat)
      requires Owns(k) && |data| == Offset(count, size)
      modifies this`pos, this`posIn, this`cluster, this`realCluster, this`place, this`eof, this`chain, this`fileSize
      modifies vol`devPos, vol`disk, vol.table, vol.table.fat
      ensures Owns(k) && 0 <= pos - old(pos) <= |data|
      ensures old(Spot()) <= old(Room(vol.Files(), k, vol.size))
      ensures pos - old(pos) == Min(|data|, old(Room(vol.Files(), k, vol.size)) - old(Spot()))
      ensures HasFile(old(vol.Files()), k)
      ensures vol.Files() == GrownFor(old(vol.Files()), k, vol.size, old(Spot()), |data|)
      ensures OnlyGrows(old(vol.Files()), vol.Files(), k)
      ensures pos - old(pos) == |data| ==> Spot() == old(Spot()) + |data| && cluster - place == old(cluster - place)
      ensures pos - old(pos) < |data| ==>
        Stopped(old(cluster - place)) && old(Spot()) + (pos - old(pos)) == Offset(|chain|, vol.size)
      ensures old(Sound()) ==> (Sound() <==> pos - old(pos) == |data|)
      ensures 0 < size ==>
        && Offset(done, size) <= pos - old(pos)
        && (if pos - old(pos) == |data| then done == count else done < count && pos - old(pos) < Offset(done + 1, size))
      ensures fileSize == if pos > old(fileSize) then pos else old(fileSize)
      ensures old(fileSize) == Known() ==> (fileSize == Known() <==> pos <= old(fileSize))
      ensures Progress(old(vol.disk), vol.disk, vol.dataStart, vol.size, chain, old(Spot()), data[..pos - old(pos)])
      ensures Grown(k, old(vol.Files()), vol.Files())
      ensures |chain| > |old(chain)| ==> place == |chain| - 1
      ensures pos - old(pos) == |data| ==>
        if |data| > 0 then 0 < posIn else cluster == old(cluster) && chain == old(chain)
      ensures forall l | 0 <= l < |vol.table.chains| && l != k ::
                SameClusters(old(vol.disk), vol.disk, vol.dataStart, vol.size, vol.table.chains[l])
    {
      hide Progress, IsChain, NoneFree, Start, Flat, Splice, Forest, SameClusters, Offset;
      hide Grown, OnlyGrows, Room, GrownFor;
      ghost var disk0, from, from0, files0 := vol.disk, Spot(), pos, vol.Files();
      WithinChain();
      done := WriteItems(data, size, count, k);
      WithinChain();
      HowFar(k, files0, vol.Files(), vol.size, from, |data|, pos - from0);
      GrownOnlyGrows(k, files0, vol.Files());
      if pos > fileSize {
        fileSize := pos;
      }
      forall l | 0 <= l < |vol.table.chains| && l != k
        ensures SameClusters(disk0, vol.disk, vol.dataStart, vol.size, vol.table.chains[l])
      {
        OthersKept(k, l, disk0, from, data[..pos - from0]);
      }
    }
  }

  // ---- what follows for several calls ----

  // Data that begins at p is all read through the same stream if and only if p is no further
  // than the size the stream knows, in a cluster there is, and the data ends before the last
  // cluster it knows of does, or before the one it begins in.
  method SeekAndRead(f: FatFile, p: nat, n: nat) returns (bytes: seq<byte>)
    requires f.Sound() && f.cluster <= p / f.vol.size && 0 < n && p + n <= f.fileSize
    modifies f`pos, f`posIn, f`cluster, f`realCluster, f`place, f`eof, f.vol`devPos
    ensures f.Standing() && f.Bytes() == old(f.Bytes())
    ensures |bytes| == n <==> p <= f.Known() && p / f.vol.size < |f.chain| && p + n <= f.Reach(p / f.vol.size)
    ensures bytes != [] ==> p + |bytes| <= |f.Bytes()| && bytes == f.Bytes()[p..p + |bytes|]
  {
    hide Flat, Offset, Clusters, IsChain, CutCount;
    Arithmetic.DivisionLaw(p, f.vol.size);
    f.BytesLength();
    bytes := [];
    var result := f.SetPos(p);
    if result == SeekFailed {
      return;
    }
    CutEnough(f.fileSize - p, 1, n);
    var done;
    done, bytes := f.Read(1, n);
  }

  method ReadAgain(vol: Volume, first: nat, fileSize: nat, ghost chain: seq<nat>, start: nat, n: nat)
    returns (bytes: seq<byte>)
    requires vol.Valid() && IsChain(vol.table.fat[..], chain) && chain[0] == first
    requires fileSize <= Offset(|chain|, vol.size) && 0 < n && start + n <= fileSize
    modifies vol`devPos
    ensures ChainFits(vol.disk, vol.dataStart, vol.size, chain)
    ensures start + n <= |Flat(Clusters(vol.disk, vol.dataStart, vol.size, chain))|
    ensures bytes == Flat(Clusters(vol.disk, vol.dataStart, vol.size, chain))[start..start + n]
  {
    hide Flat, Clusters, IsChain, Offset, CutCount;
    var file := new FatFile(vol, first, fileSize, chain);
    vol.ChainOnDisk(chain);
    file.InFile(start);
    Arithmetic.DivisionLaw(start, vol.size);
    file.KnownClusters(start / vol.size + 1);
    bytes := SeekAndRead(file, start, n);
  }

  // Write, open the file again, seek to where the writing began, and read: the bytes are the
  // data if and only if there was room for it.
  method WriteThenRead(f: FatFile, data: seq<byte>, ghost k: nat) returns (bytes: seq<byte>)
    requires f.Owns(k) && f.Sound() && f.fileSize <= Offset(|f.chain|, f.vol.size) && data != []
    modifies f`pos, f`posIn, f`cluster, f`realCluster, f`place, f`eof, f`chain, f`fileSize
    modifies f.vol`devPos, f.vol`disk, f.vol.table, f.vol.table.fat
    ensures bytes == data <==> old(f.pos) + |data| <= old(Room(f.vol.Files(), k, f.vol.size))
  {
    hide Progress, NoneFree, Flat, Clusters, Splice, Start, Grown, SameClusters, Forest, IsChain, Offset;
    hide Room, GrownFor;
    ghost var disk0, chain0, size0 := f.vol.disk, f.chain, f.fileSize;
    OneByOne(|data|);
    var start := f.pos;
    var done := f.Write(data, 1, |data|, k);
    bytes := [];
    if done < |data| {
      return;
    }
    assert data[..|data|] == data;
    OffsetMonotone(|chain0|, |f.chain|, f.vol.size);
    f.BytesLength();
    WrittenIsRead(disk0, f.vol.disk, f.vol.dataStart, f.vol.size, f.chain, start, data);
    bytes := ReadAgain(f.vol, f.realFirstCluster, f.fileSize, f.chain, start, |data|);
  }

  // Writing on after a full table stopped the stream: the data goes over the file's own last
  // cluster, from its first byte on.
  method WriteOn(f: FatFile, data: seq<byte>, ghost skew: int, ghost k: nat) returns (done: nat)
    requires f.Owns(k) && f.Stopped(skew)
    modifies f`pos, f`posIn, f`cluster, f`realCluster, f`place, f`eof, f`chain, f`fileSize
    modifies f.vol`devPos, f.vol`disk, f.vol.table, f.vol.table.fat
    ensures f.Owns(k) && f.chain == old(f.chain) && done == Min(|data|, f.vol.size)
    ensures f.pos == old(f.pos) + done && (|data| > f.vol.size ==> f.Stopped(skew + 1))
    ensures Progress(old(f.vol.disk), f.vol.disk, f.vol.dataStart, f.vol.size, f.chain,
                     Offset(|f.chain| - 1, f.vol.size), data[..done])
  {
    hide Progress, NoneFree, Flat, Clusters, Splice, Start, Grown, SameClusters, Forest, IsChain, Offset;
    NoneLeft(f.vol.table.fat[..]);
    OneByOne(|data|);
    OffsetStep(|f.chain| - 1, f.vol.size);
    done := f.Write(data, 1, |data|, k);
    OneByOne(done);
    OneByOne(done + 1);
    f.LastPlace();
  }

  // ---- runs of reads and seeks ----

  datatype FileOp = ReadOp(n: nat) | SeekOp(p: nat)

  datatype FlatState = FlatState(pos: nat, cluster: nat, out: seq<byte>)

  // What a flat file of bytes does with one call.  A seek behind the end of the file, or to an
  // earlier cluster than the one the last byte came from, is not asked for.
  function FlatStep(file: seq<byte>, size: nat, s: FlatState, op: FileOp): (t: FlatState)
    requires 0 < size && s.pos <= |file|
    ensures t.pos <= |file|
  {
    match op
    case ReadOp(n) =>
      var end := s.pos + Min(n, |file| - s.pos);
      if end == s.pos then s else FlatState(end, (end - 1) / size, s.out + file[s.pos..end])
    case SeekOp(p) =>
      if p < |file| && s.cluster <= p / size then FlatState(p, p / size, s.out) else s
  }

  // In plain terms: as much is read as the file has from the position on, and a seek inside the
  // file that is not to an earlier cluster gets there.
  lemma FlatStepPlainly(file: seq<byte>, size: nat, s: FlatState, op: FileOp)
    requires 0 < size && s.pos <= |file|
    ensures var t := FlatStep(file, size, s, op);
      && (op.ReadOp? ==>
           && t.pos == (if s.pos + op.n < |file| then s.pos + op.n else |file|)
           && t.out == s.out + file[s.pos..t.pos])
      && (op.SeekOp? && op.p < |file| && s.cluster <= op.p / size ==>
           t.pos == op.p && t.cluster == op.p / size && t.out == s.out)
  {
  }

  function FlatRun(file: seq<byte>, size: nat, ops: seq<FileOp>): (t: FlatState)
    requires 0 < size
    ensures t.pos <= |file|
  {
    if ops == [] then FlatState(0, 0, [])
    else FlatStep(file, size, FlatRun(file, size, ops[..|ops| - 1]), ops[|ops| - 1])
  }

  method ReadBytes(f: FatFile, n: nat) returns (bytes: seq<byte>)
    requires f.Sound() && f.pos <= f.fileSize == f.Known()
    modifies f`pos, f`posIn, f`cluster, f`realCluster, f`place, f`eof, f.vol`devPos
    ensures f.Sound() && f.Bytes() == old(f.Bytes())
    ensures f.pos == old(f.pos) + Min(n, f.fileSize - old(f.pos)) <= |f.Bytes()|
    ensures bytes == f.Bytes()[old(f.pos)..f.pos]
    ensures if bytes == [] then f.cluster == old(f.cluster) else f.cluster == (f.pos - 1) / f.vol.size
  {
    hide Flat, Offset, Clusters, IsChain, CutCount;
    f.BytesLength();
    f.KnownClusters(0);
    CutEnough(f.fileSize - f.pos, 1, n);
    var done;
    done, bytes := f.Read(1, n);
    if bytes != [] {
      f.ClusterOf();
    }
  }

  method Perform(f: FatFile, op: FileOp, ghost out0: seq<byte>) returns (out: seq<byte>)
    requires f.Sound() && f.pos <= f.fileSize == f.Known()
    modifies f`pos, f`posIn, f`cluster, f`realCluster, f`place, f`eof, f.vol`devPos
    ensures f.Sound() && f.pos <= f.fileSize && f.Bytes() == old(f.Bytes()) && f.fileSize <= |f.Bytes()|
    ensures FlatState(f.pos, f.cluster, out0 + out) ==
              FlatStep(f.Bytes()[..f.fileSize], f.vol.size, FlatState(old(f.pos), old(f.cluster), out0), op)
  {
    hide Flat, Offset, Clusters, IsChain, CutCount;
    out := [];
    assert out0 + [] == out0;
    f.BytesLength();
    f.KnownClusters(0);
    ghost var file := f.Bytes()[..f.fileSize];
    match op {
      case ReadOp(n) =>
        ghost var from := f.pos;
        out := ReadBytes(f, n);
        SliceOfSlice(f.Bytes(), 0, f.fileSize, from, f.pos);
        assert f.Bytes()[0..f.fileSize] == file;
      case SeekOp(p) =>
        Arithmetic.DivisionLaw(p, f.vol.size);
        if p < f.fileSize && f.cluster <= p / f.vol.size {
          f.InFile(p);
          var result := f.SetPos(p);
        }
    }
  }

  // Every run of reads and of seeks to the same or a later cluster in the file is the run of a
  // flat file: the first fileSize bytes of the chain.
  method ReadRun(vol: Volume, first: nat, fileSize: nat, ghost chain: seq<nat>, ops: seq<FileOp>)
    returns (f: FatFile, out: seq<byte>)
    requires vol.Valid() && IsChain(vol.table.fat[..], chain) && chain[0] == first
    requires fileSize <= Offset(|chain|, vol.size)
    modifies vol`devPos
    ensures f.Sound() && f.vol == vol && f.chain == chain && fileSize <= |f.Bytes()|
    ensures FlatState(f.pos, f.cluster, out) == FlatRun(f.Bytes()[..fileSize], vol.size, ops)
  {
    hide Flat, Offset, Clusters, IsChain, FlatStep;
    f := new FatFile(vol, first, fileSize, chain);
    f.BytesLength();
    out := [];
    ghost var all := f.Bytes();
    var k: nat := 0;
    while k < |ops|
      invariant k <= |ops| && f.Sound() && f.pos <= f.fileSize == f.Known() == fileSize && f.Bytes() == all
      invariant fresh(f) && f.vol == vol && f.chain == chain
      invariant FlatState(f.pos, f.cluster, out) == FlatRun(all[..fileSize], vol.size, ops[..k])
    {
      assert ops[..k + 1][..k] == ops[..k];
      var more := Perform(f, ops[k], out);
      out := out + more;
      k := k + 1;
    }
    assert ops[..k] == ops;
  }
}
