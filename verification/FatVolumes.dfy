// Several files of one FAT volume, read and written in turn: each is a flat file of its own, and
// together they share the free clusters.

module FatVolumes {
  import opened FlatBlocks
  import opened BlockChains
  import opened FatTable
  import opened FatGrowth
  import opened FatFiles
  import opened Sequences
  import Arithmetic

  // A file as its bytes, the number of its clusters, and the stream's place in it.  `known` is
  // its size when it was opened.
  datatype FlatFile = FlatFile(content: seq<byte>, clusters: nat, pos: nat, cluster: nat, known: nat)

  // The files, the number of free clusters, whether a write has found too few of them, and what
  // has been read.
  datatype FlatVolume = FlatVolume(files: seq<FlatFile>, free: nat, full: bool, out: seq<byte>)

  datatype VolumeOp = ReadOrSeek(i: nat, op: FileOp) | Write(i: nat, data: seq<byte>)

  ghost predicate FlatOk(v: FlatVolume, size: nat) {
    forall i | 0 <= i < |v.files| ::
      v.files[i].pos <= |v.files[i].content| <= Offset(v.files[i].clusters, size)
  }

  // Data written over a file, at its end or across it.
  function Patched(content: seq<byte>, pos: nat, data: seq<byte>): seq<byte>
    requires pos <= |content|
  {
    content[..pos] + data + if pos + |data| < |content| then content[pos + |data|..] else []
  }

  // A file is written as far as its clusters and the free ones reach.
  ghost function Fitting(f: FlatFile, free: nat, size: nat, n: nat): (m: nat)
    ensures m <= n
  {
    var room := Offset(f.clusters + free, size);
    if f.pos + n <= room then n else if f.pos <= room then room - f.pos else 0
  }

  ghost function WriteStep(v: FlatVolume, size: nat, i: nat, data: seq<byte>): (w: FlatVolume)
    requires 0 < size && i < |v.files| && FlatOk(v, size)
    ensures w.out == v.out && |w.files| == |v.files|
  {
    var f := v.files[i];
    var n := Fitting(f, v.free, size, |data|);
    var more := Growth(f.clusters, v.free, size, f.pos + |data|);
    var cluster :=
      if n < |data| then f.clusters + more
      else if n == 0 then f.cluster
      else (f.pos + n - 1) / size;
    var g := FlatFile(Patched(f.content, f.pos, data[..n]), f.clusters + more, f.pos + n, cluster, f.known);
    FlatVolume(v.files[i := g], v.free - more, n < |data|, v.out)
  }

  // Reads and seeks are asked of a stream that knows how long its file is.
  ghost function ReadStep(v: FlatVolume, size: nat, i: nat, op: FileOp): (w: FlatVolume)
    requires 0 < size && i < |v.files| && FlatOk(v, size)
    ensures w.full == v.full && |w.files| == |v.files|
  {
    var f := v.files[i];
    if f.known != |f.content| then v
    else
      var s := FlatStep(f.content, size, FlatState(f.pos, f.cluster, v.out), op);
      FlatVolume(v.files[i := f.(pos := s.pos, cluster := s.cluster)], v.free, v.full, s.out)
  }

  // Nothing is asked for any more once a write has found the volume full.
  ghost function Step(v: FlatVolume, size: nat, op: VolumeOp): FlatVolume
    requires 0 < size && FlatOk(v, size)
  {
    if v.full || op.i >= |v.files| then v
    else match op
      case ReadOrSeek(i, o) => ReadStep(v, size, i, o)
      case Write(i, data) => WriteStep(v, size, i, data)
  }

  lemma {:induction false} GrowthReaches(clusters: nat, free: nat, size: nat, end: nat)
    ensures var m := Growth(clusters, free, size, end); end <= Offset(clusters + m, size) || m == free
    decreases free
  {
    hide Offset;
    if free == 0 || end <= Offset(clusters, size) {
    } else {
      GrowthReaches(clusters + 1, free - 1, size, end);
    }
  }

  lemma StepOk(v: FlatVolume, size: nat, op: VolumeOp)
    requires 0 < size && FlatOk(v, size)
    ensures FlatOk(Step(v, size, op), size) && |Step(v, size, op).files| == |v.files|
  {
    hide Offset, FlatStep;
    if !v.full && op.i < |v.files| && op.Write? {
      var f := v.files[op.i];
      GrowthReaches(f.clusters, v.free, size, f.pos + |op.data|);
      OffsetMonotone(f.clusters, f.clusters + Growth(f.clusters, v.free, size, f.pos + |op.data|), size);
    }
  }

  ghost function Run(v: FlatVolume, size: nat, ops: seq<VolumeOp>): (w: FlatVolume)
    requires 0 < size && FlatOk(v, size)
    ensures FlatOk(w, size) && |w.files| == |v.files|
  {
    if ops == [] then v
    else
      var w := Run(v, size, ops[..|ops| - 1]);
      StepOk(w, size, ops[|ops| - 1]);
      Step(w, size, ops[|ops| - 1])
  }

  lemma PatchedParts(content: seq<byte>, pos: nat, data: seq<byte>)
    requires pos <= |content|
    ensures var c, end := Patched(content, pos, data), pos + |data|;
      && |c| == (if end < |content| then |content| else end)
      && c[..pos] == content[..pos] && c[pos..end] == data
      && c[end..] == (if end < |content| then content[end..] else [])
  {
  }

  lemma WriteStepParts(v: FlatVolume, size: nat, i: nat, data: seq<byte>)
    requires 0 < size && FlatOk(v, size) && i < |v.files|
    ensures var w, f := WriteStep(v, size, i, data), v.files[i];
      var g, room := w.files[i], (f.clusters + v.free) * size;
      && f.pos <= room && f.pos <= |f.content| && (w.full <==> f.pos + |data| > room)
      && g.pos == (if w.full then room else f.pos + |data|)
      && g.content == Patched(f.content, f.pos, data[..g.pos - f.pos])
      && g.clusters + w.free == f.clusters + v.free && g.known == f.known
      && w.files == v.files[i := g] && w.out == v.out
  {
    hide Patched, Offset, Growth;
    var f := v.files[i];
    OffsetMonotone(f.clusters, f.clusters + v.free, size);
    OffsetIsProduct(f.clusters + v.free, size);
  }

  lemma WriteStepPlainly(v: FlatVolume, size: nat, i: nat, data: seq<byte>, w: FlatVolume)
    requires 0 < size && FlatOk(v, size) && i < |v.files| && w == WriteStep(v, size, i, data)
    ensures var f, g, room := v.files[i], w.files[i], (v.files[i].clusters + v.free) * size;
      && f.pos <= room && f.pos <= |f.content| && (w.full <==> f.pos + |data| > room)
      && g.pos == (if w.full then room else f.pos + |data|)
      && |g.content| == (if g.pos < |f.content| then |f.content| else g.pos)
      && g.content[..f.pos] == f.content[..f.pos] && g.content[f.pos..g.pos] == data[..g.pos - f.pos]
      && g.content[g.pos..] == (if g.pos < |f.content| then f.content[g.pos..] else [])
      && g.clusters + w.free == f.clusters + v.free && g.known == f.known
      && w.files == v.files[i := g] && w.out == v.out
  {
    hide Patched, FlatOk;
    WriteStepParts(v, size, i, data);
    hide WriteStep;
    PatchedParts(v.files[i].content, v.files[i].pos, data[..w.files[i].pos - v.files[i].pos]);
  }

  lemma LastWrite(v: FlatVolume, size: nat, ops: seq<VolumeOp>, i: nat, data: seq<byte>)
    requires 0 < size && FlatOk(v, size) && i < |v.files| && !Run(v, size, ops).full
    ensures Run(v, size, ops + [Write(i, data)]) == WriteStep(Run(v, size, ops), size, i, data)
  {
    hide WriteStep;
    assert (ops + [Write(i, data)])[..|ops|] == ops;
  }

  // In plain numbers: behind any run, a write goes over the file from its place on, as far as its
  // clusters and the free ones reach; only its own clusters become more, by what is no longer free.
  lemma WritePlainly(v: FlatVolume, size: nat, ops: seq<VolumeOp>, i: nat, data: seq<byte>)
    requires 0 < size && FlatOk(v, size) && i < |v.files| && !Run(v, size, ops).full
    ensures var u, w := Run(v, size, ops), Run(v, size, ops + [Write(i, data)]);
      var f, g, room := u.files[i], w.files[i], (u.files[i].clusters + u.free) * size;
      && f.pos <= room && f.pos <= |f.content| && (w.full <==> f.pos + |data| > room)
      && g.pos == (if w.full then room else f.pos + |data|)
      && |g.content| == (if g.pos < |f.content| then |f.content| else g.pos)
      && g.content[..f.pos] == f.content[..f.pos] && g.content[f.pos..g.pos] == data[..g.pos - f.pos]
      && g.content[g.pos..] == (if g.pos < |f.content| then f.content[g.pos..] else [])
      && g.clusters + w.free == f.clusters + u.free && g.known == f.known
      && w.files == u.files[i := g] && w.out == u.out
  {
    hide *;
    LastWrite(v, size, ops, i, data);
    WriteStepPlainly(Run(v, size, ops), size, i, data, Run(v, size, ops + [Write(i, data)]));
  }

  // ... and a read gets what the file has from its place on, if the file is as long as when it was
  // opened.
  lemma ReadPlainly(v: FlatVolume, size: nat, ops: seq<VolumeOp>, i: nat, n: nat)
    requires 0 < size && FlatOk(v, size) && i < |v.files| && !Run(v, size, ops).full
    ensures var u, w := Run(v, size, ops), Run(v, size, ops + [ReadOrSeek(i, ReadOp(n))]);
      var f, g := u.files[i], w.files[i];
      f.known == |f.content| ==>
        && f.pos <= g.pos == (if f.pos + n < |f.content| then f.pos + n else |f.content|)
        && w.out == u.out + f.content[f.pos..g.pos]
        && g.content == f.content && w.files == u.files[i := g] && w.free == u.free
  {
    hide FlatStep;
    assert (ops + [ReadOrSeek(i, ReadOp(n))])[..|ops|] == ops;
    var u := Run(v, size, ops);
    FlatStepPlainly(u.files[i].content, size, FlatState(u.files[i].pos, u.files[i].cluster, u.out), ReadOp(n));
  }

  ghost function InUse(files: seq<FlatFile>): nat {
    if files == [] then 0 else InUse(files[..|files| - 1]) + files[|files| - 1].clusters
  }

  lemma {:induction false} InUseUpdate(files: seq<FlatFile>, i: nat, g: FlatFile)
    requires i < |files|
    ensures InUse(files[i := g]) + files[i].clusters == InUse(files) + g.clusters
  {
    var last := |files| - 1;
    if i < last {
      InUseUpdate(files[..last], i, g);
      assert files[i := g][..last] == files[..last][i := g];
    } else {
      assert files[i := g][..last] == files[..last];
    }
  }

  // Whatever the run, no cluster is gained or lost.
  lemma {:induction false} ClustersAddUp(v: FlatVolume, size: nat, ops: seq<VolumeOp>)
    requires 0 < size && FlatOk(v, size)
    ensures var w := Run(v, size, ops); InUse(w.files) + w.free == InUse(v.files) + v.free
  {
    hide FlatOk, FlatStep, Fitting, Growth, Patched;
    if ops == [] {
    } else {
      ClustersAddUp(v, size, ops[..|ops| - 1]);
      var w, op := Run(v, size, ops[..|ops| - 1]), ops[|ops| - 1];
      if !w.full && op.i < |w.files| {
        InUseUpdate(w.files, op.i, Step(w, size, op).files[op.i]);
      }
    }
  }

  // ---- the streams ----

  // The numbers of a stream are those of a flat file.
  ghost predicate Placed(f: FatFile, g: FlatFile, sound: bool)
    reads f
  {
    && f.lastPosIn < f.vol.size && f.Known() <= Offset(|f.chain|, f.vol.size)
    && f.place < |f.chain| && f.realCluster == f.chain[f.place] && FIRST_CLUSTER <= f.realCluster
    && f.chain[0] == f.realFirstCluster && f.posIn <= f.vol.size
    && |g.content| == f.fileSize && g.clusters == |f.chain| && g.pos == f.pos <= f.fileSize
    && g.cluster == f.cluster && g.known == f.Known()
    && (sound ==> f.place == f.cluster && f.pos == f.Spot())
  }

  // The clusters of chain i hold the content.
  ghost predicate Stored(disk: seq<byte>, dataStart: nat, size: nat, chains: seq<seq<nat>>, i: nat,
                         content: seq<byte>)
  {
    && i < |chains| && ChainFits(disk, dataStart, size, chains[i])
    && content <= Flat(Clusters(disk, dataStart, size, chains[i]))
  }

  ghost predicate Shows(f: FatFile, vol: Volume, i: nat, g: FlatFile, sound: bool)
    reads f, vol, vol.table, vol.table.fat
  {
    && f.vol == vol && vol.Valid() && Placed(f, g, sound) && i < |vol.table.chains|
    && Stored(vol.disk, vol.dataStart, vol.size, vol.table.chains, i, g.content) && f.chain == vol.table.chains[i]
  }

  lemma ShownStands(f: FatFile, vol: Volume, i: nat, g: FlatFile, sound: bool)
    requires Shows(f, vol, i, g, sound)
    ensures f.Owns(i) && f.pos <= f.fileSize <= |f.Bytes()| && g.content == f.Bytes()[..f.fileSize]
    ensures sound ==> f.Sound()
    ensures |f.Bytes()| == Offset(|f.chain|, vol.size)
  {
    hide Flat, Clusters, IsChain, Offset;
    f.BytesLength();
  }

  lemma StandingShows(f: FatFile, vol: Volume, i: nat, g: FlatFile, sound: bool)
    requires f.vol == vol && f.Owns(i) && f.pos <= f.fileSize <= |f.Bytes()|
    requires g.content == f.Bytes()[..f.fileSize] && g.clusters == |f.chain|
    requires g.pos == f.pos && g.cluster == f.cluster && g.known == f.Known()
    requires sound ==> f.Sound()
    ensures Shows(f, vol, i, g, sound)
  {
    hide Flat, Clusters, IsChain, Offset;
    vol.ChainOnDisk(f.chain);
  }

  ghost predicate AllShow(files: seq<FatFile>, vol: Volume, v: FlatVolume)
    reads files, vol, vol.table, vol.table.fat
  {
    && vol.Valid() && |files| == |v.files| && Distinct(files) && v.free == |FreeSet(vol.table.fat[..])|
    && forall i | 0 <= i < |files| :: Shows(files[i], vol, i, v.files[i], !v.full)
  }

  // The content of a file after a write, in its chain's bytes.
  lemma ContentAfter(disk0: seq<byte>, disk: seq<byte>, dataStart: nat, size: nat, chain0: seq<nat>, chain: seq<nat>,
                     content: seq<byte>, pos: nat, data: seq<byte>)
    requires chain0 <= chain && Progress(disk0, disk, dataStart, size, chain, pos, data)
    requires ChainFits(disk0, dataStart, size, chain0) && content <= Flat(Clusters(disk0, dataStart, size, chain0))
    requires pos <= |content|
    ensures var patched, bytes := Patched(content, pos, data), Flat(Clusters(disk, dataStart, size, chain));
      |patched| <= |bytes| && patched == bytes[..|patched|]
  {
    hide Offset, Cluster, Start, Fits;
    var was, all := Clusters(disk0, dataStart, size, chain0), Clusters(disk0, dataStart, size, chain);
    assert all == was + all[|was|..];
    FlatAppend(was, all[|was|..]);
    hide Flat;
    var before := Flat(all);
    assert content <= before;
    assert before[..pos] == content[..pos];
  }

  lemma Prolonged(chain0: seq<nat>, chain: seq<nat>, t: Files, u: Files, k: nat)
    requires k < |t.chains| == |u.chains| && |t.fat| == |u.fat| && OnlyGrows(t, u, k)
    requires chain0 == t.chains[k] && chain == u.chains[k]
    ensures chain0 <= chain
  {
  }

  lemma OthersKeep(t: Files, u: Files, k: nat)
    requires k < |t.chains| == |u.chains| && |t.fat| == |u.fat| && OnlyGrows(t, u, k)
    ensures forall l | 0 <= l < |u.chains| && l != k :: u.chains[l] == t.chains[l]
  {
  }

  lemma FittingIsRoom(t: Files, k: nat, size: nat, f: FlatFile, free: nat, n: nat)
    requires k < |t.chains| && f.clusters == |t.chains[k]| && free == |FreeSet(t.fat)|
    ensures f.pos <= Room(t, k, size) ==> Fitting(f, free, size, n) == Min(n, Room(t, k, size) - f.pos)
  {
    hide Offset, FreeSet;
  }

  // One stream writes, in numbers: how far, and what its chain is then.
  method WriteRaw(f: FatFile, vol: Volume, i: nat, data: seq<byte>, ghost v: FlatVolume) returns (done: nat)
    requires i < |v.files| && Shows(f, vol, i, v.files[i], true) && FlatOk(v, vol.size)
    requires v.free == |FreeSet(vol.table.fat[..])|
    modifies f`pos, f`posIn, f`cluster, f`realCluster, f`place, f`eof, f`chain, f`fileSize
    modifies vol`devPos, vol`disk, vol.table, vol.table.fat
    ensures f.Owns(i) && f.chain == vol.table.chains[i] && old(f.chain) <= f.chain
    ensures var g, n := v.files[i], Fitting(v.files[i], v.free, vol.size, |data|);
      var more := Growth(g.clusters, v.free, vol.size, g.pos + |data|);
      && f.pos == g.pos + n && f.fileSize == (if f.pos > |g.content| then f.pos else |g.content|)
      && |f.chain| == g.clusters + more && |FreeSet(vol.table.fat[..])| == v.free - more
      && f.cluster == (if n < |data| then |f.chain| else if n == 0 then g.cluster else (f.pos - 1) / vol.size)
      && (n == |data| ==> f.Sound()) && (n < |data|) == (done < |data|)
      && Progress(old(vol.disk), vol.disk, vol.dataStart, vol.size, f.chain, g.pos, data[..n])
    ensures HasFile(old(vol.Files()), i) && HasFile(vol.Files(), i)
    ensures |vol.table.chains| == |old(vol.table.chains)| && vol.table.fat.Length == |old(vol.table.fat[..])|
    ensures OnlyGrows(old(vol.Files()), vol.Files(), i)
    ensures forall l | 0 <= l < |vol.table.chains| && l != i ::
      SameClusters(old(vol.disk), vol.disk, vol.dataStart, vol.size, vol.table.chains[l])
  {
    hide Flat, Clusters, IsChain, Offset, Progress, Stored, OnlyGrows, FreeSet, SameClusters, Growth, GrowBy, Forest;
    hide NoneFree, ChainFits, WriteStep;
    ShownStands(f, vol, i, v.files[i], true);
    OneByOne(|data|);
    GrownForSize(vol.Files(), i, vol.size, f.Spot(), |data|);
    ghost var chain0 := f.chain;
    FittingIsRoom(vol.Files(), i, vol.size, v.files[i], v.free, |data|);
    hide Fitting, Room, GrownFor, HasFile;
    done := f.Write(data, 1, |data|, i);
    assert chain0 <= f.chain by { Prolonged(chain0, f.chain, old(vol.Files()), vol.Files(), i); }
    if f.pos - old(f.pos) == |data| && 0 < |data| {
      f.ClusterOf();
    }
    OneByOne(done);
  }

  // ... and in its own terms.
  method WriteIn(f: FatFile, vol: Volume, i: nat, data: seq<byte>, ghost v: FlatVolume) returns (done: nat)
    requires i < |v.files| && Shows(f, vol, i, v.files[i], true) && FlatOk(v, vol.size)
    requires v.free == |FreeSet(vol.table.fat[..])|
    modifies f`pos, f`posIn, f`cluster, f`realCluster, f`place, f`eof, f`chain, f`fileSize
    modifies vol`devPos, vol`disk, vol.table, vol.table.fat
    ensures f.Owns(i) && f.pos <= f.fileSize <= |f.Bytes()|
    ensures var w := WriteStep(v, vol.size, i, data);
      && w.files[i].content == f.Bytes()[..f.fileSize] && w.files[i].clusters == |f.chain|
      && w.files[i].pos == f.pos && w.files[i].cluster == f.cluster && w.files[i].known == f.Known()
      && (!w.full ==> f.Sound()) && w.full == (done < |data|) && w.free == |FreeSet(vol.table.fat[..])|
    ensures HasFile(old(vol.Files()), i) && HasFile(vol.Files(), i)
    ensures |vol.table.chains| == |old(vol.table.chains)| && vol.table.fat.Length == |old(vol.table.fat[..])|
    ensures OnlyGrows(old(vol.Files()), vol.Files(), i)
    ensures forall l | 0 <= l < |vol.table.chains| && l != i ::
      SameClusters(old(vol.disk), vol.disk, vol.dataStart, vol.size, vol.table.chains[l])
  {
    hide Flat, Clusters, IsChain, Offset, Progress, Stored, OnlyGrows, FreeSet, SameClusters, Growth, GrowBy, Forest;
    hide NoneFree, ChainFits;
    ShownStands(f, vol, i, v.files[i], true);
    ghost var disk0, chain0 := vol.disk, f.chain;
    ghost var n := Fitting(v.files[i], v.free, vol.size, |data|);
    vol.ChainOnDisk(chain0);
    PatchedParts(v.files[i].content, v.files[i].pos, data[..n]);
    hide Fitting, Room, GrownFor, HasFile, Patched;
    done := WriteRaw(f, vol, i, data, v);
    f.BytesLength();
    ContentAfter(disk0, vol.disk, vol.dataStart, vol.size, chain0, f.chain, v.files[i].content, v.files[i].pos,
                 data[..n]);
  }

  // It does what the flat file does, and takes the clusters it should.
  method WriteTo(f: FatFile, vol: Volume, i: nat, data: seq<byte>, ghost v: FlatVolume) returns (full: bool)
    requires i < |v.files| && Shows(f, vol, i, v.files[i], true) && FlatOk(v, vol.size)
    requires v.free == |FreeSet(vol.table.fat[..])|
    modifies f`pos, f`posIn, f`cluster, f`realCluster, f`place, f`eof, f`chain, f`fileSize
    modifies vol`devPos, vol`disk, vol.table, vol.table.fat
    ensures var w := WriteStep(v, vol.size, i, data);
      Shows(f, vol, i, w.files[i], !w.full) && w.free == |FreeSet(vol.table.fat[..])| && full == w.full
    ensures vol.Valid() && HasFile(old(vol.Files()), i) && HasFile(vol.Files(), i)
    ensures |vol.table.chains| == |old(vol.table.chains)| && vol.table.fat.Length == |old(vol.table.fat[..])|
    ensures OnlyGrows(old(vol.Files()), vol.Files(), i)
    ensures forall l | 0 <= l < |vol.table.chains| && l != i :: vol.table.chains[l] == old(vol.table.chains)[l]
    ensures forall l | 0 <= l < |vol.table.chains| && l != i ::
      SameClusters(old(vol.disk), vol.disk, vol.dataStart, vol.size, vol.table.chains[l])
  {
    hide Flat, Clusters, IsChain, Offset, Stored, OnlyGrows, FreeSet, SameClusters, Forest, FlatOk, HasFile;
    hide WriteStep, NoneFree, ChainFits;
    var done := WriteIn(f, vol, i, data, v);
    OthersKeep(old(vol.Files()), vol.Files(), i);
    ghost var w := WriteStep(v, vol.size, i, data);
    StandingShows(f, vol, i, w.files[i], !w.full);
    full := done < |data|;
  }

  // One stream reads or seeks, if it knows how long its file is.
  method ReadFrom(f: FatFile, vol: Volume, i: nat, op: FileOp, ghost v: FlatVolume) returns (out: seq<byte>)
    requires i < |v.files| && Shows(f, vol, i, v.files[i], true) && FlatOk(v, vol.size)
    modifies f`pos, f`posIn, f`cluster, f`realCluster, f`place, f`eof, vol`devPos
    ensures Shows(f, vol, i, ReadStep(v, vol.size, i, op).files[i], true)
    ensures v.out + out == ReadStep(v, vol.size, i, op).out
  {
    hide Flat, Clusters, IsChain, Offset, Stored, FlatStep;
    ShownStands(f, vol, i, v.files[i], true);
    OffsetIsProduct(f.lastCluster, vol.size);
    out := [];
    if f.lastCluster * vol.size + f.lastPosIn == f.fileSize {
      out := FatFiles.Perform(f, op, v.out);
    }
    StandingShows(f, vol, i, ReadStep(v, vol.size, i, op).files[i], true);
  }

  // What one stream does leaves the others alone.
  lemma StillShows(g: FatFile, vol: Volume, l: nat, flat: FlatFile, sound: bool, disk0: seq<byte>,
                   chains0: seq<seq<nat>>)
    requires vol.Valid() && g.vol == vol && Placed(g, flat, true)
    requires Stored(disk0, vol.dataStart, vol.size, chains0, l, flat.content) && g.chain == chains0[l]
    requires l < |vol.table.chains| && vol.table.chains[l] == chains0[l]
    requires SameClusters(disk0, vol.disk, vol.dataStart, vol.size, chains0[l])
    ensures Shows(g, vol, l, flat, sound)
  {
    hide Flat, Forest, Offset, Cluster;
  }

  method WriteOne(files: seq<FatFile>, vol: Volume, i: nat, data: seq<byte>, ghost v: FlatVolume) returns (full: bool)
    requires AllShow(files, vol, v) && !v.full && i < |files| && FlatOk(v, vol.size)
    modifies set f | f in files
    modifies vol`devPos, vol`disk, vol.table, vol.table.fat
    ensures AllShow(files, vol, WriteStep(v, vol.size, i, data)) && full == WriteStep(v, vol.size, i, data).full
  {
    hide Stored, Placed, Forest, OnlyGrows, SameClusters, FreeSet, FlatOk;
    ghost var disk0, chains0 := vol.disk, vol.table.chains;
    full := WriteTo(files[i], vol, i, data, v);
    forall l | 0 <= l < |files| && l != i
      ensures Shows(files[l], vol, l, v.files[l], !WriteStep(v, vol.size, i, data).full)
    {
      StillShows(files[l], vol, l, v.files[l], !WriteStep(v, vol.size, i, data).full, disk0, chains0);
    }
  }

  method ReadOne(files: seq<FatFile>, vol: Volume, i: nat, op: FileOp, ghost v: FlatVolume) returns (out: seq<byte>)
    requires AllShow(files, vol, v) && !v.full && i < |files| && FlatOk(v, vol.size)
    modifies set f | f in files
    modifies vol`devPos
    ensures AllShow(files, vol, ReadStep(v, vol.size, i, op)) && v.out + out == ReadStep(v, vol.size, i, op).out
  {
    hide Stored, Placed, Forest, FreeSet, FlatOk, FlatStep;
    out := ReadFrom(files[i], vol, i, op, v);
    forall l | 0 <= l < |files| && l != i ensures Shows(files[l], vol, l, v.files[l], true) {
    }
  }

  // A stream just opened on chain i shows a flat file of that size.
  ghost predicate Opened(vol: Volume, i: nat, size: nat, g: FlatFile)
    reads vol, vol.table
  {
    && |g.content| == g.known == size && g.pos == g.cluster == 0
    && i < |vol.table.chains| && g.clusters == |vol.table.chains[i]| && size <= Offset(g.clusters, vol.size)
    && Stored(vol.disk, vol.dataStart, vol.size, vol.table.chains, i, g.content)
  }

  method OpenOne(vol: Volume, i: nat, first: nat, size: nat) returns (f: FatFile, ghost g: FlatFile)
    requires vol.Valid() && i < |vol.table.chains|
    requires first == vol.table.chains[i][0] && size <= Offset(|vol.table.chains[i]|, vol.size)
    ensures fresh(f) && Shows(f, vol, i, g, true) && Opened(vol, i, size, g)
  {
    hide Stored, Flat, Clusters, Offset;
    f := new FatFile(vol, first, size, vol.table.chains[i]);
    f.BytesLength();
    g := FlatFile(f.Bytes()[..f.fileSize], |f.chain|, 0, 0, f.fileSize);
    StandingShows(f, vol, i, g, true);
  }

  method OpenAll(vol: Volume, firsts: seq<nat>, sizes: seq<nat>) returns (files: seq<FatFile>, ghost start: FlatVolume)
    requires vol.Valid() && |firsts| == |sizes| <= |vol.table.chains|
    requires forall i | 0 <= i < |firsts| ::
      firsts[i] == vol.table.chains[i][0] && sizes[i] <= Offset(|vol.table.chains[i]|, vol.size)
    ensures fresh(files) && AllShow(files, vol, start)
    ensures |start.files| == |firsts| && start.free == |FreeSet(vol.table.fat[..])| && start.out == []
    ensures FlatOk(start, vol.size) && !start.full
    ensures forall i | 0 <= i < |firsts| :: Opened(vol, i, sizes[i], start.files[i])
  {
    hide Shows, FreeSet, Offset, Stored, Forest;
    files := [];
    start := FlatVolume([], |FreeSet(vol.table.fat[..])|, false, []);
    while |files| < |firsts|
      invariant |files| <= |firsts| && fresh(files) && AllShow(files, vol, start)
      invariant !start.full && start.out == []
      invariant forall i | 0 <= i < |files| :: Opened(vol, i, sizes[i], start.files[i])
    {
      ghost var g;
      var f;
      f, g := OpenOne(vol, |files|, firsts[|files|], sizes[|files|]);
      files, start := files + [f], start.(files := start.files + [g]);
    }
  }

  // Every run over the files of a volume, each opened once and then read, sought and written in
  // any order, is the run of flat files that share so many free clusters: contents, positions,
  // clusters and what is read are theirs, up to the first write that finds the volume full, and
  // that write gets exactly as far.
  method VolumeRun(vol: Volume, firsts: seq<nat>, sizes: seq<nat>, ops: seq<VolumeOp>)
    returns (files: seq<FatFile>, out: seq<byte>, ghost start: FlatVolume)
    requires vol.Valid() && |firsts| == |sizes| <= |vol.table.chains|
    requires forall i | 0 <= i < |firsts| ::
      firsts[i] == vol.table.chains[i][0] && sizes[i] <= Offset(|vol.table.chains[i]|, vol.size)
    modifies vol`devPos, vol`disk, vol.table, vol.table.fat
    ensures |start.files| == |firsts| && start.free == |FreeSet(old(vol.table.fat[..]))| && start.out == []
    ensures FlatOk(start, vol.size) && !start.full
    ensures forall i | 0 <= i < |firsts| :: old(Opened(vol, i, sizes[i], start.files[i]))
    ensures AllShow(files, vol, Run(start, vol.size, ops)) && out == Run(start, vol.size, ops).out
  {
    hide Stored, Placed, Forest, FreeSet, WriteStep, ReadStep, Shows;
    files, start := OpenAll(vol, firsts, sizes);
    out := [];
    var k: nat, full := 0, false;
    while k < |ops|
      invariant k <= |ops| && fresh(files) && AllShow(files, vol, Run(start, vol.size, ops[..k]))
      invariant out == Run(start, vol.size, ops[..k]).out && full == Run(start, vol.size, ops[..k]).full
    {
      ghost var v := Run(start, vol.size, ops[..k]);
      assert ops[..k + 1][..k] == ops[..k];
      if !full && ops[k].i < |files| {
        match ops[k] {
          case ReadOrSeek(i, op) =>
            var more := ReadOne(files, vol, i, op, v);
            out := out + more;
          case Write(i, data) =>
            full := WriteOne(files, vol, i, data, v);
        }
      }
      k := k + 1;
    }
    assert ops[..|ops|] == ops;
  }
}
