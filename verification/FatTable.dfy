// The file allocation table that src/filesys/fat/fat16.c keeps in memory for FAT12: how it is
// packed on disk, the chains in it, and giving a chain one more cluster.

module FatTable {
  import opened FlatBlocks
  import opened BlockChains
  import opened Sequences

  type entry = x: int | 0 <= x < 0x1_0000

  const NO_CLUSTER: entry := 0xffff
  // From here on a number is not that of a cluster in use; the largest FAT12 disk stays far below.
  const MAX_CLUSTERS := 0xfff0

  predicate IsFree(e: entry) { e == 0 }
  predicate IsUsed(e: entry) { 1 < e < 0xfff0 }
  predicate IsEof(e: entry) { 0xfff7 < e }

  // ---- two 12-bit entries in three bytes ----

  function PackPair(e1: entry, e2: entry): (byte, byte, byte) {
    var (a, b) := (e1 % 0x1000, e2 % 0x1000);
    (a % 256, a / 256 + b % 16 * 16, b / 16)
  }

  // A 12-bit value from 0xff0 up is one of the special entries.
  function Widen(v: nat): entry
    requires v < 0x1000
  {
    if v >= 0xff0 then v + 0xf000 else v
  }

  function UnpackPair(b0: byte, b1: byte, b2: byte): (entry, entry) {
    (Widen(b0 + b1 % 16 * 256), Widen(b1 / 16 + b2 * 16))
  }

  // An entry that a FAT12 disk can hold.
  predicate Representable(e: entry) { e < 0xff0 || e >= 0xfff0 }

  lemma WidenUndone(e: entry)
    ensures Widen(e % 0x1000) == e <==> Representable(e)
  {
  }

  // An entry survives the disk if and only if it is representable ...
  lemma PairRoundTrip(e1: entry, e2: entry)
    ensures var (b0, b1, b2) := PackPair(e1, e2);
      var (f1, f2) := UnpackPair(b0, b1, b2);
      (f1 == e1 <==> Representable(e1)) && (f2 == e2 <==> Representable(e2))
  {
    hide Widen, Representable;
    var a, b := e1 % 0x1000, e2 % 0x1000;
    var b1 := a / 256 + b % 16 * 16;
    assert b1 % 16 == a / 256 && b1 / 16 == b % 16;
    WidenUndone(e1);
    WidenUndone(e2);
  }

  lemma WidenKeepsLow(v: nat)
    requires v < 0x1000
    ensures Widen(v) % 0x1000 == v
  {
  }

  // ... and every three bytes are what packing their entries gives back.
  lemma BytesRoundTrip(b0: byte, b1: byte, b2: byte)
    ensures var (e1, e2) := UnpackPair(b0, b1, b2); PackPair(e1, e2) == (b0, b1, b2)
  {
    var a, b := b0 + b1 % 16 * 256, b1 / 16 + b2 * 16;
    WidenKeepsLow(a);
    WidenKeepsLow(b);
    assert a % 256 == b0 && a / 256 == b1 % 16;
    assert b % 16 == b1 / 16 && b / 16 == b2;
  }

  function Packed(fat: seq<entry>): (bytes: seq<byte>)
    requires |fat| % 2 == 0
    ensures |bytes| == |fat| / 2 * 3
  {
    if fat == [] then []
    else
      var (b0, b1, b2) := PackPair(fat[0], fat[1]);
      [b0, b1, b2] + Packed(fat[2..])
  }

  lemma NothingPacked(fat: seq<entry>)
    ensures |fat| % 2 == 0 ==> fat[0..] == fat && Packed(fat[|fat|..]) == []
  {
  }

  lemma PackedStep(fat: seq<entry>, i: nat)
    requires |fat| % 2 == 0 && i % 2 == 0 && i < |fat|
    ensures i + 1 < |fat|
    ensures var (b0, b1, b2) := PackPair(fat[i], fat[i + 1]); Packed(fat[i..]) == [b0, b1, b2] + Packed(fat[i + 2..])
  {
    assert fat[i..][2..] == fat[i + 2..];
  }

  function Unpacked(bytes: seq<byte>): (fat: seq<entry>)
    requires |bytes| % 3 == 0
    ensures |fat| == |bytes| / 3 * 2
  {
    if bytes == [] then []
    else
      var (e1, e2) := UnpackPair(bytes[0], bytes[1], bytes[2]);
      [e1, e2] + Unpacked(bytes[3..])
  }

  lemma {:induction false} UnpackedAt(bytes: seq<byte>, i: nat)
    requires |bytes| % 3 == 0 && i < |bytes| / 3
    ensures (Unpacked(bytes)[2 * i], Unpacked(bytes)[2 * i + 1]) ==
      UnpackPair(bytes[3 * i], bytes[3 * i + 1], bytes[3 * i + 2])
  {
    hide UnpackPair;
    if i > 0 {
      UnpackedAt(bytes[3..], i - 1);
    }
  }

  // ---- the layout on disk in plain numbers ----

  lemma TwelveBits(a: nat, b: nat)
    requires a < 0x1000
    ensures (a + 0x1000 * b) % 0x1000 == a && (a + 0x1000 * b) / 0x1000 == b
  {
  }

  // What the twelve bits on disk mean: a free cluster, one in use, the end of a chain, or none of
  // these.
  lemma TwelveBitKinds(v: nat)
    requires v < 0x1000
    ensures IsFree(Widen(v)) <==> v == 0
    ensures IsUsed(Widen(v)) <==> 2 <= v <= 0xfef
    ensures IsEof(Widen(v)) <==> 0xff8 <= v
  {
  }

  // Three bytes, lowest first, hold the first entry in their lower twelve bits and the second in
  // the upper twelve.
  lemma PairOnDisk(e1: entry, e2: entry)
    ensures var (b0, b1, b2) := PackPair(e1, e2);
      var v := b0 as nat + 256 * b1 as nat + 65536 * b2 as nat;
      v % 0x1000 == e1 % 0x1000 && v / 0x1000 == e2 % 0x1000
  {
    var a: nat, b: nat := e1 % 0x1000, e2 % 0x1000;
    var (b0, b1, b2) := PackPair(e1, e2);
    assert b0 as nat + 256 * b1 as nat + 65536 * b2 as nat == a + 0x1000 * b by {
      assert a == a % 256 + 256 * (a / 256) && b == b % 16 + 16 * (b / 16);
    }
    hide PackPair;
    TwelveBits(a, b);
  }

  lemma PairFromDisk(b0: byte, b1: byte, b2: byte)
    ensures var (e1, e2) := UnpackPair(b0, b1, b2);
      var v := b0 as nat + 256 * b1 as nat + 65536 * b2 as nat;
      && e1 == (if v % 0x1000 < 0xff0 then v % 0x1000 else v % 0x1000 + 0xf000)
      && e2 == if v / 0x1000 < 0xff0 then v / 0x1000 else v / 0x1000 + 0xf000
  {
    var a, b := b0 + b1 % 16 * 256, b1 / 16 + b2 * 16;
    assert b1 == b1 % 16 + 16 * (b1 / 16);
    assert b0 + 256 * b1 + 65536 * b2 == a + 0x1000 * b;
  }

  lemma {:induction false} PackedAt(fat: seq<entry>, i: nat)
    requires |fat| % 2 == 0 && i < |fat| / 2
    ensures (Packed(fat)[3 * i], Packed(fat)[3 * i + 1], Packed(fat)[3 * i + 2]) == PackPair(fat[2 * i], fat[2 * i + 1])
  {
    hide PackPair;
    if i > 0 {
      PackedAt(fat[2..], i - 1);
    }
  }

  lemma PackedOnDisk(fat: seq<entry>, bytes: seq<byte>, i: nat)
    requires |fat| % 2 == 0 && i < |fat| / 2 && bytes == Packed(fat)
    ensures var v := bytes[3 * i] as nat + 256 * bytes[3 * i + 1] as nat + 65536 * bytes[3 * i + 2] as nat;
      v % 0x1000 == fat[2 * i] % 0x1000 && v / 0x1000 == fat[2 * i + 1] % 0x1000
  {
    hide Packed, PackPair;
    PackedAt(fat, i);
    PairOnDisk(fat[2 * i], fat[2 * i + 1]);
  }

  lemma UnpackedFromDisk(fat: seq<entry>, bytes: seq<byte>, i: nat)
    requires |bytes| % 3 == 0 && i < |bytes| / 3 && fat == Unpacked(bytes)
    ensures var v := bytes[3 * i] as nat + 256 * bytes[3 * i + 1] as nat + 65536 * bytes[3 * i + 2] as nat;
      && fat[2 * i] == (if v % 0x1000 < 0xff0 then v % 0x1000 else v % 0x1000 + 0xf000)
      && fat[2 * i + 1] == if v / 0x1000 < 0xff0 then v / 0x1000 else v / 0x1000 + 0xf000
  {
    hide Unpacked, UnpackPair;
    UnpackedAt(bytes, i);
    PairFromDisk(bytes[3 * i], bytes[3 * i + 1], bytes[3 * i + 2]);
  }

  // A whole table comes back from the disk but for the entries no FAT12 disk can hold.
  lemma {:induction false} TableRoundTrip(fat: seq<entry>)
    requires |fat| % 2 == 0
    ensures forall c | 0 <= c < |fat| :: Unpacked(Packed(fat))[c] == fat[c] <==> Representable(fat[c])
  {
    if fat != [] {
      PairRoundTrip(fat[0], fat[1]);
      TableRoundTrip(fat[2..]);
      assert Packed(fat)[3..] == Packed(fat[2..]);
    }
  }

  lemma {:induction false} DiskRoundTrip(bytes: seq<byte>)
    requires |bytes| % 3 == 0
    ensures Packed(Unpacked(bytes)) == bytes
  {
    if bytes != [] {
      BytesRoundTrip(bytes[0], bytes[1], bytes[2]);
      DiskRoundTrip(bytes[3..]);
      assert Unpacked(bytes)[2..] == Unpacked(bytes[3..]);
    }
  }

  // ---- chains ----

  // s runs through the table: each cluster names the next, the last one ends the chain.
  predicate IsChain(fat: seq<entry>, s: seq<nat>) {
    && s != []
    && (forall i | 0 <= i < |s| :: FIRST_CLUSTER <= s[i] < |fat|)
    && (forall i | 0 <= i < |s| - 1 :: fat[s[i]] == s[i + 1])
    && IsEof(fat[s[|s| - 1]])
  }

  predicate Disjoint(s: seq<nat>, t: seq<nat>) {
    forall c | c in s :: c !in t
  }

  // All files' chains: none runs into itself or into another.
  ghost predicate Forest(fat: seq<entry>, chains: seq<seq<nat>>) {
    && |fat| <= MAX_CLUSTERS
    && (forall k | 0 <= k < |chains| :: IsChain(fat, chains[k]) && Distinct(chains[k]))
    && (forall k, l | 0 <= k < l < |chains| :: Disjoint(chains[k], chains[l]))
  }

  // The table alone decides the chain that starts at a cluster.
  lemma {:induction false} ChainUnique(fat: seq<entry>, s: seq<nat>, t: seq<nat>)
    requires IsChain(fat, s) && IsChain(fat, t) && s[0] == t[0] && |fat| <= MAX_CLUSTERS
    ensures s == t
  {
    assert |s| > 1 ==> fat[s[0]] == s[1];
    assert |t| > 1 ==> fat[t[0]] == t[1];
    if |s| > 1 {
      ChainUnique(fat, s[1..], t[1..]);
      assert s == [s[0]] + s[1..] && t == [t[0]] + t[1..];
    }
  }

  // A chain never revisits a cluster: a walk that did would never end.
  lemma {:induction false} ChainDistinct(fat: seq<entry>, s: seq<nat>)
    requires IsChain(fat, s) && |fat| <= MAX_CLUSTERS
    ensures Distinct(s)
  {
    forall i, j | 0 <= i < j < |s| ensures s[i] != s[j] {
      if s[i] == s[j] {
        assert IsChain(fat, s[i..]) && IsChain(fat, s[j..]);
        ChainUnique(fat, s[i..], s[j..]);
      }
    }
  }

  lemma {:induction false} FreeIsOutside(fat: seq<entry>, chains: seq<seq<nat>>, i: nat, k: nat)
    requires Forest(fat, chains) && i < |fat| && IsFree(fat[i]) && k < |chains|
    ensures i !in chains[k]
  {
    var s := chains[k];
    forall j | 0 <= j < |s| ensures s[j] != i {
      assert j < |s| - 1 ==> fat[s[j]] == s[j + 1];
    }
  }

  // A chain survives the disk if and only if it does not go on to a cluster that 12 bits cannot
  // name: fat12_set_next_cluster hands those out, too, on a disk that is large enough.
  lemma ChainSurvives(fat: seq<entry>, s: seq<nat>)
    requires |fat| % 2 == 0 && |fat| <= MAX_CLUSTERS && IsChain(fat, s)
    ensures IsChain(Unpacked(Packed(fat)), s) <==> forall i | 1 <= i < |s| :: s[i] < 0xff0
  {
    hide Packed, Unpacked;
    var disk := Unpacked(Packed(fat));
    TableRoundTrip(fat);
    assert disk[s[|s| - 1]] == fat[s[|s| - 1]];
    if IsChain(disk, s) {
      forall i | 1 <= i < |s| ensures s[i] < 0xff0 {
        assert disk[s[i - 1]] == s[i] == fat[s[i - 1]];
      }
    } else {
      var i :| 0 <= i < |s| - 1 && disk[s[i]] != s[i + 1];
      assert fat[s[i]] == s[i + 1];
    }
  }

  lemma ForestSurvives(fat: seq<entry>, chains: seq<seq<nat>>)
    requires |fat| % 2 == 0 && Forest(fat, chains)
    ensures Forest(Unpacked(Packed(fat)), chains) <==> forall k, i | 0 <= k < |chains| && 1 <= i < |chains[k]| ::
      chains[k][i] < 0xff0
  {
    hide Packed, Unpacked, IsChain, Distinct, Disjoint;
    var disk := Unpacked(Packed(fat));
    forall k | 0 <= k < |chains|
      ensures IsChain(disk, chains[k]) <==> forall i | 1 <= i < |chains[k]| :: chains[k][i] < 0xff0
    {
      ChainSurvives(fat, chains[k]);
    }
    assert Forest(disk, chains) <==> forall k | 0 <= k < |chains| :: IsChain(disk, chains[k]);
  }

  // A free cluster is linked behind chain k: that chain grows by it, the others stay.
  lemma ExtendKeepsForest(fat: seq<entry>, chains: seq<seq<nat>>, k: nat, i: nat)
    requires Forest(fat, chains) && k < |chains|
    requires FIRST_CLUSTER <= i < |fat| && IsFree(fat[i])
    ensures var last := chains[k][|chains[k]| - 1];
      Forest(fat[i := NO_CLUSTER][last := i], chains[k := chains[k] + [i]])
  {
    var last := chains[k][|chains[k]| - 1];
    var after := fat[i := NO_CLUSTER][last := i];
    forall l | 0 <= l < |chains| ensures i !in chains[l] && (l != k ==> last !in chains[l]) {
      FreeIsOutside(fat, chains, i, l);
      assert l < k ==> Disjoint(chains[l], chains[k]);
      assert k < l ==> Disjoint(chains[k], chains[l]);
    }
    var grown := chains[k] + [i];
    forall j | 0 <= j < |grown| - 1 ensures after[grown[j]] == grown[j + 1] {
      assert j < |chains[k]| - 1 ==> chains[k][j] != last;
    }
    assert IsChain(after, grown) && Distinct(grown);
  }

  // A free cluster becomes a chain of its own.
  lemma StartKeepsForest(fat: seq<entry>, chains: seq<seq<nat>>, i: nat)
    requires Forest(fat, chains) && FIRST_CLUSTER <= i < |fat| && IsFree(fat[i])
    ensures Forest(fat[i := NO_CLUSTER], chains + [[i]])
  {
    forall l | 0 <= l < |chains| ensures i !in chains[l] {
      FreeIsOutside(fat, chains, i, l);
    }
    assert IsChain(fat[i := NO_CLUSTER], [i]);
  }

  // ---- the table in memory ----

  class Table {
    const fat: array<entry>
    ghost var chains: seq<seq<nat>>

    ghost predicate Valid()
      reads this, fat
    {
      Forest(fat[..], chains)
    }

    // A table in which everything is free; reading one from the disk is ReadFat.
    constructor (count: nat)
      requires count <= MAX_CLUSTERS
      ensures Valid() && chains == [] && fat.Length == count && fresh(fat)
    {
      fat := new entry[count](i => 0);
      chains := [];
    }

    // fat12_get_fat
    method GetFat(cluster: nat) returns (e: entry)
      requires cluster < fat.Length
      ensures e == fat[cluster]
    {
      e := fat[cluster];
    }

    // fat12_set_next_cluster.  A used cluster has to be the last of a chain, number k.
    method SetNextCluster(cluster: entry, ghost k: nat) returns (i: entry)
      requires Valid()
      requires 1 < cluster < 0xfff0 ==> k < |chains| && cluster == chains[k][|chains[k]| - 1]
      modifies this, fat
      ensures Valid()
      ensures i == 0xffff <==> forall c | 2 <= c < fat.Length :: old(fat[c]) != 0
      ensures i == 0xffff ==> fat[..] == old(fat[..]) && chains == old(chains)
      ensures i != 0xffff ==>
        && 2 <= i < fat.Length && old(fat[i]) == 0
        && (forall c | 2 <= c < i :: old(fat[c]) != 0)
        && (1 < cluster < 0xfff0 ==>
             && fat[..] == old(fat[..])[i := 0xffff][cluster := i]
             && chains == old(chains)[k := old(chains)[k] + [i]])
        && (!(1 < cluster < 0xfff0) ==> fat[..] == old(fat[..])[i := 0xffff] && chains == old(chains) + [[i]])
    {
      var c := FIRST_CLUSTER;
      while c < fat.Length
        invariant FIRST_CLUSTER <= c
        invariant forall b | FIRST_CLUSTER <= b < c && b < fat.Length :: !IsFree(fat[b])
      {
        if IsFree(fat[c]) {
          fat[c] := NO_CLUSTER;
          if IsUsed(cluster) {
            ExtendKeepsForest(old(fat[..]), chains, k, c);
            fat[cluster] := c;
            chains := chains[k := chains[k] + [c]];
            assert fat[..] == old(fat[..])[c := NO_CLUSTER][cluster := c];
          } else {
            StartKeepsForest(old(fat[..]), chains, c);
            chains := chains + [[c]];
            assert fat[..] == old(fat[..])[c := NO_CLUSTER];
          }
          return c;
        }
        c := c + 1;
      }
      return NO_CLUSTER;
    }

    // fat12_write_fat
    method WriteFat() returns (bytes: seq<byte>)
      requires fat.Length % 2 == 0
      ensures bytes == Packed(fat[..])
      ensures |bytes| == fat.Length / 2 * 3
      ensures forall i: nat | i < fat.Length / 2 ::
        var v := bytes[3 * i] as nat + 256 * bytes[3 * i + 1] as nat + 65536 * bytes[3 * i + 2] as nat;
        v % 0x1000 == fat[2 * i] % 0x1000 && v / 0x1000 == fat[2 * i + 1] % 0x1000
    {
      hide PackPair, Packed;
      bytes := [];
      NothingPacked(fat[..]);
      var i := 0;
      while i < fat.Length
        invariant i % 2 == 0 && i <= fat.Length
        invariant bytes + Packed(fat[i..]) == Packed(fat[..])
      {
        var (b0, b1, b2) := PackPair(fat[i], fat[i + 1]);
        PackedStep(fat[..], i);
        assert bytes + ([b0, b1, b2] + Packed(fat[i + 2..])) == (bytes + [b0, b1, b2]) + Packed(fat[i + 2..]);
        bytes := bytes + [b0, b1, b2];
        i := i + 2;
      }
      forall i: nat | i < fat.Length / 2
        ensures var v := bytes[3 * i] as nat + 256 * bytes[3 * i + 1] as nat + 65536 * bytes[3 * i + 2] as nat;
          v % 0x1000 == fat[2 * i] % 0x1000 && v / 0x1000 == fat[2 * i + 1] % 0x1000
      {
        PackedOnDisk(fat[..], bytes, i);
      }
    }

    // fat12_read_fat
    method ReadFat(bytes: seq<byte>)
      requires fat.Length % 2 == 0 && |bytes| == fat.Length / 2 * 3
      modifies fat
      ensures fat[..] == Unpacked(bytes)
      ensures forall i: nat | i < fat.Length / 2 ::
        var v := bytes[3 * i] as nat + 256 * bytes[3 * i + 1] as nat + 65536 * bytes[3 * i + 2] as nat;
        && fat[2 * i] == (if v % 0x1000 < 0xff0 then v % 0x1000 else v % 0x1000 + 0xf000)
        && fat[2 * i + 1] == if v / 0x1000 < 0xff0 then v / 0x1000 else v / 0x1000 + 0xf000
    {
      hide Unpacked, UnpackPair;
      var i := 0;
      while i < fat.Length
        invariant i % 2 == 0 && i <= fat.Length
        invariant forall c | 0 <= c < i :: fat[c] == Unpacked(bytes)[c]
      {
        var p := i / 2 * 3;
        UnpackedAt(bytes, i / 2);
        var (e1, e2) := UnpackPair(bytes[p], bytes[p + 1], bytes[p + 2]);
        fat[i], fat[i + 1] := e1, e2;
        i := i + 2;
      }
      forall i: nat | i < fat.Length / 2
        ensures var v := bytes[3 * i] as nat + 256 * bytes[3 * i + 1] as nat + 65536 * bytes[3 * i + 2] as nat;
          && fat[2 * i] == (if v % 0x1000 < 0xff0 then v % 0x1000 else v % 0x1000 + 0xf000)
          && fat[2 * i + 1] == if v / 0x1000 < 0xff0 then v / 0x1000 else v / 0x1000 + 0xf000
      {
        UnpackedFromDisk(fat[..], bytes, i);
      }
    }
  }
}
