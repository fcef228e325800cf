// Giving the files of a FAT volume more clusters, as a function of the table: always the lowest
// free one, linked behind the last of the file's chain.

module FatGrowth {
  import opened FlatBlocks
  import opened BlockChains
  import opened FatTable

  // The table, and the chains of all files in it.
  datatype Files = Files(fat: seq<entry>, chains: seq<seq<nat>>)

  ghost predicate HasFile(t: Files, k: nat) {
    Forest(t.fat, t.chains) && k < |t.chains|
  }

  ghost function FreeSet(fat: seq<entry>): set<nat> {
    set c: nat | FIRST_CLUSTER <= c < |fat| && IsFree(fat[c])
  }

  ghost predicate NoneFree(fat: seq<entry>) {
    forall c | FIRST_CLUSTER <= c < |fat| :: !IsFree(fat[c])
  }

  lemma NoneLeft(fat: seq<entry>)
    ensures NoneFree(fat) <==> |FreeSet(fat)| == 0
  {
    if |FreeSet(fat)| == 0 {
      forall c | FIRST_CLUSTER <= c < |fat| ensures !IsFree(fat[c]) {
        assert c !in FreeSet(fat);
      }
    } else {
      assert exists c :: c in FreeSet(fat);
    }
  }

  // The lowest free cluster from c on; the number of entries when there is none.
  function FirstFree(fat: seq<entry>, c: nat): (i: nat)
    requires c <= |fat|
    ensures c <= i <= |fat| && (forall b | c <= b < i :: !IsFree(fat[b])) && (i < |fat| ==> IsFree(fat[i]))
    decreases |fat| - c
  {
    if c == |fat| || IsFree(fat[c]) then c else FirstFree(fat, c + 1)
  }

  lemma LowestIs(fat: seq<entry>, i: nat)
    requires FIRST_CLUSTER <= i < |fat| && IsFree(fat[i]) && forall b | FIRST_CLUSTER <= b < i :: !IsFree(fat[b])
    ensures FirstFree(fat, FIRST_CLUSTER) == i
  {
  }

  // Chain k gets the lowest free cluster, if there is any.
  ghost function Extend(t: Files, k: nat): (u: Files)
    requires HasFile(t, k)
    ensures HasFile(u, k) && |u.fat| == |t.fat| && |u.chains| == |t.chains|
  {
    var last := t.chains[k][|t.chains[k]| - 1];
    var i := FirstFree(t.fat, FIRST_CLUSTER);
    if i == |t.fat| then t
    else
      ExtendKeepsForest(t.fat, t.chains, k, i);
      Files(t.fat[i := NO_CLUSTER][last := i], t.chains[k := t.chains[k] + [i]])
  }

  ghost function GrowBy(t: Files, k: nat, n: nat): (u: Files)
    requires HasFile(t, k)
    ensures HasFile(u, k) && |u.fat| == |t.fat| && |u.chains| == |t.chains|
  {
    if n == 0 then t else Extend(GrowBy(t, k, n - 1), k)
  }

  // The growth of one chain: no other chain, no other entry and no other free cluster is touched,
  // and no cluster is gained or lost.
  ghost predicate OnlyGrows(t: Files, u: Files, k: nat)
    requires k < |t.chains| == |u.chains| && |t.fat| == |u.fat|
  {
    && t.chains[k] <= u.chains[k]
    && (forall l | 0 <= l < |u.chains| && l != k :: u.chains[l] == t.chains[l])
    && (forall c: nat | c < |u.fat| && c !in u.chains[k] :: u.fat[c] == t.fat[c])
    && (forall c: nat :: c in FreeSet(u.fat) <==> c in FreeSet(t.fat) && c !in u.chains[k])
    && (forall i | |t.chains[k]| <= i < |u.chains[k]| :: u.chains[k][i] in FreeSet(t.fat))
    && |FreeSet(u.fat)| + |u.chains[k]| == |FreeSet(t.fat)| + |t.chains[k]|
  }

  lemma ExtendOnlyGrows(t: Files, k: nat)
    requires HasFile(t, k)
    ensures OnlyGrows(t, Extend(t, k), k)
    ensures |Extend(t, k).chains[k]| == |t.chains[k]| + if NoneFree(t.fat) then 0 else 1
  {
    var s, u := t.chains[k], Extend(t, k);
    assert forall c: nat | c in FreeSet(t.fat) :: c !in s by {
      forall c: nat | c in FreeSet(t.fat) ensures c !in s {
        FreeIsOutside(t.fat, t.chains, c, k);
      }
    }
    if u != t {
      var i := FirstFree(t.fat, FIRST_CLUSTER);
      assert u.fat[s[|s| - 1]] == i;
      assert FreeSet(u.fat) == FreeSet(t.fat) - {i};
    }
  }

  lemma OnlyGrowsTwice(t: Files, u: Files, v: Files, k: nat)
    requires k < |t.chains| == |u.chains| == |v.chains| && |t.fat| == |u.fat| == |v.fat|
    requires OnlyGrows(t, u, k) && OnlyGrows(u, v, k)
    ensures OnlyGrows(t, v, k)
  {
    assert forall c | c in u.chains[k] :: c in v.chains[k];
    forall i | |t.chains[k]| <= i < |v.chains[k]| ensures v.chains[k][i] in FreeSet(t.fat) {
      assert i < |u.chains[k]| ==> v.chains[k][i] == u.chains[k][i];
    }
  }

  lemma StayingOnlyGrows(t: Files, k: nat)
    requires HasFile(t, k)
    ensures OnlyGrows(t, t, k)
  {
    forall c: nat | c in FreeSet(t.fat) ensures c !in t.chains[k] {
      FreeIsOutside(t.fat, t.chains, c, k);
    }
  }

  lemma Balance(t: Files, u: Files, k: nat)
    requires k < |t.chains| == |u.chains| && |t.fat| == |u.fat| && OnlyGrows(t, u, k)
    ensures |FreeSet(u.fat)| + |u.chains[k]| == |FreeSet(t.fat)| + |t.chains[k]|
    ensures |t.chains[k]| <= |u.chains[k]| && u.chains[k][..|t.chains[k]|] == t.chains[k]
  {
  }

  // n more clusters, or as many as there are.
  lemma {:induction false} GrowByOnlyGrows(t: Files, k: nat, n: nat)
    requires HasFile(t, k)
    ensures OnlyGrows(t, GrowBy(t, k, n), k)
    ensures |GrowBy(t, k, n).chains[k]| == |t.chains[k]| + if n < |FreeSet(t.fat)| then n else |FreeSet(t.fat)|
  {
    hide OnlyGrows, FreeSet, Forest, Extend, NoneFree;
    if n == 0 {
      StayingOnlyGrows(t, k);
    } else {
      GrowByOnlyGrows(t, k, n - 1);
      var u := GrowBy(t, k, n - 1);
      ExtendOnlyGrows(u, k);
      NoneLeft(u.fat);
      OnlyGrowsTwice(t, u, Extend(u, k), k);
      Balance(t, u, k);
    }
  }

  lemma {:induction false} GrowByAdds(t: Files, k: nat, a: nat, b: nat)
    requires HasFile(t, k)
    ensures GrowBy(GrowBy(t, k, a), k, b) == GrowBy(t, k, a + b)
  {
    hide Extend, HasFile;
    if b == 0 {
    } else {
      GrowByAdds(t, k, a, b - 1);
      assert GrowBy(t, k, a + b) == Extend(GrowBy(t, k, a + b - 1), k);
    }
  }

  // From t to u chain k has grown, or stayed; everything else follows from its length.
  ghost predicate Grown(k: nat, t: Files, u: Files) {
    && HasFile(t, k) && k < |u.chains| && |t.chains[k]| <= |u.chains[k]|
    && u == GrowBy(t, k, |u.chains[k]| - |t.chains[k]|)
  }

  lemma NotGrown(k: nat, t: Files)
    requires HasFile(t, k)
    ensures Grown(k, t, t)
  {
  }

  lemma GrownOnce(k: nat, t: Files)
    requires HasFile(t, k)
    ensures Grown(k, t, Extend(t, k))
  {
    ExtendOnlyGrows(t, k);
    var u := Extend(t, k);
    assert GrowBy(t, k, 0) == t && GrowBy(t, k, 1) == u;
  }

  lemma GrownTwice(k: nat, t: Files, u: Files, v: Files)
    requires Grown(k, t, u) && Grown(k, u, v)
    ensures Grown(k, t, v)
  {
    hide GrowBy, Forest;
    GrowByAdds(t, k, |u.chains[k]| - |t.chains[k]|, |v.chains[k]| - |u.chains[k]|);
  }

  lemma GrownOnlyGrows(k: nat, t: Files, u: Files)
    requires Grown(k, t, u)
    ensures HasFile(u, k) && |u.fat| == |t.fat| && |u.chains| == |t.chains| && OnlyGrows(t, u, k)
  {
    GrowByOnlyGrows(t, k, |u.chains[k]| - |t.chains[k]|);
  }

  // How many clusters a chain of so many gets so that it reaches `end`: no more than it takes,
  // and no more than there are.
  ghost function Growth(clusters: nat, free: nat, size: nat, end: nat): (m: nat)
    ensures m <= free
    decreases free
  {
    if free == 0 || end <= Offset(clusters, size) then 0 else 1 + Growth(clusters + 1, free - 1, size, end)
  }

  lemma {:induction false} GrowthIs(clusters: nat, free: nat, size: nat, end: nat, m: nat)
    requires m <= free && (end <= Offset(clusters + m, size) || m == free)
    requires 0 < m ==> Offset(clusters + m - 1, size) < end
    ensures m == Growth(clusters, free, size, end)
    decreases m
  {
    hide Offset;
    if m > 0 {
      OffsetMonotone(clusters, clusters + m - 1, size);
      GrowthIs(clusters + 1, free - 1, size, end, m - 1);
    }
  }

  // How far a chain could be written: to its end, with every free cluster behind it.
  ghost function Room(t: Files, k: nat, size: nat): nat
    requires k < |t.chains|
  {
    Offset(|t.chains[k]| + |FreeSet(t.fat)|, size)
  }

  // The table after n bytes were to be written from spot on.
  ghost function GrownFor(t: Files, k: nat, size: nat, spot: nat, n: nat): Files
    requires HasFile(t, k)
  {
    GrowBy(t, k, Growth(|t.chains[k]|, |FreeSet(t.fat)|, size, spot + n))
  }

  lemma GrownForSize(t: Files, k: nat, size: nat, spot: nat, n: nat)
    requires HasFile(t, k)
    ensures var u, m := GrownFor(t, k, size, spot, n), Growth(|t.chains[k]|, |FreeSet(t.fat)|, size, spot + n);
      |u.chains[k]| == |t.chains[k]| + m && |FreeSet(u.fat)| == |FreeSet(t.fat)| - m
  {
    hide Growth, GrowBy, Forest, FreeSet;
    var m := Growth(|t.chains[k]|, |FreeSet(t.fat)|, size, spot + n);
    GrowByOnlyGrows(t, k, m);
    Balance(t, GrowBy(t, k, m), k);
  }

  // Writing that only a full table stops and that never takes a cluster too early gets exactly as
  // far as there is room, and leaves exactly this table.
  lemma HowFar(k: nat, t: Files, u: Files, size: nat, spot: nat, n: nat, moved: nat)
    requires Grown(k, t, u) && 0 < size && spot <= Offset(|t.chains[k]|, size) && moved <= n
    requires moved < n ==> NoneFree(u.fat) && spot + moved == Offset(|u.chains[k]|, size)
    requires moved == n ==> spot + n <= Offset(|u.chains[k]|, size)
    requires moved == n && |u.chains[k]| > |t.chains[k]| ==> Offset(|u.chains[k]| - 1, size) < spot + n
    ensures spot <= Room(t, k, size)
    ensures moved == if spot + n <= Room(t, k, size) then n else Room(t, k, size) - spot
    ensures u == GrownFor(t, k, size, spot, n)
  {
    hide Offset, Growth, GrowBy, Forest, NoneFree, FreeSet;
    GrownOnlyGrows(k, t, u);
    Balance(t, u, k);
    NoneLeft(u.fat);
    var m := |u.chains[k]| - |t.chains[k]|;
    OffsetMonotone(|t.chains[k]|, |t.chains[k]| + |FreeSet(t.fat)|, size);
    OffsetMonotone(|u.chains[k]|, |t.chains[k]| + |FreeSet(t.fat)|, size);
    if 0 < m {
      OffsetMonotone(|u.chains[k]| - 1, |u.chains[k]|, size);
    }
    GrowthIs(|t.chains[k]|, |FreeSet(t.fat)|, size, spot + n, m);
  }
}
