// Giving the zones of a minix file back: src/filesys/minix/zones.c and maps.c.

module MinixZones {
  const STD_ZONES: nat := 7
  const ZONES_PER_ZONE: nat := 512

  function NonZero(zones: seq<nat>): set<nat> {
    set z | z in zones && z != 0
  }

  // The zone numbers in an index zone; none when it cannot be read.
  function Entries(indexes: map<nat, seq<nat>>, zone: nat): seq<nat> {
    if zone in indexes then indexes[zone] else []
  }

  // An index zone and the zones it names.
  function Indirect(indexes: map<nat, seq<nat>>, zone: nat): set<nat> {
    if zone == 0 then {} else {zone} + NonZero(Entries(indexes, zone))
  }

  function AllIndirect(indexes: map<nat, seq<nat>>, zones: seq<nat>): set<nat> {
    set d, z | d in zones && z in Indirect(indexes, d) :: z
  }

  function DoublyIndirect(indexes: map<nat, seq<nat>>, zone: nat): set<nat> {
    if zone == 0 then {} else {zone} + AllIndirect(indexes, Entries(indexes, zone))
  }

  // The three kinds of zones of an inode.
  datatype Pointers = Pointers(std: seq<nat>, indir: nat, dblIndir: nat)

  // Every zone of a file, the index zones included.
  function ZonesOf(indexes: map<nat, seq<nat>>, p: Pointers): set<nat> {
    NonZero(p.std) + Indirect(indexes, p.indir) + DoublyIndirect(indexes, p.dblIndir)
  }

  // In plain terms: the direct zones, the zones an index zone names and that zone itself, and what
  // the index zones named by another name, with all of these.
  lemma ZonesPlainly(indexes: map<nat, seq<nat>>, p: Pointers, z: nat)
    ensures z in ZonesOf(indexes, p) <==>
      && z != 0
      && (|| z in p.std
          || (p.indir != 0 && (z == p.indir || (p.indir in indexes && z in indexes[p.indir])))
          || (p.dblIndir != 0 && z == p.dblIndir)
          || (p.dblIndir != 0 && p.dblIndir in indexes &&
              exists d | d in indexes[p.dblIndir] :: d != 0 && (z == d || (d in indexes && z in indexes[d]))))
  {
    if p.dblIndir != 0 && p.dblIndir in indexes {
      assert Entries(indexes, p.dblIndir) == indexes[p.dblIndir];
      forall d | d in indexes[p.dblIndir]
        ensures z in Indirect(indexes, d) <==> z != 0 && d != 0 && (z == d || (d in indexes && z in indexes[d]))
      {
      }
    }
  }

  predicate AllIn(zones: set<nat>, first: nat, bits: nat) {
    forall z | z in zones :: first <= z && z - (first - 1) < bits
  }

  // The map with the bits of these zones cleared and every other bit as it was.
  predicate Cleared(was: seq<bool>, now: seq<bool>, first: nat, zones: set<nat>) {
    && |now| == |was|
    && forall b | 0 <= b < |was| :: now[b] == (was[b] && b + first - 1 !in zones)
  }

  lemma ClearedTwice(m0: seq<bool>, m1: seq<bool>, m2: seq<bool>, first: nat, s: set<nat>, t: set<nat>)
    requires Cleared(m0, m1, first, s) && Cleared(m1, m2, first, t)
    ensures Cleared(m0, m2, first, s + t)
  {
  }

  class Inode {
    const std: array<nat>
    var indir: nat
    var dblIndir: nat

    ghost function Zones(): Pointers
      reads this, std
    {
      Pointers(std[..], indir, dblIndir)
    }

    constructor (p: Pointers)
      requires |p.std| == STD_ZONES
      ensures Zones() == p && std.Length == STD_ZONES && fresh(std)
    {
      std := new nat[STD_ZONES](i requires 0 <= i < STD_ZONES => p.std[i]);
      indir, dblIndir := p.indir, p.dblIndir;
      new;
      assert std[..] == p.std;
    }
  }

  lemma Parts(indexes: map<nat, seq<nat>>, p: Pointers)
    ensures ZonesOf(indexes, p) == NonZero(p.std) + Indirect(indexes, p.indir) + DoublyIndirect(indexes, p.dblIndir)
    ensures (Indirect(indexes, p.indir) != {}) == (p.indir != 0)
    ensures (DoublyIndirect(indexes, p.dblIndir) != {}) == (p.dblIndir != 0)
  {
  }

  // A pointer that is zero stands for no zone at all.
  lemma NoneToClear(indexes: map<nat, seq<nat>>, m: seq<bool>, first: nat)
    ensures Cleared(m, m, first, Indirect(indexes, 0)) && Cleared(m, m, first, DoublyIndirect(indexes, 0))
  {
  }

  lemma OneMoreTable(indexes: map<nat, seq<nat>>, tables: seq<nat>, j: nat)
    requires j < |tables|
    ensures AllIndirect(indexes, tables[..j + 1]) == AllIndirect(indexes, tables[..j]) + Indirect(indexes, tables[j])
    ensures AllIndirect(indexes, tables[..j + 1]) <= AllIndirect(indexes, tables)
    ensures tables[j] == 0 <==> Indirect(indexes, tables[j]) == {}
  {
    assert tables[..j + 1] == tables[..j] + [tables[j]];
  }

  lemma OneMore(zones: seq<nat>, i: nat)
    requires i < |zones|
    ensures NonZero(zones[..i + 1]) == NonZero(zones[..i]) + (if zones[i] == 0 then {} else {zones[i]})
    ensures NonZero(zones[..i + 1]) <= NonZero(zones)
  {
    assert zones[..i + 1] == zones[..i] + [zones[i]];
  }

  class FileSystem {
    const firstDataZone: nat
    const zoneMap: array<bool>
    const indexes: map<nat, seq<nat>>
    var zoneMapChanged: bool

    ghost predicate Valid() {
      && 0 < firstDataZone
      && forall z | z in indexes :: |indexes[z]| == ZONES_PER_ZONE
    }

    ghost predicate Holds(zones: set<nat>)
    {
      AllIn(zones, firstDataZone, zoneMap.Length)
    }

    constructor (firstDataZone: nat, zoneMap: array<bool>, indexes: map<nat, seq<nat>>)
      requires 0 < firstDataZone && forall z | z in indexes :: |indexes[z]| == ZONES_PER_ZONE
      ensures Valid() && this.firstDataZone == firstDataZone && this.zoneMap == zoneMap && this.indexes == indexes
    {
      this.firstDataZone, this.zoneMap, this.indexes := firstDataZone, zoneMap, indexes;
      zoneMapChanged := false;
    }

    // minix_free_zone
    method FreeZone(n: nat)
      requires Valid() && Holds({n})
      modifies this`zoneMapChanged, zoneMap
      ensures Cleared(old(zoneMap[..]), zoneMap[..], firstDataZone, {n}) && zoneMapChanged
      ensures 1 <= n + 1 - firstDataZone < zoneMap.Length
      ensures zoneMap[..] == old(zoneMap[..])[n + 1 - firstDataZone := false]
    {
      assert n in {n};
      zoneMap[n - (firstDataZone - 1)] := false;
      zoneMapChanged := true;
    }

    // A loop over zone numbers, where zero is none.
    method FreeEach(zones: seq<nat>)
      requires Valid() && Holds(NonZero(zones))
      modifies this`zoneMapChanged, zoneMap
      ensures Cleared(old(zoneMap[..]), zoneMap[..], firstDataZone, NonZero(zones))
      ensures zoneMapChanged == (old(zoneMapChanged) || NonZero(zones) != {})
    {
      ghost var was := zoneMap[..];
      var i: nat := 0;
      while i < |zones|
        invariant i <= |zones| && Cleared(was, zoneMap[..], firstDataZone, NonZero(zones[..i]))
        invariant zoneMapChanged == (old(zoneMapChanged) || NonZero(zones[..i]) != {})
      {
        ghost var m1 := zoneMap[..];
        OneMore(zones, i);
        if zones[i] != 0 {
          FreeZone(zones[i]);
          ClearedTwice(was, m1, zoneMap[..], firstDataZone, NonZero(zones[..i]), {zones[i]});
        }
        i := i + 1;
      }
      assert zones[..i] == zones;
    }

    // The direct zones: each pointer is set to zero once its zone is free.
    method FreeStd(inode: Inode)
      requires Valid() && inode.std.Length == STD_ZONES && Holds(NonZero(inode.std[..]))
      modifies this`zoneMapChanged, zoneMap, inode.std
      ensures Cleared(old(zoneMap[..]), zoneMap[..], firstDataZone, NonZero(old(inode.std[..])))
      ensures forall i | 0 <= i < STD_ZONES :: inode.std[i] == 0
      ensures zoneMapChanged == (old(zoneMapChanged) || NonZero(old(inode.std[..])) != {})
    {
      ghost var was, zones := zoneMap[..], inode.std[..];
      var i: nat := 0;
      while i < STD_ZONES
        invariant i <= STD_ZONES && Cleared(was, zoneMap[..], firstDataZone, NonZero(zones[..i]))
        invariant zoneMapChanged == (old(zoneMapChanged) || NonZero(zones[..i]) != {})
        invariant forall j | 0 <= j < i :: inode.std[j] == 0
        invariant forall j | i <= j < STD_ZONES :: inode.std[j] == zones[j]
      {
        ghost var m1 := zoneMap[..];
        OneMore(zones, i);
        if inode.std[i] != 0 {
          FreeZone(inode.std[i]);
          ClearedTwice(was, m1, zoneMap[..], firstDataZone, NonZero(zones[..i]), {zones[i]});
          inode.std[i] := 0;
        }
        i := i + 1;
      }
      assert zones[..i] == zones;
    }

    // An index zone: what it names, as far as it can be read, and then the zone itself.
    method FreeIndirect(zone: nat)
      requires Valid() && zone != 0 && Holds(Indirect(indexes, zone))
      modifies this`zoneMapChanged, zoneMap
      ensures Cleared(old(zoneMap[..]), zoneMap[..], firstDataZone, Indirect(indexes, zone)) && zoneMapChanged
    {
      ghost var was := zoneMap[..];
      if zone in indexes {
        FreeEach(indexes[zone]);
      }
      ghost var m1 := zoneMap[..];
      FreeZone(zone);
      ClearedTwice(was, m1, zoneMap[..], firstDataZone, NonZero(Entries(indexes, zone)), {zone});
      assert NonZero(Entries(indexes, zone)) + {zone} == Indirect(indexes, zone);
    }

    method FreeTables(tables: seq<nat>)
      requires Valid() && Holds(AllIndirect(indexes, tables))
      modifies this`zoneMapChanged, zoneMap
      ensures Cleared(old(zoneMap[..]), zoneMap[..], firstDataZone, AllIndirect(indexes, tables))
      ensures zoneMapChanged == (old(zoneMapChanged) || AllIndirect(indexes, tables) != {})
    {
      ghost var was := zoneMap[..];
      var j: nat := 0;
      while j < |tables|
        invariant j <= |tables| && Cleared(was, zoneMap[..], firstDataZone, AllIndirect(indexes, tables[..j]))
        invariant zoneMapChanged == (old(zoneMapChanged) || AllIndirect(indexes, tables[..j]) != {})
      {
        ghost var m1 := zoneMap[..];
        OneMoreTable(indexes, tables, j);
        if tables[j] != 0 {
          FreeIndirect(tables[j]);
          ClearedTwice(was, m1, zoneMap[..], firstDataZone,
                       AllIndirect(indexes, tables[..j]), Indirect(indexes, tables[j]));
        }
        j := j + 1;
      }
      assert tables[..j] == tables;
    }

    method FreeDoublyIndirect(zone: nat)
      requires Valid() && zone != 0 && Holds(DoublyIndirect(indexes, zone))
      modifies this`zoneMapChanged, zoneMap
      ensures Cleared(old(zoneMap[..]), zoneMap[..], firstDataZone, DoublyIndirect(indexes, zone)) && zoneMapChanged
    {
      ghost var was := zoneMap[..];
      if zone in indexes {
        FreeTables(indexes[zone]);
      }
      ghost var m1 := zoneMap[..];
      FreeZone(zone);
      ClearedTwice(was, m1, zoneMap[..], firstDataZone, AllIndirect(indexes, Entries(indexes, zone)), {zone});
      assert AllIndirect(indexes, Entries(indexes, zone)) + {zone} == DoublyIndirect(indexes, zone);
    }

    // minix_free_all_zones_from_inode
    method FreeAllZones(inode: Inode)
      requires Valid() && inode.std.Length == STD_ZONES && Holds(ZonesOf(indexes, inode.Zones()))
      modifies this`zoneMapChanged, zoneMap, inode, inode.std
      ensures Cleared(old(zoneMap[..]), zoneMap[..], firstDataZone, ZonesOf(indexes, old(inode.Zones())))
      ensures forall b | 0 <= b < zoneMap.Length ::
                zoneMap[b] == (old(zoneMap[b]) && b + firstDataZone - 1 !in ZonesOf(indexes, old(inode.Zones())))
      ensures inode.Zones() == Pointers(seq(7, i => 0), 0, 0)
      ensures zoneMapChanged == (old(zoneMapChanged) || ZonesOf(indexes, old(inode.Zones())) != {})
    {
      hide Cleared, Indirect, DoublyIndirect;
      ghost var was, p := zoneMap[..], inode.Zones();
      Parts(indexes, p);
      FreeStd(inode);
      ghost var m1 := zoneMap[..];
      if inode.indir != 0 {
        FreeIndirect(inode.indir);
        inode.indir := 0;
      }
      NoneToClear(indexes, m1, firstDataZone);
      ghost var m2 := zoneMap[..];
      ClearedTwice(was, m1, m2, firstDataZone, NonZero(p.std), Indirect(indexes, p.indir));
      if inode.dblIndir != 0 {
        FreeDoublyIndirect(inode.dblIndir);
        inode.dblIndir := 0;
      }
      NoneToClear(indexes, m2, firstDataZone);
      ClearedTwice(was, m2, zoneMap[..], firstDataZone,
                   NonZero(p.std) + Indirect(indexes, p.indir), DoublyIndirect(indexes, p.dblIndir));
      assert inode.std[..] == seq(STD_ZONES, i => 0);
    }
  }

  // The map is exact when a bit is set for the zones of files and for nothing else; bit 0 belongs
  // to no zone.
  predicate MapExact(m: seq<bool>, first: nat, files: seq<set<nat>>) {
    forall b | 1 <= b < |m| :: m[b] <==> exists k | 0 <= k < |files| :: b + first - 1 in files[k]
  }

  // A file that gives up its zones leaves the map exact, if no other file has them.
  lemma FreedExact(was: seq<bool>, now: seq<bool>, first: nat, files: seq<set<nat>>, k: nat)
    requires k < |files| && MapExact(was, first, files) && Cleared(was, now, first, files[k])
    requires forall i | 0 <= i < |files| && i != k :: files[i] !! files[k]
    ensures MapExact(now, first, files[k := {}])
  {
    var after := files[k := {}];
    forall b | 1 <= b < |now|
      ensures now[b] <==> exists i | 0 <= i < |after| :: b + first - 1 in after[i]
    {
      var z := b + first - 1;
      if now[b] {
        var i :| 0 <= i < |files| && z in files[i];
        assert z in after[i];
      } else if was[b] {
        assert z in files[k];
      }
    }
  }
}
