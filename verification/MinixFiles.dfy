// Reading and writing a minix file: minix_freadwrite of src/filesys/minix/minix.c, over the
// complete list of the file's zones.

module MinixFiles {
  import opened FlatBlocks
  import opened BlockChains
  import opened Sequences
  import Arithmetic

  const WORD: nat := 0x1_0000_0000
  const ZONE_SIZE: nat := 1024
  // Zone 2 is the first that holds data of a file.
  const DATA_START: nat := 2048

  lemma ZoneAt(zone: nat)
    requires FIRST_CLUSTER <= zone
    ensures Start(DATA_START, ZONE_SIZE, zone) == zone * ZONE_SIZE
  {
    OffsetIsProduct(zone - FIRST_CLUSTER, ZONE_SIZE);
  }

  // The bytes of all the zones of a file, in order.
  ghost function Bytes(disk: seq<byte>, zones: seq<nat>): seq<byte>
    requires ChainFits(disk, DATA_START, ZONE_SIZE, zones)
  {
    Flat(Clusters(disk, DATA_START, ZONE_SIZE, zones))
  }

  // What a transfer has done that started at `from`: read the bytes `moved` off the file, or
  // written them over it, and nothing else.
  ghost predicate Moved(write: bool, disk0: seq<byte>, disk: seq<byte>, zones: seq<nat>, from: nat, moved: seq<byte>) {
    if write then
      Progress(disk0, disk, DATA_START, ZONE_SIZE, zones, from, moved)
    else
      && disk == disk0 && ChainFits(disk, DATA_START, ZONE_SIZE, zones)
      && from + |moved| <= |Bytes(disk, zones)| && moved == Bytes(disk, zones)[from..from + |moved|]
  }

  lemma NothingMoved(write: bool, disk: seq<byte>, zones: seq<nat>, pos: nat)
    requires DATA_START <= |disk| && ChainFits(disk, DATA_START, ZONE_SIZE, zones) && pos <= Offset(|zones|, ZONE_SIZE)
    ensures Moved(write, disk, disk, zones, pos, [])
  {
    hide Offset;
    FlatLength(Clusters(disk, DATA_START, ZONE_SIZE, zones), ZONE_SIZE);
    NoProgress(disk, DATA_START, ZONE_SIZE, zones, pos);
  }

  lemma JoinSlices(s: seq<byte>, from: nat, k: nat, n: nat)
    requires from + k + n <= |s|
    ensures s[from..from + k] + s[from + k..from + k + n] == s[from..from + (k + n)]
  {
  }

  // ---- which zones a transfer gets ----

  // What minix_freadwrite comes to; a request for more bytes than the transfer has left, or than
  // the zone has, goes on outside the file and the caller's buffer.
  datatype Outcome = Done(items: nat) | Overrun | DividedByZero

  // fread and fwrite count items, whole ones only.
  function Items(moved: nat, itemSize: nat): (outcome: Outcome)
    ensures outcome != Overrun
  {
    if itemSize == 0 then DividedByZero else Done(moved / itemSize)
  }

  lemma WholeItems(moved: nat, itemSize: nat)
    ensures itemSize > 0 ==> Items(moved, itemSize) == Done(moved / itemSize)
  {
  }

  // The zone behind the last one of a transfer that ends at pos1, in 32 bits.
  function PastZone(pos1: nat): nat {
    1 + (if pos1 == 0 then WORD - 1 else pos1 - 1) / ZONE_SIZE
  }

  // How many zones minix_get_zones finds for it when the file has n of them.
  function Got(n: nat, pos0: nat, pos1: nat): nat {
    var past := if PastZone(pos1) < n then PastZone(pos1) else n;
    if pos0 / ZONE_SIZE < past then past - pos0 / ZONE_SIZE else 0
  }

  // Transfers that go right: those that get no zones, those that get all of them, and empty ones
  // that get a single zone.
  predicate GoesRight(n: nat, pos0: nat, pos1: nat) {
    || Got(n, pos0, pos1) == 0
    || (pos0 < pos1 && PastZone(pos1) <= n)
    || (pos0 == pos1 && Got(n, pos0, pos1) == 1)
  }

  lemma OneZone(n: nat, pos0: nat, pos1: nat)
    requires Got(n, pos0, pos1) == 1 && pos0 < WORD && pos1 < WORD
    ensures var byteCount := (pos1 - pos0) % WORD;
      && pos0 / ZONE_SIZE < n
      && (GoesRight(n, pos0, pos1) <==>
          byteCount <= (if pos0 < pos1 then pos1 - pos0 else 0) && pos0 % ZONE_SIZE + byteCount <= ZONE_SIZE)
      && (GoesRight(n, pos0, pos1) ==> byteCount == pos1 - pos0)
  {
  }

  lemma SeveralZones(n: nat, pos0: nat, pos1: nat)
    requires Got(n, pos0, pos1) > 1 && pos0 < WORD && pos1 < WORD
    ensures pos0 / ZONE_SIZE + Got(n, pos0, pos1) <= n
    ensures pos0 / ZONE_SIZE + Got(n, pos0, pos1) <= PastZone(pos1) && (pos1 <= pos0 ==> pos1 == 0)
    ensures GoesRight(n, pos0, pos1) <==> pos0 < pos1 && pos0 / ZONE_SIZE + Got(n, pos0, pos1) == PastZone(pos1)
  {
  }

  function ZonesFor(size: nat): nat {
    (size + ZONE_SIZE - 1) / ZONE_SIZE
  }

  // Reading from a file without holes goes right unless it starts behind the end of the file but
  // in its last zone, or asks for nothing at the very start of more than one zone.
  lemma ReadGoesRight(size: nat, pos0: nat, wanted: nat)
    requires size < WORD
    ensures GoesRight(ZonesFor(size), pos0, if pos0 + wanted < size then pos0 + wanted else size) <==>
      if pos0 == 0 && wanted == 0 then size <= ZONE_SIZE
      else pos0 <= size || pos0 / ZONE_SIZE >= ZonesFor(size)
  {
  }

  // Writing does, unless it starts behind the longest file but in its last zone, asks for nothing
  // at the very start, or stops at some but not all zones of the transfer.
  lemma WriteGoesRight(n: nat, maxSize: nat, pos0: nat, wanted: nat)
    requires 0 < maxSize < WORD && n <= ZonesFor(maxSize)
    ensures GoesRight(n, pos0, if pos0 + wanted < maxSize then pos0 + wanted else maxSize) <==>
      || pos0 / ZONE_SIZE >= n
      || (if pos0 == 0 && wanted == 0 then n == 1
          else if pos0 < maxSize && 0 < wanted then
            ZonesFor(if pos0 + wanted < maxSize then pos0 + wanted else maxSize) <= n
          else pos0 <= maxSize || pos0 / ZONE_SIZE >= ZonesFor(maxSize))
  {
  }

  // A transfer of something that starts at or in front of the limit goes right if there are zones
  // for everything in front of the limit.
  lemma ZonesForAllGoRight(n: nat, pos0: nat, wanted: nat, limit: nat)
    requires pos0 <= limit < WORD && 0 < wanted && 0 < limit <= n * 1024
    ensures GoesRight(n, pos0, if pos0 + wanted < limit then pos0 + wanted else limit)
  {
  }

  // A transfer that goes right stops at the limit, and in front of it leaves out only what has no
  // zones.
  lemma StopsAtLimit(n: nat, pos0: nat, wanted: nat, limit: nat, pos1: nat)
    requires pos1 == if pos0 + wanted < limit then pos0 + wanted else limit
    requires pos0 < WORD && pos1 < WORD && GoesRight(n, pos0, pos1) && pos0 <= limit
    ensures pos0 <= pos1 <= limit
    ensures limit <= n * 1024 && pos0 < pos1 ==> Got(n, pos0, pos1) > 0
  {
  }

  // Byte i of a file lies in zone i / 1024 of it, at i % 1024.
  lemma ByteOnDisk(disk: seq<byte>, zones: seq<nat>, i: nat)
    requires ChainFits(disk, DATA_START, ZONE_SIZE, zones) && i < |zones| * 1024
    ensures i < |Bytes(disk, zones)| && zones[i / 1024] * 1024 + i % 1024 < |disk|
    ensures Bytes(disk, zones)[i] == disk[zones[i / 1024] * 1024 + i % 1024]
  {
    hide Flat, Offset, Clusters;
    ByteOfChain(disk, DATA_START, ZONE_SIZE, zones, i / 1024, i % 1024);
  }

  ghost function FileByte(disk: seq<byte>, zones: seq<nat>, i: nat): (b: byte)
    requires ChainFits(disk, DATA_START, ZONE_SIZE, zones) && i < |zones| * 1024
    ensures zones[i / 1024] * 1024 + i % 1024 < |disk| && b == disk[zones[i / 1024] * 1024 + i % 1024]
  {
    ByteOnDisk(disk, zones, i);
    Bytes(disk, zones)[i]
  }

  // So what was moved is what the disk has in the zones of the file.
  lemma MovedOnDisk(write: bool, disk0: seq<byte>, disk: seq<byte>, zones: seq<nat>, from: nat, moved: seq<byte>)
    requires Moved(write, disk0, disk, zones, from, moved)
    ensures ChainFits(disk, DATA_START, ZONE_SIZE, zones) && from + |moved| <= |zones| * 1024
    ensures forall i: nat | i < |moved| :: moved[i] == FileByte(disk, zones, from + i)
  {
    hide Flat, Offset, Clusters, Splice;
    FlatLength(Clusters(disk, DATA_START, ZONE_SIZE, zones), ZONE_SIZE);
    OffsetIsProduct(|zones|, ZONE_SIZE);
    if write {
      WrittenIsRead(disk0, disk, DATA_START, ZONE_SIZE, zones, from, moved);
    }
    forall i: nat | i < |moved|
      ensures moved[i] == FileByte(disk, zones, from + i)
    {
      ByteOnDisk(disk, zones, from + i);
      assert moved[i] == Bytes(disk, zones)[from..from + |moved|][i];
    }
  }

  class MinixFile {
    const maxSize: nat
    const inodeNumber: nat
    const zones: seq<nat>
    var disk: seq<byte>
    var devPos: nat
    var pos: nat
    var size: nat
    var inodeSize: nat

    ghost predicate Valid()
      reads this
    {
      && DATA_START <= |disk| && ChainFits(disk, DATA_START, ZONE_SIZE, zones) && Distinct(zones)
      && inodeSize == size < WORD && maxSize < WORD
    }

    constructor (disk: seq<byte>, inodeNumber: nat, zones: seq<nat>, size: nat, maxSize: nat)
      requires DATA_START <= |disk| && ChainFits(disk, DATA_START, ZONE_SIZE, zones) && Distinct(zones)
      requires Arithmetic.IsWord32(size) && Arithmetic.IsWord32(maxSize)
      ensures Valid() && this.disk == disk && this.zones == zones && this.size == size && this.maxSize == maxSize
      ensures pos == 0 && this.inodeNumber == inodeNumber
    {
      this.maxSize, this.zones, this.disk, this.size, inodeSize := maxSize, zones, disk, size, size;
      this.inodeNumber := inodeNumber;
      devPos, pos := 0, 0;
    }

    method Put(bytes: seq<byte>)
      requires devPos + |bytes| <= |disk|
      modifies this`disk
      ensures disk == Splice(old(disk), devPos, bytes) && (|bytes| == 0 ==> disk == old(disk))
    {
      disk := disk[..devPos] + bytes + disk[devPos + |bytes|..];
    }

    // One fsetpos on the device and one fread or fwrite: n bytes inside zone number i.
    method Piece(write: bool, data: seq<byte>, i: nat, posInZone: nat, n: nat, moved: seq<byte>,
                 ghost disk0: seq<byte>, ghost from: nat)
      returns (moved': seq<byte>)
      requires Valid() && i < |zones| && posInZone + n <= ZONE_SIZE
      requires from + |moved| == Offset(i, ZONE_SIZE) + posInZone
      requires Moved(write, disk0, disk, zones, from, moved)
      requires write ==> |moved| + n <= |data| && moved == data[..|moved|]
      modifies this`devPos, this`disk
      ensures Valid() && |moved'| == |moved| + n && Moved(write, disk0, disk, zones, from, moved')
      ensures write ==> moved' == data[..|moved'|]
      ensures n == 0 ==> disk == old(disk)
    {
      hide Flat, Offset, Clusters, Cluster, Splice;
      ZoneAt(zones[i]);
      devPos := zones[i] * ZONE_SIZE + posInZone;
      if write {
        var bytes := data[|moved|..|moved| + n];
        ProgressWrites(disk0, disk, DATA_START, ZONE_SIZE, zones, from, moved, i, posInZone, bytes);
        Put(bytes);
        moved' := moved + bytes;
      } else {
        InCluster(disk, DATA_START, ZONE_SIZE, zones, i, posInZone, n);
        var bytes := disk[devPos..devPos + n];
        JoinSlices(Bytes(disk, zones), from, |moved|, n);
        moved' := moved + bytes;
      }
      devPos := devPos + n;
    }

    // The part of minix_freadwrite that goes over several zones: what is left of the first, whole
    // ones, and the start of the last.
    method Zones(write: bool, data: seq<byte>, zone0: nat, numZones: nat, pos0: nat, pos1: nat)
      returns (overrun: bool, moved: seq<byte>)
      requires Valid() && 1 < numZones && zone0 + numZones <= |zones|
      requires zone0 == pos0 / ZONE_SIZE && zone0 + numZones <= PastZone(pos1) && (pos1 <= pos0 ==> pos1 == 0)
      requires write ==> pos1 - pos0 <= |data|
      modifies this`devPos, this`disk
      ensures Valid()
      ensures overrun <==> !(pos0 < pos1 && zone0 + numZones == PastZone(pos1))
      ensures !overrun ==> |moved| == pos1 - pos0 && Moved(write, old(disk), disk, zones, pos0, moved)
      ensures !overrun && write ==> moved == data[..|moved|]
    {
      hide Moved, ChainFits, Offset;
      var zone: nat := 0;
      var fpos := pos0;
      moved := [];
      OffsetIsProduct(|zones|, ZONE_SIZE);
      NothingMoved(write, disk, zones, pos0);
      if fpos % ZONE_SIZE != 0 {
        if fpos + (ZONE_SIZE - fpos % ZONE_SIZE) > pos1 {
          return true, moved;
        }
        OffsetIsProduct(zone0, ZONE_SIZE);
        moved := Piece(write, data, zone0, fpos % ZONE_SIZE, ZONE_SIZE - fpos % ZONE_SIZE, moved, disk, pos0);
        fpos := fpos + |moved|;
        zone := zone + 1;
      }
      while zone < numZones - 1
        invariant zone <= numZones - 1 && Valid() && fpos == (zone0 + zone) * ZONE_SIZE
        invariant fpos == pos0 + |moved| && Moved(write, old(disk), disk, zones, pos0, moved)
        invariant pos0 == fpos || (pos0 < pos1 && fpos <= pos1)
        invariant write ==> |moved| <= |data| && moved == data[..|moved|]
      {
        if fpos + ZONE_SIZE > pos1 {
          return true, moved;
        }
        OffsetIsProduct(zone0 + zone, ZONE_SIZE);
        moved := Piece(write, data, zone0 + zone, 0, ZONE_SIZE, moved, old(disk), pos0);
        fpos := fpos + ZONE_SIZE;
        zone := zone + 1;
      }
      if pos1 - fpos > ZONE_SIZE {
        return true, moved;
      }
      OffsetIsProduct(zone0 + zone, ZONE_SIZE);
      moved := Piece(write, data, zone0 + zone, 0, pos1 - fpos, moved, old(disk), pos0);
      overrun := false;
    }

    // Where a transfer of count items ends: at the end of the file, or of the longest file.
    function End(write: bool, itemSize: nat, count: nat): nat
      reads this
    {
      var wanted, limit := pos % WORD + itemSize * count, if write then maxSize else size;
      if wanted < limit then wanted else limit
    }

    // minix_get_zones with zone1 cut to the zones there are.
    function FoundZones(zone0: nat, zone1: nat, ghost pos0: nat, ghost pos1: nat): (n: nat)
      requires pos1 < WORD && zone0 == pos0 / ZONE_SIZE && zone1 == 1 + (pos1 - 1) % WORD / ZONE_SIZE
      ensures n == Got(|zones|, pos0, pos1)
    {
      var past := if zone1 > |zones| then |zones| else zone1;
      if zone0 >= past then 0 else past - zone0
    }

    lemma StartOfTransfer(write: bool, zone0: nat, pos0: nat)
      requires Valid() && zone0 == pos0 / ZONE_SIZE < |zones|
      ensures Moved(write, disk, disk, zones, pos0, []) && pos0 == Offset(zone0, ZONE_SIZE) + pos0 % ZONE_SIZE
    {
      OffsetIsProduct(zone0, ZONE_SIZE);
      OffsetIsProduct(|zones|, ZONE_SIZE);
      NothingMoved(write, disk, zones, pos0);
    }

    // minix_freadwrite, with its end in the terms of End.
    method Transfer(write: bool, data: seq<byte>, itemSize: nat, count: nat)
      returns (outcome: Outcome, moved: seq<byte>)
      requires Valid() && Arithmetic.IsWord32(itemSize) && Arithmetic.IsWord32(count)
      requires write ==> |data| == itemSize * count
      modifies this`disk, this`devPos, this`pos, this`size, this`inodeSize
      ensures Valid()
      ensures inodeNumber == 0 ==>
        && outcome == Done(0) && moved == []
        && disk == old(disk) && pos == old(pos) && size == old(size)
      ensures outcome == Overrun <==>
        inodeNumber != 0 && !GoesRight(|zones|, old(pos) % WORD, old(End(write, itemSize, count)))
      ensures inodeNumber != 0 && outcome != Overrun ==>
        var pos0, pos1 := old(pos) % WORD, old(End(write, itemSize, count));
        && pos == (if pos0 < pos1 && 0 < Got(|zones|, pos0, pos1) then pos1 else pos0)
        && |moved| == pos - pos0
        && (|moved| == 0 ==> disk == old(disk))
        && (|moved| > 0 ==> Moved(write, old(disk), disk, zones, pos0, moved))
        && (write ==> |moved| <= |data| && moved == data[..|moved|])
        && size == (if write && pos > old(size) then pos else old(size))
        && outcome == Items(|moved|, itemSize)
    {
      hide Moved, ChainFits, Offset;
      if inodeNumber == 0 {
        return Done(0), [];
      }
      var pos0, pos1 := pos % WORD, End(write, itemSize, count);
      var byteCount := (pos1 - pos0) % WORD;
      var zone0, zone1 := pos0 / ZONE_SIZE, 1 + (pos1 - 1) % WORD / ZONE_SIZE;
      var numZones := FoundZones(zone0, zone1, pos0, pos1);
      var fpos := pos0;
      moved := [];
      hide Got, GoesRight, Items;
      if numZones == 1 {
        OneZone(|zones|, pos0, pos1);
        if byteCount > (if pos0 < pos1 then pos1 - pos0 else 0) || fpos % ZONE_SIZE + byteCount > ZONE_SIZE {
          return Overrun, moved;
        }
        StartOfTransfer(write, zone0, pos0);
        moved := Piece(write, data, zone0, fpos % ZONE_SIZE, byteCount, moved, disk, pos0);
        fpos := fpos + byteCount;
      } else if numZones > 1 {
        SeveralZones(|zones|, pos0, pos1);
        var overrun;
        overrun, moved := Zones(write, data, zone0, numZones, pos0, pos1);
        if overrun {
          return Overrun, moved;
        }
        fpos := pos1;
      }
      pos := fpos;
      if write && fpos > size {
        size := fpos;
        inodeSize := fpos;
      }
      outcome := Items(fpos - pos0, itemSize);
    }

    // minix_freadwrite, reading into `moved` or writing from data.  Without an inode there is no
    // file.  Of the 64-bit position it sees the lower half.
    method FReadWrite(write: bool, data: seq<byte>, itemSize: nat, count: nat)
      returns (outcome: Outcome, moved: seq<byte>)
      requires Valid() && Arithmetic.IsWord32(itemSize) && Arithmetic.IsWord32(count)
      requires write ==> |data| == itemSize * count
      modifies this`disk, this`devPos, this`pos, this`size, this`inodeSize
      ensures Valid()
      ensures inodeNumber == 0 ==>
        && outcome == Done(0) && moved == []
        && disk == old(disk) && pos == old(pos) && size == old(size)
      ensures outcome == Overrun <==>
        inodeNumber != 0 && !GoesRight(|zones|, old(pos) % WORD, old(End(write, itemSize, count)))
      ensures inodeNumber != 0 && outcome != Overrun ==>
        var pos0, pos1 := old(pos) % WORD, old(End(write, itemSize, count));
        && pos == (if pos0 < pos1 && 0 < Got(|zones|, pos0, pos1) then pos1 else pos0)
        && |moved| == pos - pos0
        && (|moved| == 0 ==> disk == old(disk))
        && (|moved| > 0 ==> Moved(write, old(disk), disk, zones, pos0, moved))
        && (write ==> |moved| <= |data| && moved == data[..|moved|])
        && size == (if write && pos > old(size) then pos else old(size))
        && outcome == Items(|moved|, itemSize)
      // In plain numbers: with zones for everything in front of it, a read stops at the end of the
      // file and a write at that of the longest file, and nothing in front of it is left out.
      ensures var pos0, limit := old(pos) % 0x1_0000_0000, if write then maxSize else old(size);
        pos0 <= limit && 0 < itemSize * count && 0 < limit <= |zones| * 1024 ==> outcome != Overrun
      ensures inodeNumber != 0 && outcome != Overrun ==>
        var pos0, wanted, limit := old(pos) % 0x1_0000_0000, itemSize * count, if write then maxSize else old(size);
        && (itemSize > 0 ==> outcome == Done(|moved| / itemSize))
        && (pos0 > limit ==> pos == pos0 && moved == [])
        && (pos0 <= limit ==> pos == pos0 + |moved| <= limit)
        && (pos0 <= limit && limit <= |zones| * 1024 ==>
            |moved| == if wanted < limit - pos0 then wanted else limit - pos0)
      ensures inodeNumber != 0 && outcome != Overrun ==>
        var pos0 := old(pos) % 0x1_0000_0000;
        && (moved != [] ==> pos0 + |moved| <= |zones| * 1024)
        && forall i: nat | i < |moved| :: moved[i] == FileByte(disk, zones, pos0 + i)
    {
      hide Moved, ChainFits, Offset, GoesRight, Got, Items;
      ghost var n, pos0, pos1 := |zones|, pos % WORD, End(write, itemSize, count);
      ghost var wanted, limit := itemSize * count, if write then maxSize else size;
      if pos0 <= limit && 0 < wanted && 0 < limit <= n * 1024 {
        ZonesForAllGoRight(n, pos0, wanted, limit);
      }
      outcome, moved := Transfer(write, data, itemSize, count);
      if inodeNumber != 0 && outcome != Overrun {
        WholeItems(|moved|, itemSize);
        if pos0 <= limit {
          StopsAtLimit(n, pos0, wanted, limit, pos1);
        }
        if |moved| > 0 {
          MovedOnDisk(write, old(disk), disk, zones, pos0, moved);
        }
      }
    }
  }

  // What was written is what the file has there, and around it the file is what it was.
  lemma ReadsBack(disk0: seq<byte>, disk: seq<byte>, zones: seq<nat>, from: nat, data: seq<byte>)
    requires Moved(true, disk0, disk, zones, from, data)
    ensures |Bytes(disk, zones)| == |Bytes(disk0, zones)| >= from + |data|
    ensures Moved(false, disk, disk, zones, from, data)
    ensures Bytes(disk, zones)[..from] == Bytes(disk0, zones)[..from]
    ensures Bytes(disk, zones)[from + |data|..] == Bytes(disk0, zones)[from + |data|..]
  {
    BlockChains.WrittenIsRead(disk0, disk, DATA_START, ZONE_SIZE, zones, from, data);
  }
}
