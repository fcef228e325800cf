// Reading, writing, flushing and seeking through the buffer of src/devices/blockdev/blockdev.c.

module BlockFiles {
  import opened FlatBlocks
  import opened BlockDevice
  import opened BlockCaches
  import opened Arithmetic

  class BlockFile {
    const dev: Device
    const buf: array<byte>
    var pos: nat
    var posInBlock: nat
    var blockInFile: nat
    var blockInBuffer: nat
    var bufferChanged: bool
    var eof: bool

    ghost predicate Shape()
      reads this, dev, buf
    {
      && dev.Valid()
      && buf.Length == dev.blockSize && posInBlock < dev.blockSize
      && blockInFile <= dev.blockCount && (posInBlock > 0 ==> blockInFile < dev.blockCount)
      && (blockInBuffer == NO_BLOCK || blockInBuffer < dev.blockCount)
      && (blockInBuffer == NO_BLOCK ==> !bufferChanged)
    }

    // The device and the buffer, as they are now.
    ghost function Now(): (c: Cache)
      requires Shape()
      reads this, dev, buf
      ensures CacheOk(c, dev.blockSize)
    {
      Cache(dev.Part(), bufferChanged, blockInBuffer, buf[..])
    }

    // The device as it would be after a flush, as one flat array of bytes.
    ghost function View(): seq<byte>
      requires Shape()
      reads this, dev, buf
    {
      BlockCaches.View(Now())
    }

    // The position the block numbers stand for.
    ghost function At(): nat
      reads this
    {
      Offset(blockInFile, dev.blockSize) + posInBlock
    }

    ghost predicate Valid()
      reads this, dev, buf
    {
      Shape() && Coherent(Now()) && pos == At()
    }

    // Where the buffered block is as long as nobody seeks.
    predicate Behind()
      reads this
    {
      blockInBuffer == NO_BLOCK || blockInBuffer < blockInFile || (blockInBuffer == blockInFile && 0 < posInBlock)
    }

    // blockdev_fopen
    constructor (dev: Device)
      requires dev.Valid()
      ensures Valid() && this.dev == dev && fresh(buf) && Behind()
      ensures pos == posInBlock == blockInFile == 0 && View() == Flat(dev.Part())
      ensures !bufferChanged && blockInBuffer == NO_BLOCK && dev.disk == old(dev.disk)
    {
      this.dev := dev;
      buf := new byte[dev.blockSize](i => 0);
      pos, posInBlock, blockInFile := 0, 0, 0;
      blockInBuffer, bufferChanged, eof := NO_BLOCK, false, false;
    }

    // blockdev_fflush
    method Flush()
      requires Shape()
      modifies this`bufferChanged, dev
      ensures Shape() && dev.OnlyPart() && View() == old(View())
      ensures Now() == old(Now()).(part := Overlay(old(Now())), changed := false)
      ensures old(Coherent(Now())) ==> Coherent(Now())
    {
      if bufferChanged {
        dev.WriteOneBlock(dev.firstBlock + blockInBuffer, buf[..]);
        bufferChanged := false;
      }
    }

    // memcpy into the buffer.
    method CopyIn(at: nat, data: seq<byte>)
      requires at + |data| <= buf.Length
      modifies buf
      ensures buf[..] == Splice(old(buf[..]), at, data)
    {
      for i := 0 to |data|
        invariant forall j | 0 <= j < buf.Length :: buf[j] == if at <= j < at + i then data[j - at] else old(buf[j])
      {
        buf[at + i] := data[i];
      }
    }

    method LoadBlock()
      requires Shape() && blockInFile < dev.blockCount && !bufferChanged
      modifies this`blockInBuffer, buf
      ensures Shape() && Now() == Cache(dev.Part(), false, blockInFile, dev.Part()[blockInFile])
    {
      blockInBuffer := NO_BLOCK;
      var block := dev.ReadOneBlock(dev.firstBlock + blockInFile);
      CopyIn(0, block);
      blockInBuffer := blockInFile;
      assert buf[..] == block;
    }

    // blockdev_fill_buffer
    method FillBuffer()
      requires Shape() && blockInFile < dev.blockCount
      modifies this`bufferChanged, this`blockInBuffer, buf, dev
      ensures Shape() && dev.OnlyPart() && Now() == Filled(old(Now()), dev.blockSize, blockInFile)
    {
      if blockInFile == blockInBuffer {
        return;
      }
      if bufferChanged {
        Flush();
      }
      LoadBlock();
    }

    // The two copies of blockdev_freadwrite that go through the buffer.
    method CopyThroughBuffer(n: nat, data: seq<byte>, write: bool) returns (out: seq<byte>)
      requires Shape() && blockInFile < dev.blockCount && posInBlock + n <= dev.blockSize
      requires write ==> |data| == n
      modifies this`bufferChanged, this`blockInBuffer, buf, dev
      ensures Shape() && dev.OnlyPart()
      ensures (Now(), out) == Through(old(Now()), dev.blockSize, blockInFile, posInBlock, n, data, write)
    {
      hide Filled;
      FillBuffer();
      out := [];
      if write {
        bufferChanged := true;
        CopyIn(posInBlock, data);
      } else {
        out := buf[posInBlock..posInBlock + n];
        assert out == buf[..][posInBlock..posInBlock + n];
      }
    }

    // The first part of blockdev_freadwrite: the rest of a block begun earlier.
    method Head(n: nat, data: seq<byte>, write: bool) returns (done: nat, out: seq<byte>)
      requires Shape() && 0 < posInBlock && 0 < n
      requires write ==> |data| == n
      modifies this`posInBlock, this`blockInFile, this`bufferChanged, this`blockInBuffer, buf, dev
      ensures Shape() && dev.OnlyPart() && Behind()
      ensures done == if n < dev.blockSize - old(posInBlock) then n else dev.blockSize - old(posInBlock)
      ensures (Now(), out) == Through(old(Now()), dev.blockSize, old(blockInFile), old(posInBlock), done,
                                      if write then data[..done] else [], write)
      ensures if old(posInBlock) + done < dev.blockSize
              then blockInFile == old(blockInFile) && posInBlock == old(posInBlock) + done
              else blockInFile == old(blockInFile) + 1 && posInBlock == 0
    {
      hide Through;
      var left := dev.blockSize - posInBlock;
      done := if n < left then n else left;
      out := CopyThroughBuffer(done, if write then data[..done] else [], write);
      if done < left {
        posInBlock := posInBlock + done;
      } else {
        posInBlock := 0;
        blockInFile := blockInFile + 1;
      }
    }

    // The second part: whole blocks, straight between the caller and the device.
    method WholeBlocks(n: nat, data: seq<byte>, write: bool) returns (whole: nat, out: seq<byte>)
      requires Shape() && posInBlock == 0 && At() + n <= Offset(dev.blockCount, dev.blockSize)
      requires write ==> |data| == n
      modifies this`blockInFile, dev
      ensures Shape() && dev.OnlyPart() && blockInFile == old(blockInFile) + n / dev.blockSize
      ensures whole == Offset(n / dev.blockSize, dev.blockSize) <= n
      ensures (Now(), out) == Body(old(Now()), dev.blockSize, old(blockInFile), n, data, write)
    {
      hide Offset, Chunks, Flat;
      BlocksFit(blockInFile, n, dev.blockCount, dev.blockSize);
      var m: nat := n / dev.blockSize;
      OffsetIsProduct(m, dev.blockSize);
      whole := m * dev.blockSize;
      out := [];
      if m > 0 {
        if write {
          dev.WriteBlocks(dev.firstBlock + blockInFile, m, data[..whole]);
        } else {
          out := dev.ReadBlocks(dev.firstBlock + blockInFile, m);
        }
        blockInFile := blockInFile + m;
      }
    }

    // blockdev_freadwrite from a block boundary on.
    method BodyAndTail(n: nat, data: seq<byte>, write: bool) returns (out: seq<byte>)
      requires Shape() && posInBlock == 0 && At() + n <= Offset(dev.blockCount, dev.blockSize)
      requires write ==> |data| == n
      modifies this`posInBlock, this`blockInFile, this`bufferChanged, this`blockInBuffer, buf, dev
      ensures Shape() && dev.OnlyPart() && At() == old(At()) + n && (old(Behind()) ==> Behind())
      ensures (Now(), out) == FromBlock(old(Now()), dev.blockSize, old(blockInFile), n, data, write)
    {
      hide Offset, Through, Body;
      BlocksFit(blockInFile, n, dev.blockCount, dev.blockSize);
      var whole;
      whole, out := WholeBlocks(n, data, write);
      if n - whole == 0 {
        return;
      }
      var more := CopyThroughBuffer(n - whole, if write then data[whole..] else [], write);
      posInBlock := n - whole;
      out := out + more;
    }

    // blockdev_freadwrite, in bytes.
    method TransferBytes(n: nat, data: seq<byte>, write: bool) returns (out: seq<byte>)
      requires Shape() && At() + n <= Offset(dev.blockCount, dev.blockSize)
      requires write ==> |data| == n
      modifies this`posInBlock, this`blockInFile, this`bufferChanged, this`blockInBuffer, buf, dev
      ensures Shape() && dev.OnlyPart() && At() == old(At()) + n && (old(Behind()) ==> Behind())
      ensures (Now(), out) == Transfer(old(Now()), dev.blockSize, old(blockInFile), old(posInBlock), n, data, write)
    {
      hide Through, FromBlock, Offset;
      out := [];
      if n == 0 {
        return;
      }
      if posInBlock != 0 {
        OffsetAdds(blockInFile, 1, dev.blockSize);
        OffsetOne(dev.blockSize);
        var done;
        done, out := Head(n, data, write);
        if done < n {
          var more := BodyAndTail(n - done, if write then data[done..] else [], write);
          out := out + more;
        }
      } else {
        out := BodyAndTail(n, data, write);
      }
    }

    lemma PosInView()
      requires Shape()
      ensures |View()| == Offset(dev.blockCount, dev.blockSize)
      ensures At() <= |View()|
    {
      ViewLength(Now(), dev.blockSize);
      OffsetMonotone(blockInFile, dev.blockCount, dev.blockSize);
    }

    // blockdev_freadwrite, for a transfer that lies inside the device.  The flat view of the
    // device behaves as one array of bytes exactly when ReadOk or WriteOk holds beforehand; in any
    // case device, buffer and result are those of the transfer.
    method ReadWrite(size: nat, count: nat, data: seq<byte>, write: bool) returns (done: nat, out: seq<byte>)
      requires Valid() && 0 < size && IsWord32(size * count)
      requires pos + size * count <= Offset(dev.blockCount, dev.blockSize)
      requires write ==> |data| == size * count
      modifies this`pos, this`posInBlock, this`blockInFile, this`bufferChanged, this`blockInBuffer, buf, dev
      ensures Shape() && dev.OnlyPart()
      ensures done == count && pos == At() == old(pos) + size * count <= |old(View())|
      ensures (Now(), out) ==
        Transfer(old(Now()), dev.blockSize, old(blockInFile), old(posInBlock), size * count, data, write)
      ensures !write ==>
        && Valid() && View() == old(View())
        && (out == old(View())[old(pos)..pos]
            <==> ReadOk(old(Now()), dev.blockSize, old(blockInFile), old(posInBlock), size * count))
      ensures write ==>
        (Valid() && View() == Splice(old(View()), old(pos), data)
         <==> WriteOk(old(Now()), dev.blockSize, old(blockInFile), old(posInBlock), data))
      ensures old(Behind()) ==> Behind()
    {
      hide Flat, Transfer, ReadOk, WriteOk, Offset, Splice, BlockCaches.View, Coherent;
      var n := size * count;
      var start := pos;
      PosInView();
      if write {
        TransferWrites(Now(), dev.blockSize, blockInFile, posInBlock, data);
      } else {
        TransferReads(Now(), dev.blockSize, blockInFile, posInBlock, n, data);
      }
      out := TransferBytes(n, data, write);
      OffsetIsProduct(blockInFile, dev.blockSize);
      pos := posInBlock + blockInFile * dev.blockSize;
      Arithmetic.Quotient(size, count);
      done := (pos - start) / size;
    }

    // blockdev_fsetpos
    method SetPos(p: nat) returns (result: SeekResult)
      requires Valid()
      modifies this`pos, this`posInBlock, this`blockInFile, this`eof
      ensures Valid() && Now() == old(Now())
      ensures result == SeekOk <==> p <= Offset(dev.blockCount, dev.blockSize)
      ensures pos == if result == SeekOk then p else old(pos)
      ensures eof == if p == Offset(dev.blockCount, dev.blockSize) then true else old(eof)
    {
      var block, posIn := p / dev.blockSize, p % dev.blockSize;
      DivOffset(p, dev.blockSize);
      PlaceOrder(block, posIn, dev.blockCount, 0, dev.blockSize);
      if block > dev.blockCount {
        return SeekFailed;
      }
      if block == dev.blockCount {
        if posIn > 0 {
          return SeekFailed;
        }
        eof := true;
      }
      blockInFile, posInBlock, pos := block, posIn, p;
      return SeekOk;
    }
  }

  // ---- after a seek ----

  // Open, write one byte, and seek back.
  method ByteThenSeek(dev: Device, x: byte) returns (f: BlockFile)
    requires dev.Valid() && 2 <= dev.blockSize && 0 < dev.blockCount && IsWord32(dev.blockSize)
    modifies dev
    ensures fresh(f) && fresh(f.buf) && f.dev == dev && f.Valid() && f.pos == 0 && f.blockInFile == 0
    ensures f.posInBlock == 0
    ensures f.Now() == Cache(old(dev.Part()), true, 0, Splice(old(dev.Part()[0]), 0, [x]))
  {
    f := new BlockFile(dev);
    ByteWaits(f.Now(), dev.blockSize, x);
    var done, out := f.ReadWrite(1, 1, [x], true);
    var sought := f.SetPos(0);
  }

  lemma FirstBlock(c: Cache, size: nat)
    requires CacheOk(c, size) && 0 < |c.part|
    ensures size <= |View(c)| && View(c)[..size] == Overlay(c)[0]
  {
    FlatBlock(Overlay(c), size, 0);
  }

  // On every device the promise breaks after a seek: with a byte x waiting in the buffer, a read
  // of the whole first block gets the block as it was, without x, ...
  method StaleRead(dev: Device, x: byte) returns (f: BlockFile, out: seq<byte>)
    requires dev.Valid() && 2 <= dev.blockSize && 0 < dev.blockCount && IsWord32(dev.blockSize)
    modifies dev
    ensures f.Valid() && dev.blockSize <= |f.View()| && f.View()[..dev.blockSize] == Splice(old(dev.Part()[0]), 0, [x])
    ensures out == old(dev.Part()[0])
  {
    f := ByteThenSeek(dev, x);
    BlockZero(f.Now(), dev.blockSize, dev.Part()[0]);
    var done;
    done, out := f.ReadWrite(1, dev.blockSize, [], false);
    FirstBlock(f.Now(), dev.blockSize);
  }

  // ... and a write of the whole first block is undone by the flush.
  method StaleWrite(dev: Device, x: byte, data: seq<byte>) returns (f: BlockFile)
    requires dev.Valid() && 2 <= dev.blockSize && 0 < dev.blockCount && IsWord32(dev.blockSize)
    requires |data| == dev.blockSize
    modifies dev
    ensures dev.Valid() && dev.Part() == old(dev.Part())[0 := Splice(old(dev.Part()[0]), 0, [x])]
  {
    f := ByteThenSeek(dev, x);
    BlockZero(f.Now(), dev.blockSize, data);
    var done, out := f.ReadWrite(1, dev.blockSize, data, true);
    f.Flush();
  }

  // ---- runs without a seek ----

  datatype FileOp = Read(n: nat) | Write(data: seq<byte>) | Sync

  // What a flat file of bytes does with one call: the bytes afterwards, the position, and what
  // was read.  A transfer past the end is not asked for.
  function FlatStep(bytes: seq<byte>, pos: nat, op: FileOp): (r: (seq<byte>, nat, seq<byte>))
    requires pos <= |bytes|
    ensures r.1 <= |r.0|
  {
    match op
    case Read(n) => if pos + n <= |bytes| then (bytes, pos + n, bytes[pos..pos + n]) else (bytes, pos, [])
    case Write(data) =>
      if pos + |data| <= |bytes| then (Splice(bytes, pos, data), pos + |data|, []) else (bytes, pos, [])
    case Sync => (bytes, pos, [])
  }

  // In plain terms: the bytes from the position on are what is read, or what was written, and no
  // other byte has changed.
  lemma FlatStepPlainly(bytes: seq<byte>, pos: nat, op: FileOp)
    requires pos <= |bytes|
    ensures var (after, past, out) := FlatStep(bytes, pos, op);
      && (op.Read? && pos + op.n <= |bytes| ==>
           after == bytes && past == pos + op.n && out == bytes[pos..past])
      && (op.Write? && pos + |op.data| <= |bytes| ==>
           && past == pos + |op.data| && |after| == |bytes| && out == []
           && after[..pos] == bytes[..pos] && after[pos..past] == op.data && after[past..] == bytes[past..])
  {
  }

  function FlatRun(bytes: seq<byte>, ops: seq<FileOp>): (r: (seq<byte>, nat, seq<byte>))
    ensures r.1 <= |r.0|
    decreases |ops|
  {
    if ops == [] then (bytes, 0, [])
    else
      var (b, p, out) := FlatRun(bytes, ops[..|ops| - 1]);
      var (b', p', more) := FlatStep(b, p, ops[|ops| - 1]);
      (b', p', out + more)
  }

  predicate OpFits(op: FileOp) {
    match op
    case Read(n) => IsWord32(n)
    case Write(data) => IsWord32(|data|)
    case Sync => true
  }

  method Perform(f: BlockFile, op: FileOp) returns (out: seq<byte>)
    requires f.Valid() && f.Behind() && OpFits(op)
    modifies f`pos, f`posInBlock, f`blockInFile, f`bufferChanged, f`blockInBuffer, f.buf, f.dev
    ensures f.Valid() && f.Behind() && f.dev.OnlyPart()
    ensures old(f.pos) <= |old(f.View())| && (f.View(), f.pos, out) == FlatStep(old(f.View()), old(f.pos), op)
  {
    hide Flat, Offset, Splice;
    out := [];
    f.PosInView();
    OffsetIsProduct(f.dev.blockCount, f.dev.blockSize);
    match op {
      case Read(n) =>
        if f.pos + n <= f.dev.blockCount * f.dev.blockSize {
          var done;
          done, out := f.ReadWrite(1, n, [], false);
        }
      case Write(data) =>
        if f.pos + |data| <= f.dev.blockCount * f.dev.blockSize {
          var done, nothing := f.ReadWrite(1, |data|, data, true);
        }
      case Sync =>
        f.Flush();
    }
  }

  // Opened, then read, written and flushed in any order without seeking, the device is a flat
  // file; the last flush makes the disk itself equal to it and touches nothing outside.
  method SequentialRun(dev: Device, ops: seq<FileOp>) returns (f: BlockFile, out: seq<byte>)
    requires dev.Valid() && forall op | op in ops :: OpFits(op)
    modifies dev
    ensures dev.Valid() && dev.OnlyPart()
    ensures f.dev == dev && (Flat(dev.Part()), f.pos, out) == FlatRun(Flat(old(dev.Part())), ops)
  {
    hide Flat, Offset, Splice, FlatStep;
    f := new BlockFile(dev);
    out := [];
    ghost var start := f.View();
    for i := 0 to |ops|
      invariant fresh(f) && fresh(f.buf) && f.dev == dev
      invariant f.Valid() && f.Behind() && dev.OnlyPart()
      invariant (f.View(), f.pos, out) == FlatRun(start, ops[..i])
    {
      assert ops[..i + 1][..i] == ops[..i];
      var bytes := Perform(f, ops[i]);
      out := out + bytes;
    }
    assert ops[..|ops|] == ops;
    f.Flush();
  }
}
