// The one-block write-back buffer of src/devices/blockdev/blockdev.c, over devices whose block
// operations succeed.

module BlockDevice {
  import opened FlatBlocks

  const NO_BLOCK := 0xffff_ffff_ffff_ffff

  // A disk, and the part of it that is this device.
  class Device {
    const blockSize: nat
    const blockCount: nat
    const firstBlock: nat
    var disk: seq<Block>

    ghost predicate Valid()
      reads this
    {
      && 0 < blockSize && blockCount < NO_BLOCK
      && Uniform(disk, blockSize) && firstBlock + blockCount <= |disk|
    }

    function Part(): seq<Block>
      requires firstBlock + blockCount <= |disk|
      reads this
    {
      disk[firstBlock..firstBlock + blockCount]
    }

    // Nothing outside the device has changed.
    twostate predicate OnlyPart()
      reads this
    {
      && |disk| == old(|disk|)
      && forall i | 0 <= i < |disk| && !(firstBlock <= i < firstBlock + blockCount) :: disk[i] == old(disk[i])
    }

    constructor (blockSize: nat, blockCount: nat, firstBlock: nat, disk: seq<Block>)
      requires 0 < blockSize && blockCount < NO_BLOCK
      requires Uniform(disk, blockSize) && firstBlock + blockCount <= |disk|
      ensures Valid() && this.disk == disk
      ensures this.blockSize == blockSize && this.blockCount == blockCount && this.firstBlock == firstBlock
    {
      this.blockSize, this.blockCount, this.firstBlock, this.disk := blockSize, blockCount, firstBlock, disk;
    }

    method ReadOneBlock(num: nat) returns (block: Block)
      requires Valid() && num < |disk|
      ensures block == disk[num]
    {
      block := disk[num];
    }

    method WriteOneBlock(num: nat, block: Block)
      requires Valid() && firstBlock <= num < firstBlock + blockCount && |block| == blockSize
      modifies this
      ensures Valid() && disk == old(disk)[num := block]
      ensures Part() == old(Part())[num - firstBlock := block]
    {
      disk := disk[num := block];
    }

    // blockdev_dummy_read_blocks
    method ReadBlocks(num: nat, count: nat) returns (data: seq<byte>)
      requires Valid() && firstBlock <= num && num + count <= firstBlock + blockCount
      ensures data == Flat(Part()[num - firstBlock..num - firstBlock + count])
    {
      ghost var b := num - firstBlock;
      data := [];
      var i := 0;
      while i < count
        invariant 0 <= i <= count && data == Flat(Part()[b..b + i])
      {
        var block := ReadOneBlock(num + i);
        FlatPush(Part()[b..b + i], block);
        assert Part()[b..b + i + 1] == Part()[b..b + i] + [block];
        data := data + block;
        i := i + 1;
      }
    }

    // blockdev_dummy_write_blocks
    method WriteBlocks(num: nat, count: nat, data: seq<byte>)
      requires Valid() && firstBlock <= num && num + count <= firstBlock + blockCount
      requires |data| == Offset(count, blockSize)
      modifies this
      ensures Valid() && OnlyPart()
      ensures var b := num - firstBlock;
        Part() == old(Part())[..b] + Chunks(data, blockSize, count) + old(Part())[b + count..]
    {
      ghost var b := num - firstBlock;
      hide Chunks;
      ghost var chunks := Chunks(data, blockSize, count);
      var ptr: nat := 0;
      var i := 0;
      while i < count
        invariant 0 <= i <= count && ptr == Offset(i, blockSize)
        invariant Valid() && OnlyPart()
        invariant forall j | 0 <= j < blockCount ::
          Part()[j] == if b <= j < b + i then chunks[j - b] else old(Part())[j]
      {
        ChunkAt(data, blockSize, count, i);
        WriteOneBlock(num + i, data[ptr..ptr + blockSize]);
        ptr := ptr + blockSize;
        i := i + 1;
      }
      assert Part() == old(Part())[..b] + chunks + old(Part())[b + count..];
    }
  }
}
