// A row of equally long blocks read as one array of bytes.

module FlatBlocks {
  type byte = x: int | 0 <= x < 256

  type Block = seq<byte>

  // What fsetpos answers.
  datatype SeekResult = SeekOk | SeekFailed

  ghost predicate Uniform(blocks: seq<Block>, size: nat) {
    forall i | 0 <= i < |blocks| :: |blocks[i]| == size
  }

  function Flat(blocks: seq<Block>): seq<byte> {
    if blocks == [] then [] else blocks[0] + Flat(blocks[1..])
  }

  // Where block i begins: i * size, by adding up, which is kinder to the proofs below.
  function Offset(i: nat, size: nat): nat {
    if i == 0 then 0 else Offset(i - 1, size) + size
  }

  lemma {:induction false} OffsetIsProduct(i: nat, size: nat)
    ensures Offset(i, size) == i * size
  {
    if i > 0 {
      OffsetIsProduct(i - 1, size);
      assert i * size == (i - 1) * size + size;
    }
  }

  lemma {:induction false} OffsetAdds(i: nat, n: nat, size: nat)
    ensures Offset(i + n, size) == Offset(i, size) + Offset(n, size)
  {
    if n > 0 {
      OffsetAdds(i, n - 1, size);
    }
  }

  // data written over bytes from pos on.
  function Splice(bytes: seq<byte>, pos: nat, data: seq<byte>): (r: seq<byte>)
    requires pos + |data| <= |bytes|
    ensures |r| == |bytes|
  {
    bytes[..pos] + data + bytes[pos + |data|..]
  }

  // The data is where it was put, and nothing else has changed.
  lemma SpliceParts(bytes: seq<byte>, pos: nat, data: seq<byte>)
    requires pos + |data| <= |bytes|
    ensures |Splice(bytes, pos, data)| == |bytes|
    ensures forall i | 0 <= i < |bytes| ::
              Splice(bytes, pos, data)[i] == if pos <= i < pos + |data| then data[i - pos] else bytes[i]
  {
  }

  lemma SpliceTwice(bytes: seq<byte>, pos: nat, first: seq<byte>, second: seq<byte>)
    requires pos + |first| + |second| <= |bytes|
    ensures Splice(Splice(bytes, pos, first), pos + |first|, second) == Splice(bytes, pos, first + second)
  {
  }

  lemma SpliceNothing(bytes: seq<byte>, pos: nat)
    requires pos <= |bytes|
    ensures Splice(bytes, pos, []) == bytes
  {
  }

  lemma {:induction false} FlatAppend(a: seq<Block>, b: seq<Block>)
    ensures Flat(a + b) == Flat(a) + Flat(b)
  {
    if a == [] {
      assert a + b == b;
    } else {
      assert (a + b)[1..] == a[1..] + b;
      FlatAppend(a[1..], b);
    }
  }

  lemma FlatPush(blocks: seq<Block>, block: Block)
    ensures Flat(blocks + [block]) == Flat(blocks) + block
  {
    FlatAppend(blocks, [block]);
    assert Flat([block]) == block + Flat([block][1..]);
  }

  lemma {:induction false} FlatLength(blocks: seq<Block>, size: nat)
    requires Uniform(blocks, size)
    ensures |Flat(blocks)| == Offset(|blocks|, size)
  {
    if blocks != [] {
      FlatLength(blocks[1..], size);
    }
  }

  lemma Middle(a: seq<byte>, b: seq<byte>, c: seq<byte>, b': seq<byte>)
    ensures (a + b + c)[|a|..|a| + |b|] == b
    ensures |b| == |b'| ==> a + b' + c == Splice(a + b + c, |a|, b')
  {
  }

  // The bytes of a row of blocks taken apart in three.
  lemma FlatThree(blocks: seq<Block>, size: nat, i: nat, n: nat)
    requires Uniform(blocks, size) && i + n <= |blocks|
    ensures Flat(blocks) == Flat(blocks[..i]) + Flat(blocks[i..i + n]) + Flat(blocks[i + n..])
    ensures |Flat(blocks[..i])| == Offset(i, size) && |Flat(blocks[i..i + n])| == Offset(n, size)
    ensures |Flat(blocks)| == Offset(|blocks|, size)
  {
    hide Flat, Offset;
    var first, second, third := blocks[..i], blocks[i..i + n], blocks[i + n..];
    assert blocks == first + second + third;
    FlatAppend(first + second, third);
    FlatAppend(first, second);
    assert |first| == i && |second| == n;
    FlatLength(first, size);
    FlatLength(second, size);
    FlatLength(blocks, size);
  }

  // The bytes of blocks i to i + n.
  lemma FlatSlice(blocks: seq<Block>, size: nat, i: nat, n: nat)
    requires Uniform(blocks, size) && i + n <= |blocks|
    ensures Offset(i, size) + Offset(n, size) <= |Flat(blocks)| == Offset(|blocks|, size)
    ensures Flat(blocks)[Offset(i, size)..Offset(i, size) + Offset(n, size)] == Flat(blocks[i..i + n])
  {
    FlatThree(blocks, size, i, n);
    Middle(Flat(blocks[..i]), Flat(blocks[i..i + n]), Flat(blocks[i + n..]), []);
  }

  // Replacing blocks i to i + |part| is splicing their bytes.
  lemma FlatReplace(blocks: seq<Block>, size: nat, i: nat, part: seq<Block>)
    requires Uniform(blocks, size) && Uniform(part, size) && i + |part| <= |blocks|
    ensures Offset(i, size) + |Flat(part)| <= |Flat(blocks)|
    ensures Flat(blocks[..i] + part + blocks[i + |part|..]) == Splice(Flat(blocks), Offset(i, size), Flat(part))
  {
    FlatThree(blocks, size, i, |part|);
    FlatLength(part, size);
    FlatAppend(blocks[..i] + part, blocks[i + |part|..]);
    FlatAppend(blocks[..i], part);
    Middle(Flat(blocks[..i]), Flat(blocks[i..i + |part|]), Flat(blocks[i + |part|..]), Flat(part));
  }

  lemma FlatBlock(blocks: seq<Block>, size: nat, i: nat)
    requires Uniform(blocks, size) && i < |blocks|
    ensures Offset(i, size) + size <= |Flat(blocks)|
    ensures Flat(blocks)[Offset(i, size)..Offset(i, size) + size] == blocks[i]
  {
    FlatSlice(blocks, size, i, 1);
    assert blocks[i..i + 1] == [blocks[i]];
    assert Flat([blocks[i]]) == blocks[i] + Flat([blocks[i]][1..]) == blocks[i];
  }

  // Byte r of block k is byte k * size + r of them all.
  lemma FlatByte(blocks: seq<Block>, size: nat, k: nat, r: nat)
    requires Uniform(blocks, size) && k < |blocks| && r < size
    ensures 0 <= k * size && k * size + r < |Flat(blocks)| && Flat(blocks)[k * size + r] == blocks[k][r]
  {
    hide Flat, Offset;
    FlatBlock(blocks, size, k);
    OffsetIsProduct(k, size);
    assert Flat(blocks)[k * size..k * size + size][r] == Flat(blocks)[k * size + r];
  }

  lemma FlatSet(blocks: seq<Block>, size: nat, i: nat, block: Block)
    requires Uniform(blocks, size) && i < |blocks| && |block| == size
    ensures Offset(i, size) + size <= |Flat(blocks)|
    ensures Flat(blocks[i := block]) == Splice(Flat(blocks), Offset(i, size), block)
  {
    assert Flat([block]) == block by {
      assert Flat([block]) == block + Flat([block][1..]);
    }
    hide Flat, Offset, Splice;
    FlatReplace(blocks, size, i, [block]);
    assert blocks[i := block] == blocks[..i] + [block] + blocks[i + 1..];
  }

  lemma SliceOfSlice(s: seq<byte>, a: nat, b: nat, c: nat, d: nat)
    requires a <= b <= |s| && c <= d <= b - a
    ensures s[a..b][c..d] == s[a + c..a + d]
  {
    var t := s[a..b];
    assert forall k | 0 <= k < d - c :: t[c..d][k] == t[c + k] == s[a + c + k];
  }

  lemma InsideSplice(whole: seq<byte>, lo: nat, block: seq<byte>, offset: nat, data: seq<byte>)
    requires lo + |block| <= |whole| && whole[lo..lo + |block|] == block && offset + |data| <= |block|
    ensures Splice(whole, lo, Splice(block, offset, data)) == Splice(whole, lo + offset, data)
  {
  }

  // A write inside one block.
  lemma FlatPatch(blocks: seq<Block>, size: nat, i: nat, offset: nat, data: seq<byte>)
    requires Uniform(blocks, size) && i < |blocks| && offset + |data| <= size
    ensures Offset(i, size) + offset + |data| <= |Flat(blocks)|
    ensures Flat(blocks[i := Splice(blocks[i], offset, data)]) == Splice(Flat(blocks), Offset(i, size) + offset, data)
  {
    hide Flat, Offset, Splice;
    var patched := Splice(blocks[i], offset, data);
    FlatBlock(blocks, size, i);
    FlatSet(blocks, size, i, patched);
    InsideSplice(Flat(blocks), Offset(i, size), blocks[i], offset, data);
  }

  // A read inside one block.
  lemma FlatPeek(blocks: seq<Block>, size: nat, i: nat, offset: nat, n: nat)
    requires Uniform(blocks, size) && i < |blocks| && offset + n <= size
    ensures Offset(i, size) + offset + n <= |Flat(blocks)|
    ensures Flat(blocks)[Offset(i, size) + offset..Offset(i, size) + offset + n] == blocks[i][offset..offset + n]
  {
    hide Flat, Offset;
    FlatBlock(blocks, size, i);
    SliceOfSlice(Flat(blocks), Offset(i, size), Offset(i, size) + size, offset, offset + n);
  }

  // n * size bytes cut into n blocks.
  function Chunks(data: seq<byte>, size: nat, n: nat): (blocks: seq<Block>)
    requires |data| == Offset(n, size)
    ensures |blocks| == n && Uniform(blocks, size)
    decreases n
  {
    if n == 0 then [] else [data[..size]] + Chunks(data[size..], size, n - 1)
  }

  lemma {:induction false} FlatChunks(data: seq<byte>, size: nat, n: nat)
    requires |data| == Offset(n, size)
    ensures Flat(Chunks(data, size, n)) == data
    decreases n
  {
    if n > 0 {
      FlatChunks(data[size..], size, n - 1);
    }
  }

  lemma {:induction false} ChunkAt(data: seq<byte>, size: nat, n: nat, i: nat)
    requires |data| == Offset(n, size) && i < n
    ensures Offset(i, size) + size <= |data|
    ensures Chunks(data, size, n)[i] == data[Offset(i, size)..Offset(i, size) + size]
    decreases n
  {
    if i > 0 {
      var rest, lo := data[size..], Offset(i - 1, size);
      assert Chunks(data, size, n)[i] == Chunks(rest, size, n - 1)[i - 1];
      assert Offset(i, size) == lo + size;
      hide Chunks, Offset;
      ChunkAt(rest, size, n - 1, i - 1);
      SliceOfSlice(data, size, |data|, lo, lo + size);
    } else {
      OffsetAdds(1, n - 1, size);
    }
  }

  lemma DivOffset(n: nat, size: nat)
    requires 0 < size
    ensures Offset(n / size, size) + n % size == n
  {
    OffsetIsProduct(n / size, size);
  }

  // The bytes behind the first i blocks depend on the other blocks alone.
  lemma FlatTail(blocks: seq<Block>, size: nat, i: nat)
    requires Uniform(blocks, size) && i <= |blocks|
    ensures Offset(i, size) <= |Flat(blocks)| && Flat(blocks)[Offset(i, size)..] == Flat(blocks[i..])
  {
    assert blocks == blocks[..i] + blocks[i..];
    FlatAppend(blocks[..i], blocks[i..]);
    FlatLength(blocks[..i], size);
  }

  lemma {:induction false} OffsetMonotone(i: nat, j: nat, size: nat)
    requires i <= j
    ensures Offset(i, size) <= Offset(j, size)
    ensures i < j ==> Offset(i, size) + size <= Offset(j, size)
  {
    OffsetAdds(i, j - i, size);
    if i < j {
      OffsetAdds(i, 1, size);
      OffsetAdds(i + 1, j - i - 1, size);
    }
  }

  // Two places, given as block and offset in it, are in the order of their flat positions.
  lemma PlaceOrder(i: nat, a: nat, j: nat, b: nat, size: nat)
    requires a < size && b < size
    ensures Offset(i, size) + a < Offset(j, size) + b <==> i < j || (i == j && a < b)
    ensures Offset(i, size) + a == Offset(j, size) + b <==> i == j && a == b
  {
    if i <= j {
      OffsetMonotone(i, j, size);
    } else {
      OffsetMonotone(j, i, size);
    }
  }

  lemma OffsetBounds(i: nat, j: nat, size: nat, rest: nat)
    requires 0 < size && Offset(i, size) + rest <= Offset(j, size)
    ensures i <= j && (0 < rest ==> i < j)
  {
    if j < i {
      OffsetMonotone(j, i, size);
    }
  }
}
