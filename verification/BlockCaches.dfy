// The one-block write-back buffer of src/devices/blockdev/blockdev.c as a value: what a transfer
// does to the device and the buffer, and what that means for the flat view of both.

module BlockCaches {
  import opened FlatBlocks
  import opened BlockDevice
  import Arithmetic

  // The device and the buffer in front of it.
  datatype Cache = Cache(part: seq<Block>, changed: bool, number: nat, buffer: Block)

  ghost predicate CacheOk(c: Cache, size: nat) {
    && 0 < size && Uniform(c.part, size) && |c.buffer| == size && |c.part| < NO_BLOCK
    && (c.number == NO_BLOCK || c.number < |c.part|) && (c.changed ==> c.number != NO_BLOCK)
  }

  // The device as it would be after a flush ...
  ghost function Overlay(c: Cache): (blocks: seq<Block>)
    requires c.changed ==> c.number < |c.part|
    ensures |blocks| == |c.part|
  {
    if c.changed then c.part[c.number := c.buffer] else c.part
  }

  // ... as one flat array of bytes.
  ghost function View(c: Cache): seq<byte>
    requires c.changed ==> c.number < |c.part|
  {
    Flat(Overlay(c))
  }

  // A buffer that has not been changed is what the device holds.
  ghost predicate Coherent(c: Cache) {
    c.number < |c.part| && !c.changed ==> c.buffer == c.part[c.number]
  }

  lemma ViewLength(c: Cache, size: nat)
    requires CacheOk(c, size)
    ensures |View(c)| == Offset(|c.part|, size)
  {
    FlatLength(Overlay(c), size);
  }

  // ---- splices and slices in two parts ----

  lemma SpliceLeavesTail(bytes: seq<byte>, pos: nat, data: seq<byte>)
    requires pos + |data| <= |bytes|
    ensures Splice(bytes, pos, data)[pos + |data|..] == bytes[pos + |data|..]
  {
  }

  lemma SliceInTwo(bytes: seq<byte>, a: nat, b: nat, c: nat, first: seq<byte>, second: seq<byte>)
    requires a <= b <= c <= |bytes| && |first| == b - a
    ensures second == bytes[b..c] ==> (first + second == bytes[a..c] <==> first == bytes[a..b])
  {
    assert bytes[a..c] == bytes[a..b] + bytes[b..c];
    if first + second == bytes[a..c] {
      assert first == (first + second)[..b - a] == bytes[a..c][..b - a] == bytes[a..b];
    }
  }

  // A later splice cannot hide an earlier difference.
  lemma SpliceKeepsDifference(a: seq<byte>, b: seq<byte>, pos: nat, data: seq<byte>)
    requires |a| == |b| && pos + |data| <= |a| && a[pos..] == b[pos..]
    ensures Splice(a, pos, data) == Splice(b, pos, data) <==> a == b
  {
    if Splice(a, pos, data) == Splice(b, pos, data) {
      assert a[..pos] == Splice(a, pos, data)[..pos] == Splice(b, pos, data)[..pos] == b[..pos];
      assert a == a[..pos] + a[pos..] && b == b[..pos] + b[pos..];
    }
  }

  lemma SpliceInTwo(v0: seq<byte>, v1: seq<byte>, at: nat, whole: nat, data: seq<byte>)
    requires |v0| == |v1| && whole <= |data| && at + |data| <= |v0| && v1[at + whole..] == v0[at + whole..]
    ensures Splice(v1, at + whole, data[whole..]) == Splice(v0, at, data) <==> v1 == Splice(v0, at, data[..whole])
  {
    assert data == data[..whole] + data[whole..];
    SpliceTwice(v0, at, data[..whole], data[whole..]);
    SpliceLeavesTail(v0, at, data[..whole]);
    SpliceKeepsDifference(v1, Splice(v0, at, data[..whole]), at + whole, data[whole..]);
  }

  lemma {:induction false} FlatInjective(a: seq<Block>, b: seq<Block>, size: nat)
    requires Uniform(a, size) && Uniform(b, size) && |a| == |b| && Flat(a) == Flat(b)
    ensures a == b
  {
    if a != [] {
      assert a[0] == Flat(a)[..size] == Flat(b)[..size] == b[0];
      assert Flat(a[1..]) == Flat(a)[size..] == Flat(b)[size..] == Flat(b[1..]);
      FlatInjective(a[1..], b[1..], size);
      assert a == [a[0]] + a[1..] && b == [b[0]] + b[1..];
    }
  }

  // ---- through the buffer ----

  // Block b in the buffer: what was changed there before is written first.
  ghost function Filled(c: Cache, size: nat, b: nat): (d: Cache)
    requires CacheOk(c, size) && b < |c.part|
    ensures CacheOk(d, size) && d.number == b && |d.part| == |c.part|
  {
    if c.number == b then c else Cache(Overlay(c), false, b, Overlay(c)[b])
  }

  // n bytes moved through the buffer, at an offset in block b.
  ghost function Through(c: Cache, size: nat, b: nat, offset: nat, n: nat, data: seq<byte>, write: bool)
    : (r: (Cache, seq<byte>))
    requires CacheOk(c, size) && b < |c.part| && offset + n <= size && (write ==> |data| == n)
    ensures CacheOk(r.0, size) && |r.0.part| == |c.part| && r.0.number == b
  {
    var d := Filled(c, size, b);
    if write then (d.(changed := true, buffer := Splice(d.buffer, offset, data)), [])
    else (d, d.buffer[offset..offset + n])
  }

  // That is a transfer in the view.  Loading another block makes even a stale buffer right.
  lemma ThroughView(c: Cache, size: nat, b: nat, offset: nat, n: nat, data: seq<byte>, write: bool)
    requires CacheOk(c, size) && b < |c.part| && offset + n <= size && (write ==> |data| == n)
    requires Coherent(c) || c.number != b
    ensures var r, at := Through(c, size, b, offset, n, data, write), Offset(b, size) + offset;
      && Coherent(r.0) && at + n <= |View(c)|
      && (if write then View(r.0) == Splice(View(c), at, data) else View(r.0) == View(c) && r.1 == View(c)[at..at + n])
  {
    hide Flat, Offset, Splice;
    var over, d := Overlay(c), Filled(c, size, b);
    assert Overlay(d) == over && d.buffer == over[b];
    FlatPeek(over, size, b, offset, n);
    if write {
      FlatPatch(over, size, b, offset, data);
      var r := Through(c, size, b, offset, n, data, write);
      assert Overlay(r.0) == over[b := Splice(over[b], offset, data)];
    }
  }

  // ---- past the buffer ----

  // m blocks moved past it, from block b on.
  ghost function Past(c: Cache, size: nat, b: nat, m: nat, data: seq<byte>, write: bool): (r: (Cache, seq<byte>))
    requires CacheOk(c, size) && b + m <= |c.part| && (write ==> |data| == Offset(m, size))
    ensures CacheOk(r.0, size) && |r.0.part| == |c.part| && r.0.number == c.number
  {
    if write then (c.(part := c.part[..b] + Chunks(data, size, m) + c.part[b + m..]), [])
    else (c, Flat(c.part[b..b + m]))
  }

  lemma OverlayInRun(c: Cache, size: nat, b: nat, m: nat)
    requires CacheOk(c, size) && b + m <= |c.part|
    ensures Uniform(Overlay(c), size)
    ensures Overlay(c)[b..b + m] == c.part[b..b + m] <==>
              (c.changed && b <= c.number < b + m ==> c.buffer == c.part[c.number])
  {
    if c.changed && b <= c.number < b + m {
      assert Overlay(c)[b..b + m][c.number - b] == c.buffer && c.part[b..b + m][c.number - b] == c.part[c.number];
    }
  }

  // What is read that way is what the view has unless a changed buffer in the way differs from
  // its block.
  lemma PastReads(c: Cache, size: nat, b: nat, m: nat)
    requires CacheOk(c, size) && b + m <= |c.part|
    ensures var out, at, n := Flat(c.part[b..b + m]), Offset(b, size), Offset(m, size);
      && |out| == n && at + n <= |View(c)|
      && (out == View(c)[at..at + n] <==> (c.changed && b <= c.number < b + m ==> c.buffer == c.part[c.number]))
  {
    hide Flat, Offset, Overlay;
    OverlayInRun(c, size, b, m);
    var over := Overlay(c);
    FlatSlice(over, size, b, m);
    FlatLength(c.part[b..b + m], size);
    if Flat(over[b..b + m]) == Flat(c.part[b..b + m]) {
      FlatInjective(over[b..b + m], c.part[b..b + m], size);
    }
  }

  // m blocks of the data in place of those from block b on.
  function Replaced(blocks: seq<Block>, b: nat, chunks: seq<Block>): seq<Block>
    requires b + |chunks| <= |blocks|
  {
    blocks[..b] + chunks + blocks[b + |chunks|..]
  }

  lemma OverlayReplaced(c: Cache, size: nat, b: nat, chunks: seq<Block>, d: Cache)
    requires CacheOk(c, size) && b + |chunks| <= |c.part| && Uniform(chunks, size)
    requires d == c.(part := Replaced(c.part, b, chunks))
    ensures CacheOk(d, size) && |Replaced(Overlay(c), b, chunks)| == |Overlay(d)| == |c.part|
    ensures Uniform(Overlay(c), size) && Uniform(Overlay(d), size) && Uniform(Replaced(Overlay(c), b, chunks), size)
    ensures var matches := b <= c.number < b + |chunks| ==> c.buffer == chunks[c.number - b];
      && (Overlay(d) == Replaced(Overlay(c), b, chunks) <==> (c.changed ==> matches))
      && (Coherent(c) ==> (Coherent(d) <==> (!c.changed ==> matches)))
  {
    var wanted := Replaced(Overlay(c), b, chunks);
    if c.changed && b <= c.number < b + |chunks| {
      assert Overlay(d)[c.number] == c.buffer && wanted[c.number] == chunks[c.number - b];
      assert c.buffer == chunks[c.number - b] ==> Overlay(d) == wanted;
    } else {
      assert Overlay(d) == wanted;
    }
  }

  // What is written arrives in the view on the same condition, and leaves the buffer coherent
  // unless an unchanged buffer in the way differs from what was written.
  lemma PastWrites(c: Cache, size: nat, b: nat, m: nat, data: seq<byte>)
    requires CacheOk(c, size) && b + m <= |c.part| && |data| == Offset(m, size)
    ensures var d, at := Past(c, size, b, m, data, true).0, Offset(b, size);
      var matches := b <= c.number < b + m ==> c.buffer == Chunks(data, size, m)[c.number - b];
      && at + |data| <= |View(c)|
      && (View(d) == Splice(View(c), at, data) <==> (c.changed ==> matches))
      && (Coherent(c) ==> (Coherent(d) <==> (!c.changed ==> matches)))
  {
    hide Flat, Offset, Chunks, Splice, Overlay, Coherent;
    var d, chunks := Past(c, size, b, m, data, true).0, Chunks(data, size, m);
    FlatChunks(data, size, m);
    assert d == c.(part := Replaced(c.part, b, chunks));
    OverlayReplaced(c, size, b, chunks, d);
    FlatReplace(Overlay(c), size, b, chunks);
    assert Flat(Replaced(Overlay(c), b, chunks)) == Splice(View(c), Offset(b, size), data);
    hide Replaced, Past;
    if Flat(Overlay(d)) == Flat(Replaced(Overlay(c), b, chunks)) {
      FlatInjective(Overlay(d), Replaced(Overlay(c), b, chunks), size);
    }
  }

  // The bytes behind the blocks written are not touched.
  lemma PastKeepsTail(c: Cache, size: nat, b: nat, m: nat, data: seq<byte>)
    requires CacheOk(c, size) && b + m <= |c.part| && |data| == Offset(m, size)
    ensures var d, end := Past(c, size, b, m, data, true).0, Offset(b + m, size);
      end <= |View(c)| == |View(d)| && View(d)[end..] == View(c)[end..]
  {
    hide Flat, Offset, Chunks;
    var d := Past(c, size, b, m, data, true).0;
    FlatTail(Overlay(d), size, b + m);
    FlatTail(Overlay(c), size, b + m);
    ViewLength(c, size);
    ViewLength(d, size);
    assert Overlay(d)[b + m..] == Overlay(c)[b + m..];
  }

  // ---- a whole transfer ----

  lemma BlocksFit(b: nat, n: nat, count: nat, size: nat)
    requires 0 < size && Offset(b, size) + n <= Offset(count, size)
    ensures 0 <= n / size && Offset(n / size, size) <= n < Offset(n / size, size) + size
    ensures b + n / size <= count && (Offset(n / size, size) < n ==> b + n / size < count)
    ensures n % size == n - Offset(n / size, size)
    ensures Offset(b + n / size, size) == Offset(b, size) + Offset(n / size, size)
  {
    hide Offset;
    Arithmetic.DivisionLaw(n, size);
    DivOffset(n, size);
    OffsetAdds(b, n / size, size);
    OffsetBounds(b + n / size, count, size, n - Offset(n / size, size));
  }

  // The whole blocks of n bytes from the start of block b on, if there are any.
  ghost function Body(c: Cache, size: nat, b: nat, n: nat, data: seq<byte>, write: bool): (r: (Cache, seq<byte>))
    requires CacheOk(c, size) && (write ==> |data| == n) && Offset(b, size) + n <= Offset(|c.part|, size)
    ensures CacheOk(r.0, size) && |r.0.part| == |c.part| && r.0.number == c.number
  {
    BlocksFit(b, n, |c.part|, size);
    if n / size == 0 then (c, [])
    else Past(c, size, b, n / size, if write then data[..Offset(n / size, size)] else [], write)
  }

  // n bytes from the start of block b on: the whole blocks past the buffer, the rest through it.
  ghost function FromBlock(c: Cache, size: nat, b: nat, n: nat, data: seq<byte>, write: bool): (r: (Cache, seq<byte>))
    requires CacheOk(c, size) && (write ==> |data| == n) && Offset(b, size) + n <= Offset(|c.part|, size)
    ensures CacheOk(r.0, size) && |r.0.part| == |c.part|
  {
    BlocksFit(b, n, |c.part|, size);
    var whole := Offset(n / size, size);
    var (d, out) := Body(c, size, b, n, data, write);
    if whole == n then (d, out)
    else
      var (e, more) := Through(d, size, b + n / size, 0, n - whole, if write then data[whole..] else [], write);
      (e, out + more)
  }

  // n bytes from an offset in block b on.
  ghost function Transfer(c: Cache, size: nat, b: nat, offset: nat, n: nat, data: seq<byte>, write: bool)
    : (r: (Cache, seq<byte>))
    requires offset < size && CacheOk(c, size) && (write ==> |data| == n)
    requires Offset(b, size) + offset + n <= Offset(|c.part|, size)
    ensures CacheOk(r.0, size) && |r.0.part| == |c.part|
  {
    if n == 0 then (c, [])
    else if offset == 0 then FromBlock(c, size, b, n, data, write)
    else
      OffsetBounds(b, |c.part|, size, offset);
      var head := if n < size - offset then n else size - offset;
      var (d, out) := Through(c, size, b, offset, head, if write then data[..head] else [], write);
      if head == n then (d, out)
      else
        var (e, more) := FromBlock(d, size, b + 1, n - head, if write then data[head..] else [], write);
        (e, out + more)
  }

  // ---- when it is right ----

  // The buffered block is one that a transfer of n bytes moves past the buffer.
  predicate InSpan(c: Cache, size: nat, b: nat, offset: nat, n: nat)
    requires 0 < size
  {
    offset == 0 && c.number != NO_BLOCK && b <= c.number < b + n / size
  }

  // The whole blocks of the data.
  ghost function SpanBlocks(data: seq<byte>, size: nat): (blocks: seq<Block>)
    requires 0 < size
    ensures 0 <= |data| / size == |blocks|
  {
    DivOffset(|data|, size);
    Arithmetic.DivisionLaw(|data|, size);
    Chunks(data[..Offset(|data| / size, size)], size, |data| / size)
  }

  // The buffer cannot make a read wrong ...
  ghost predicate ReadOk(c: Cache, size: nat, b: nat, offset: nat, n: nat)
    requires CacheOk(c, size)
  {
    c.changed && InSpan(c, size, b, offset, n) ==> c.buffer == c.part[c.number]
  }

  // A write of these bytes leaves the buffered block as the buffer has it.
  ghost predicate BufferMatches(c: Cache, size: nat, b: nat, offset: nat, data: seq<byte>)
    requires 0 < size
  {
    InSpan(c, size, b, offset, |data|) ==> c.buffer == SpanBlocks(data, size)[c.number - b]
  }

  // ... nor can a write of these bytes make the buffer wrong, now or later.
  ghost predicate WriteOk(c: Cache, size: nat, b: nat, offset: nat, data: seq<byte>)
    requires 0 < size
  {
    c.changed || |data| % size == 0 ==> BufferMatches(c, size, b, offset, data)
  }

  lemma NoBlocks(size: nat)
    ensures Offset(0, size) == 0
  {
  }

  lemma PastIsRead(c: Cache, size: nat, b: nat, m: nat)
    requires CacheOk(c, size) && b + m <= |c.part|
    ensures Past(c, size, b, m, [], false) == (c, Flat(c.part[b..b + m]))
  {
  }

  lemma BodyReads(c: Cache, size: nat, b: nat, n: nat, data: seq<byte>)
    requires CacheOk(c, size) && Offset(b, size) + n <= Offset(|c.part|, size)
    ensures var r, at, whole := Body(c, size, b, n, data, false), Offset(b, size), Offset(n / size, size);
      && r.0 == c && |r.1| == whole <= n && at + n <= |View(c)|
      && (r.1 == View(c)[at..at + whole] <==> ReadOk(c, size, b, 0, n))
  {
    hide Flat, Offset, Past;
    BlocksFit(b, n, |c.part|, size);
    ViewLength(c, size);
    NoBlocks(size);
    if n / size > 0 {
      PastIsRead(c, size, b, n / size);
      PastReads(c, size, b, n / size);
    }
  }

  lemma BodyWrites(c: Cache, size: nat, b: nat, data: seq<byte>)
    requires CacheOk(c, size) && Coherent(c) && Offset(b, size) + |data| <= Offset(|c.part|, size)
    ensures var n := |data|;
      var d, at, whole := Body(c, size, b, n, data, true).0, Offset(b, size), Offset(n / size, size);
      && Body(c, size, b, n, data, true).1 == [] && d.number == c.number
      && whole <= n && at + n <= |View(c)| == |View(d)| && View(d)[at + whole..] == View(c)[at + whole..]
      && (View(d) == Splice(View(c), at, data[..whole]) <==> (c.changed ==> BufferMatches(c, size, b, 0, data)))
      && (Coherent(d) <==> (!c.changed ==> BufferMatches(c, size, b, 0, data)))
  {
    hide Flat, Offset, Chunks, Splice, View, Coherent;
    var n, whole := |data|, Offset(|data| / size, size);
    BlocksFit(b, n, |c.part|, size);
    ViewLength(c, size);
    NoBlocks(size);
    if n / size > 0 {
      PastWrites(c, size, b, n / size, data[..whole]);
      PastKeepsTail(c, size, b, n / size, data[..whole]);
    } else {
      SpliceNothing(View(c), Offset(b, size));
      assert data[..whole] == [];
    }
  }

  lemma FromBlockReads(c: Cache, size: nat, b: nat, n: nat, data: seq<byte>)
    requires CacheOk(c, size) && Coherent(c) && Offset(b, size) + n <= Offset(|c.part|, size)
    ensures var r, at := FromBlock(c, size, b, n, data, false), Offset(b, size);
      && Coherent(r.0) && View(r.0) == View(c) && |r.1| == n && at + n <= |View(c)|
      && (r.1 == View(c)[at..at + n] <==> ReadOk(c, size, b, 0, n))
  {
    hide Flat, Offset, Through, Body, View, Coherent, ReadOk;
    BlocksFit(b, n, |c.part|, size);
    BodyReads(c, size, b, n, data);
    var whole, at := Offset(n / size, size), Offset(b, size);
    if whole < n {
      ThroughView(c, size, b + n / size, 0, n - whole, [], false);
      var out, more := Body(c, size, b, n, data, false).1, Through(c, size, b + n / size, 0, n - whole, [], false).1;
      SliceInTwo(View(c), at, at + whole, at + n, out, more);
    }
  }

  // A buffer that the whole blocks made stale is not the one the rest goes through.
  lemma NotBuffered(c: Cache, d: Cache, size: nat, b: nat, n: nat, data: seq<byte>)
    requires CacheOk(c, size) && Coherent(c) && n == |data| && Offset(b, size) + n <= Offset(|c.part|, size)
    requires d == Body(c, size, b, n, data, true).0
    ensures Coherent(d) || d.number != b + n / size
  {
    hide Offset, Chunks;
    BlocksFit(b, n, |c.part|, size);
  }

  lemma ThroughWrites(c: Cache, size: nat, b: nat, offset: nat, n: nat, data: seq<byte>)
    requires CacheOk(c, size) && b < |c.part| && offset + n <= size && |data| == n
    ensures Through(c, size, b, offset, n, data, true).1 == []
  {
  }

  lemma FromBlockWrites(c: Cache, size: nat, b: nat, data: seq<byte>)
    requires CacheOk(c, size) && Coherent(c) && Offset(b, size) + |data| <= Offset(|c.part|, size)
    ensures var d, at := FromBlock(c, size, b, |data|, data, true).0, Offset(b, size);
      && FromBlock(c, size, b, |data|, data, true).1 == [] && at + |data| <= |View(c)|
      && (Coherent(d) && View(d) == Splice(View(c), at, data) <==> WriteOk(c, size, b, 0, data))
  {
    hide Flat, Offset, Through, Body, View, Coherent, BufferMatches, Splice;
    var n := |data|;
    var whole, at := Offset(n / size, size), Offset(b, size);
    BlocksFit(b, n, |c.part|, size);
    BodyWrites(c, size, b, data);
    var d := Body(c, size, b, n, data, true).0;
    if whole < n {
      NotBuffered(c, d, size, b, n, data);
      ThroughView(d, size, b + n / size, 0, n - whole, data[whole..], true);
      ThroughWrites(d, size, b + n / size, 0, n - whole, data[whole..]);
      SpliceInTwo(View(c), View(d), at, whole, data);
    } else {
      assert data[..whole] == data;
    }
  }

  lemma HeadReads(c: Cache, size: nat, b: nat, offset: nat, n: nat)
    requires CacheOk(c, size)
    ensures offset != 0 || n == 0 ==> ReadOk(c, size, b, offset, n)
  {
  }

  // The buffer then holds the block of the head, which no later block is.
  lemma RestReads(d: Cache, size: nat, b: nat, n: nat)
    requires CacheOk(d, size) && d.number == b
    ensures ReadOk(d, size, b + 1, 0, n)
  {
  }

  lemma NoneInSpan(c: Cache, size: nat, b: nat, offset: nat)
    requires 0 < size
    ensures !InSpan(c, size, b, offset, 0)
  {
  }

  lemma OffsetOne(size: nat)
    ensures Offset(1, size) == size
  {
  }

  // A transfer is right, and leaves all right, if and only if the buffer does not stand in its way.
  lemma TransferReads(c: Cache, size: nat, b: nat, offset: nat, n: nat, data: seq<byte>)
    requires offset < size && CacheOk(c, size) && Coherent(c) && Offset(b, size) + offset + n <= Offset(|c.part|, size)
    ensures var r, at := Transfer(c, size, b, offset, n, data, false), Offset(b, size) + offset;
      && Coherent(r.0) && View(r.0) == View(c) && |r.1| == n && at + n <= |View(c)|
      && (r.1 == View(c)[at..at + n] <==> ReadOk(c, size, b, offset, n))
  {
    hide Flat, Offset, Through, FromBlock, View, Coherent, ReadOk, Filled;
    ViewLength(c, size);
    HeadReads(c, size, b, offset, n);
    Arithmetic.DivisionLaw(n, size);
    if n == 0 {
      NoneInSpan(c, size, b, offset);
    } else if offset == 0 {
      FromBlockReads(c, size, b, n, data);
    } else {
      OffsetBounds(b, |c.part|, size, offset);
      OffsetAdds(b, 1, size);
      var head, at := if n < size - offset then n else size - offset, Offset(b, size) + offset;
      ThroughView(c, size, b, offset, head, [], false);
      OffsetOne(size);
      if head < n {
        var (d, out) := Through(c, size, b, offset, head, [], false);
        RestReads(d, size, b, n - head);
        FromBlockReads(d, size, b + 1, n - head, []);
        SliceInTwo(View(c), at, at + head, at + n, out, FromBlock(d, size, b + 1, n - head, [], false).1);
      }
    }
  }

  lemma TransferWrites(c: Cache, size: nat, b: nat, offset: nat, data: seq<byte>)
    requires offset < size && CacheOk(c, size) && Coherent(c)
    requires Offset(b, size) + offset + |data| <= Offset(|c.part|, size)
    ensures var d, at := Transfer(c, size, b, offset, |data|, data, true).0, Offset(b, size) + offset;
      && Transfer(c, size, b, offset, |data|, data, true).1 == [] && at + |data| <= |View(c)|
      && (Coherent(d) && View(d) == Splice(View(c), at, data) <==> WriteOk(c, size, b, offset, data))
  {
    hide Flat, Offset, Through, FromBlock, View, Coherent, Splice, SpanBlocks;
    var n := |data|;
    ViewLength(c, size);
    Arithmetic.DivisionLaw(n, size);
    if n == 0 {
      NoneInSpan(c, size, b, offset);
      SpliceNothing(View(c), Offset(b, size) + offset);
    } else if offset == 0 {
      FromBlockWrites(c, size, b, data);
    } else {
      OffsetBounds(b, |c.part|, size, offset);
      OffsetAdds(b, 1, size);
      OffsetOne(size);
      var head, at := if n < size - offset then n else size - offset, Offset(b, size) + offset;
      ThroughView(c, size, b, offset, head, data[..head], true);
      ThroughWrites(c, size, b, offset, head, data[..head]);
      if head < n {
        var d := Through(c, size, b, offset, head, data[..head], true).0;
        FromBlockWrites(d, size, b + 1, data[head..]);
        SpliceTwice(View(c), at, data[..head], data[head..]);
        assert data[..head] + data[head..] == data;
      } else {
        assert data[..head] == data;
      }
    }
  }

  // ---- three transfers spelled out ----

  // One byte at the start of block 0 waits in the buffer.
  lemma ByteWaits(c: Cache, size: nat, x: byte)
    requires CacheOk(c, size) && 2 <= size && 0 < |c.part| && c.number == NO_BLOCK
    ensures Offset(0, size) + 0 + 1 <= Offset(|c.part|, size)
    ensures Transfer(c, size, 0, 0, 1, [x], true).0 == Cache(c.part, true, 0, Splice(c.part[0], 0, [x]))
  {
    OffsetMonotone(1, |c.part|, size);
    OffsetOne(size);
    NoBlocks(size);
    assert 1 / size == 0;
    assert [x][0..] == [x];
  }

  // The whole of block 0 goes past it.
  lemma BlockZero(c: Cache, size: nat, data: seq<byte>)
    requires CacheOk(c, size) && 0 < |c.part| && |data| == size
    ensures size <= Offset(|c.part|, size) && Offset(0, size) == 0
    ensures Transfer(c, size, 0, 0, size, [], false) == (c, c.part[0])
    ensures Transfer(c, size, 0, 0, size, data, true).0 == c.(part := c.part[0 := data])
  {
    OffsetMonotone(1, |c.part|, size);
    OffsetOne(size);
    NoBlocks(size);
    assert size / size == 1;
    FlatBlock(c.part, size, 0);
    assert c.part[0..0 + size / size] == [c.part[0]];
    assert Flat([c.part[0]]) == c.part[0] + Flat([c.part[0]][1..]) == c.part[0];
    assert data[..size] == data && Chunks(data, size, 1) == [data];
    assert c.part[..0] + [data] + c.part[1..] == c.part[0 := data];
  }
}
