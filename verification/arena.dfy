/**
 The chunked bump allocator of descriptors. Addresses of new chunks come from calloc,
 so they are a parameter; whatever they are, all blocks ever returned are aligned,
 zero, pairwise disjoint and inside a live chunk.
 */
module Arena {
  import opened Base
  import opened Arithmetic

  const CHUNK_BYTES: nat := 4096

  /** Zero-initialised memory obtained from calloc, used up to some offset. */
  datatype Chunk = Chunk(address: nat, bytes: seq<Byte>, used: nat) {
    function Capacity(): nat { |bytes| }

    /** The offset of the next position with the given alignment. */
    function AlignedOffset(alignment: nat): nat
      requires alignment > 0
    {
      used + Padding(address + used, alignment)
    }
  }

  /** Memory handed out to a client. */
  datatype Block = Block(address: nat, size: nat, alignment: nat)

  /** The regions [a, a + n) and [b, b + m) share no byte. */
  ghost predicate Disjoint(a: nat, n: nat, b: nat, m: nat) {
    a + n <= b || b + m <= a
  }

  ghost predicate ChunkOk(c: Chunk) {
    && 0 < c.address && c.address + c.Capacity() <= SIZE_MAX && c.used <= c.Capacity()
    && forall p :: c.used <= p < c.Capacity() ==> c.bytes[p] == 0
  }

  /** The block lies in the used part of the chunk. */
  ghost predicate Holds(c: Chunk, b: Block) {
    c.address <= b.address && b.address + b.size <= c.address + c.used
  }

  ghost predicate BlockOk(chunks: seq<Chunk>, b: Block) {
    && b.size > 0 && b.alignment > 0 && Divides(b.alignment, b.address)
    && exists i :: 0 <= i < |chunks| && Holds(chunks[i], b)
  }

  ghost predicate ChunksOk(chunks: seq<Chunk>) {
    && (forall i :: 0 <= i < |chunks| ==> ChunkOk(chunks[i]))
    && (forall i, j :: 0 <= i < j < |chunks| ==>
        Disjoint(chunks[i].address, chunks[i].Capacity(), chunks[j].address, chunks[j].Capacity()))
  }

  ghost predicate BlocksOk(chunks: seq<Chunk>, blocks: seq<Block>) {
    && (forall i :: 0 <= i < |blocks| ==> BlockOk(chunks, blocks[i]))
    && (forall i, j :: 0 <= i < j < |blocks| ==>
        Disjoint(blocks[i].address, blocks[i].size, blocks[j].address, blocks[j].size))
  }

  ghost predicate Zeroed(c: Chunk, b: Block) {
    && Holds(c, b) && c.used <= c.Capacity()
    && forall q :: b.address - c.address <= q < b.address - c.address + b.size ==> c.bytes[q] == 0
  }

  /** The capacity requested from calloc when the newest chunk cannot serve a request. */
  function NewCapacity(size: nat, alignment: nat): nat {
    if size + alignment > CHUNK_BYTES then size + alignment else CHUNK_BYTES
  }

  /** What calloc may return: nothing, or a region no live chunk overlaps. */
  ghost predicate Obtainable(chunks: seq<Chunk>, supply: Option<nat>, capacity: nat) {
    supply.Some? ==>
      && 0 < supply.value && supply.value + capacity <= SIZE_MAX
      && forall i :: 0 <= i < |chunks| ==>
        Disjoint(supply.value, capacity, chunks[i].address, chunks[i].Capacity())
  }

  predicate FitsIn(c: Chunk, size: nat, alignment: nat)
    requires alignment > 0
  {
    c.AlignedOffset(alignment) <= c.Capacity() && size <= c.Capacity() - c.AlignedOffset(alignment)
  }

  /** The chunk after `size` bytes have been taken from it. */
  function Taken(c: Chunk, size: nat, alignment: nat): Chunk
    requires alignment > 0
  {
    c.(used := c.AlignedOffset(alignment) + size)
  }

  function BlockFrom(c: Chunk, size: nat, alignment: nat): Block
    requires alignment > 0
  {
    Block(c.address + c.AlignedOffset(alignment), size, alignment)
  }

  lemma {:induction false} Pow2Adds(i: nat, j: nat)
    ensures Pow2(i + j) == Pow2(i) * Pow2(j)
  {
    if i > 0 {
      Pow2Adds(i - 1, j);
    }
  }

  lemma {:induction false} WordIsPowerOfTwo()
    ensures PowerOfTwo(SIZE_MAX + 1)
  {
    assert Pow2(2) == 4;
    assert Pow2(4) == 16;
    Pow2Adds(4, 4);
    assert Pow2(8) == 0x100;
    Pow2Adds(8, 8);
    assert Pow2(16) == 0x1_0000;
    Pow2Adds(16, 16);
    assert Pow2(32) == 0x1_0000_0000;
    Pow2Adds(32, 32);
    assert Pow2(64) == SIZE_MAX + 1;
  }

  /** Computing the aligned offset never leaves the address space, so size_t never wraps. */
  lemma {:induction false} AlignedOffsetDoesNotWrap(c: Chunk, alignment: Size)
    requires 0 < c.address && c.address + c.used <= SIZE_MAX && PowerOfTwo(alignment)
    ensures alignment > 0 && c.AlignedOffset(alignment) <= SIZE_MAX
  {
    WordIsPowerOfTwo();
    PowersDivide(alignment, SIZE_MAX + 1);
    RoundUpLeast(c.address + c.used, alignment, SIZE_MAX + 1);
  }

  lemma {:induction false} TakeFrom(c: Chunk, size: nat, alignment: nat)
    requires ChunkOk(c) && size > 0 && alignment > 0 && FitsIn(c, size, alignment)
    ensures var b, after := BlockFrom(c, size, alignment), Taken(c, size, alignment);
      && ChunkOk(after) && Holds(after, b) && Zeroed(after, b)
      && Divides(alignment, b.address) && c.address + c.used <= b.address
  {
    RoundUpDivides(c.address + c.used, alignment);
  }

  lemma {:induction false} NewChunkFits(c: Chunk, size: nat, alignment: nat)
    requires alignment > 0 && c.used == 0 && c.Capacity() >= size + alignment
    ensures FitsIn(c, size, alignment)
  {
  }

  /** An aligned address behind the used bytes with room for the block. */
  ghost predicate Place(c: Chunk, size: nat, alignment: nat, a: nat)
    requires alignment > 0
  {
    c.address + c.used <= a && Divides(alignment, a) && a + size <= c.address + c.Capacity()
  }

  /** A request fits exactly when it has a place, and takes the lowest one. */
  lemma {:induction false} TakesLowestPlace(c: Chunk, size: nat, alignment: nat)
    requires alignment > 0
    ensures FitsIn(c, size, alignment) <==> exists a: nat :: Place(c, size, alignment, a)
    ensures FitsIn(c, size, alignment) ==>
      && Place(c, size, alignment, BlockFrom(c, size, alignment).address)
      && Taken(c, size, alignment).used + c.address == BlockFrom(c, size, alignment).address + size
    ensures forall a: nat :: Place(c, size, alignment, a) ==> BlockFrom(c, size, alignment).address <= a
  {
    var lowest := RoundUp(c.address + c.used, alignment);
    RoundUpDivides(c.address + c.used, alignment);
    assert BlockFrom(c, size, alignment).address == lowest;
    forall a: nat | Place(c, size, alignment, a) ensures lowest <= a {
      RoundUpLeast(c.address + c.used, alignment, a);
    }
    assert FitsIn(c, size, alignment) ==> Place(c, size, alignment, lowest);
  }

  /** A new chunk has 4096 bytes, or what a larger request needs wherever the chunk lies. */
  lemma {:induction false} NewChunkIsLeast(size: nat, alignment: nat)
    ensures NewCapacity(size, alignment) >= 4096 && NewCapacity(size, alignment) >= size + alignment
    ensures NewCapacity(size, alignment) == 4096 || NewCapacity(size, alignment) == size + alignment
  {
  }

  function Fresh(address: nat, capacity: nat): Chunk {
    Chunk(address, seq(capacity, _ => 0), 0)
  }

  /** The chunk is still there, with at least as much of it used. */
  ghost predicate Grown(before: Chunk, after: Chunk) {
    after.address == before.address && before.used <= after.used
  }

  /** Blocks stay valid while chunks grow, and a block behind every used byte is new. */
  lemma {:induction false} BlocksExtend(chunks: seq<Chunk>, blocks: seq<Block>, after: seq<Chunk>, b: Block)
    requires BlocksOk(chunks, blocks) && BlockOk(after, b)
    requires forall i :: 0 <= i < |chunks| ==> exists j :: 0 <= j < |after| && Grown(chunks[i], after[j])
    requires forall i :: 0 <= i < |chunks| ==>
      Disjoint(chunks[i].address, chunks[i].used, b.address, b.size)
    ensures BlocksOk(after, blocks + [b])
  {
    var more := blocks + [b];
    forall i | 0 <= i < |blocks|
      ensures BlockOk(after, blocks[i]) && Disjoint(blocks[i].address, blocks[i].size, b.address, b.size)
    {
      assert BlockOk(chunks, blocks[i]);
      var h :| 0 <= h < |chunks| && Holds(chunks[h], blocks[i]);
      var j :| 0 <= j < |after| && Grown(chunks[h], after[j]);
      assert Holds(after[j], blocks[i]);
    }
  }

  /** Serving a request from the newest chunk keeps everything in order. */
  lemma {:induction false} TakeFromNewest(chunks: seq<Chunk>, blocks: seq<Block>, size: nat, alignment: nat)
    requires ChunksOk(chunks) && BlocksOk(chunks, blocks) && chunks != []
    requires size > 0 && alignment > 0 && FitsIn(chunks[0], size, alignment)
    ensures var after, b := chunks[0 := Taken(chunks[0], size, alignment)], BlockFrom(chunks[0], size, alignment);
      ChunksOk(after) && BlocksOk(after, blocks + [b]) && Zeroed(after[0], b)
  {
    var head := chunks[0];
    var b := BlockFrom(head, size, alignment);
    var after := chunks[0 := Taken(head, size, alignment)];
    TakeFrom(head, size, alignment);
    assert after[0] == Taken(head, size, alignment) && after[1..] == chunks[1..];
    NewestStaysApart(chunks, after);
    assert BlockOk(after, b) by {
      assert Holds(after[0], b);
    }
    forall i | 0 <= i < |chunks|
      ensures exists j :: 0 <= j < |after| && Grown(chunks[i], after[j])
      ensures Disjoint(chunks[i].address, chunks[i].used, b.address, b.size)
    {
      assert Grown(chunks[i], after[i]);
      if i > 0 {
        ApartFromNewest(chunks, i, after[0], b);
      }
    }
    BlocksExtend(chunks, blocks, after, b);
  }

  lemma {:induction false} NewestStaysApart(chunks: seq<Chunk>, after: seq<Chunk>)
    requires ChunksOk(chunks) && |after| == |chunks| > 0 && after[1..] == chunks[1..]
    requires ChunkOk(after[0]) && after[0].address == chunks[0].address && after[0].Capacity() == chunks[0].Capacity()
    ensures ChunksOk(after)
  {
    assert forall i :: 0 < i < |chunks| ==> after[i] == after[1..][i - 1] == chunks[i];
  }

  lemma {:induction false} ApartFromNewest(chunks: seq<Chunk>, i: nat, newest: Chunk, b: Block)
    requires ChunksOk(chunks) && 0 < i < |chunks| && Holds(newest, b) && ChunkOk(newest)
    requires newest.address == chunks[0].address && newest.Capacity() == chunks[0].Capacity()
    ensures Disjoint(chunks[i].address, chunks[i].used, b.address, b.size)
  {
    assert ChunkOk(chunks[i]);
    assert Disjoint(chunks[0].address, chunks[0].Capacity(), chunks[i].address, chunks[i].Capacity());
  }

  /** The bytes of a chunk, wherever it is in the list. */
  ghost predicate SameBytes(before: Chunk, after: Chunk) {
    after.address == before.address && after.bytes == before.bytes
  }

  ghost predicate StillThere(before: Chunk, chunks: seq<Chunk>) {
    exists j :: 0 <= j < |chunks| && SameBytes(before, chunks[j])
  }

  /** The chunk after a byte of its used part has been written. */
  function WithByte(c: Chunk, address: nat, value: Byte): Chunk
    requires c.address <= address < c.address + c.used && c.used <= c.Capacity()
  {
    c.(bytes := c.bytes[address - c.address := value])
  }

  /** Of a chunk, the byte at the address now has the value and everything else is as before. */
  ghost predicate ByteWritten(before: Chunk, after: Chunk, address: nat, value: Byte) {
    && after.address == before.address && after.used == before.used && |after.bytes| == |before.bytes|
    && forall q :: 0 <= q < |after.bytes| ==>
      after.bytes[q] == if after.address + q == address then value else before.bytes[q]
  }

  lemma {:induction false} WriteKeepsChunks(chunks: seq<Chunk>, i: nat, address: nat, value: Byte)
    requires ChunksOk(chunks) && i < |chunks|
    requires chunks[i].address <= address < chunks[i].address + chunks[i].used
    ensures chunks[i].used <= chunks[i].Capacity()
    ensures ChunksOk(chunks[i := WithByte(chunks[i], address, value)])
  {
    assert ChunkOk(chunks[i]);
    var after := chunks[i := WithByte(chunks[i], address, value)];
    forall j | 0 <= j < |after|
      ensures ChunkOk(after[j]) && after[j].address == chunks[j].address && after[j].Capacity() == chunks[j].Capacity()
    {
      assert ChunkOk(chunks[j]);
    }
  }

  lemma {:induction false} WriteKeepsBlocks(chunks: seq<Chunk>, blocks: seq<Block>, i: nat, address: nat, value: Byte)
    requires BlocksOk(chunks, blocks) && i < |chunks| && chunks[i].used <= chunks[i].Capacity()
    requires chunks[i].address <= address < chunks[i].address + chunks[i].used
    ensures BlocksOk(chunks[i := WithByte(chunks[i], address, value)], blocks)
  {
    hide Divides, Disjoint;
    var after := chunks[i := WithByte(chunks[i], address, value)];
    forall j | 0 <= j < |blocks| ensures BlockOk(after, blocks[j]) {
      assert BlockOk(chunks, blocks[j]);
      var m :| 0 <= m < |chunks| && Holds(chunks[m], blocks[j]);
      assert Holds(after[m], blocks[j]);
    }
  }

  /** Chunks are disjoint, so only one of them has the address. */
  lemma {:induction false} WriteIsSeen(chunks: seq<Chunk>, i: nat, address: nat, value: Byte)
    requires ChunksOk(chunks) && i < |chunks| && chunks[i].used <= chunks[i].Capacity()
    requires chunks[i].address <= address < chunks[i].address + chunks[i].used
    ensures var after := chunks[i := WithByte(chunks[i], address, value)];
      forall j :: 0 <= j < |chunks| ==> ByteWritten(chunks[j], after[j], address, value)
  {
    var after := chunks[i := WithByte(chunks[i], address, value)];
    forall j | 0 <= j < |chunks| ensures ByteWritten(chunks[j], after[j], address, value) {
      assert j < i ==> Disjoint(chunks[j].address, chunks[j].Capacity(), chunks[i].address, chunks[i].Capacity());
      assert i < j ==> Disjoint(chunks[i].address, chunks[i].Capacity(), chunks[j].address, chunks[j].Capacity());
    }
  }

  ghost predicate AllStillThere(before: seq<Chunk>, chunks: seq<Chunk>) {
    forall i :: 0 <= i < |before| ==> StillThere(before[i], chunks)
  }

  lemma {:induction false} TakenStillThere(before: seq<Chunk>, head: Chunk)
    requires before != [] && SameBytes(before[0], head)
    ensures AllStillThere(before, before[0 := head])
  {
    forall i | 0 <= i < |before| ensures StillThere(before[i], before[0 := head]) {
      assert SameBytes(before[i], before[0 := head][i]);
    }
  }

  lemma {:induction false} AddedStillThere(before: seq<Chunk>, head: Chunk)
    ensures AllStillThere(before, [head] + before)
  {
    var after := [head] + before;
    forall i | 0 <= i < |before| ensures StillThere(before[i], after) {
      assert SameBytes(before[i], after[i + 1]);
    }
  }

  class Arena {
    /** Newest first. */
    var chunks: seq<Chunk>

    /** Every block ever returned. */
    ghost var blocks: seq<Block>

    ghost predicate Valid()
      reads this
    {
      ChunksOk(chunks) && BlocksOk(chunks, blocks)
    }

    constructor ()
      ensures Valid() && chunks == [] && blocks == []
    {
      chunks, blocks := [], [];
    }

    /** Serves a request from the newest chunk, which has room for it. */
    method TakeFromHead(size: nat, alignment: nat) returns (b: Block)
      requires Valid() && chunks != [] && size > 0 && alignment > 0 && FitsIn(chunks[0], size, alignment)
      modifies this
      ensures Valid() && blocks == old(blocks) + [b]
      ensures chunks == old(chunks)[0 := Taken(old(chunks)[0], size, alignment)]
      ensures b == BlockFrom(old(chunks)[0], size, alignment) && Zeroed(chunks[0], b)
    {
      TakeFromNewest(chunks, blocks, size, alignment);
      b := BlockFrom(chunks[0], size, alignment);
      chunks := chunks[0 := Taken(chunks[0], size, alignment)];
      blocks := blocks + [b];
    }

    /** Puts a zero-filled chunk in front. */
    method AddChunk(address: nat, capacity: nat)
      requires Valid() && Obtainable(chunks, Some(address), capacity)
      modifies this
      ensures Valid() && blocks == old(blocks)
      ensures chunks == [Fresh(address, capacity)] + old(chunks)
    {
      var newest := Fresh(address, capacity);
      ghost var before := chunks;
      chunks := [newest] + chunks;
      forall i | 0 <= i < |blocks| ensures BlockOk(chunks, blocks[i]) {
        assert BlockOk(before, blocks[i]);
        var h :| 0 <= h < |before| && Holds(before[h], blocks[i]);
        assert chunks[h + 1] == before[h];
      }
    }

    /**
     Returns an aligned zero-filled block. The request fails only on illegal arguments,
     on a size beyond size_t, or when calloc fails: with a new chunk it always succeeds.
     */
    method Allocate(size: Size, alignment: Size, supply: Option<nat>) returns (r: Option<Block>)
      requires Valid() && Obtainable(chunks, supply, NewCapacity(size, alignment))
      modifies this
      ensures Valid()
      ensures var legal := size > 0 && PowerOfTwo(alignment);
        r.Some? <==> legal && ((old(chunks) != [] && FitsIn(old(chunks)[0], size, alignment))
                               || (size + alignment <= SIZE_MAX && supply.Some?))
      ensures r.None? ==> unchanged(this)
      ensures r.Some? ==>
        && blocks == old(blocks) + [r.value] && r.value.size == size && r.value.alignment == alignment
        && chunks != [] && Zeroed(chunks[0], r.value)
      ensures r.Some? ==>
        if old(chunks) != [] && FitsIn(old(chunks)[0], size, alignment) then
          && chunks == old(chunks)[0 := Taken(old(chunks)[0], size, alignment)]
          && r.value == BlockFrom(old(chunks)[0], size, alignment)
        else
          && chunks == [Taken(Fresh(supply.value, NewCapacity(size, alignment)), size, alignment)] + old(chunks)
          && r.value == BlockFrom(Fresh(supply.value, NewCapacity(size, alignment)), size, alignment)
      ensures AllStillThere(old(chunks), chunks)
    {
      IsPowerOfTwoExact(alignment);
      if chunks != [] {
        TakenStillThere(chunks, chunks[0]);
      }
      if size == 0 || !IsPowerOfTwo(alignment) {
        return None;
      }
      if chunks != [] {
        AlignedOffsetDoesNotWrap(chunks[0], alignment);
        if FitsIn(chunks[0], size, alignment) {
          TakenStillThere(chunks, Taken(chunks[0], size, alignment));
          var b := TakeFromHead(size, alignment);
          return Some(b);
        }
      }
      if size > SIZE_MAX - alignment || supply.None? {
        return None;
      }
      var b := TakeFromNewChunk(size, alignment, supply.value);
      return Some(b);
    }

    /** Serves a request from a chunk obtained for it, which always has room. */
    method TakeFromNewChunk(size: Size, alignment: Size, address: nat) returns (b: Block)
      requires Valid() && size > 0 && PowerOfTwo(alignment) && size + alignment <= SIZE_MAX
      requires Obtainable(chunks, Some(address), NewCapacity(size, alignment))
      modifies this
      ensures Valid() && blocks == old(blocks) + [b]
      ensures var newest := Fresh(address, NewCapacity(size, alignment));
        && b == BlockFrom(newest, size, alignment)
        && chunks == [Taken(newest, size, alignment)] + old(chunks) && Zeroed(chunks[0], b)
      ensures AllStillThere(old(chunks), chunks)
    {
      hide BlocksOk, Zeroed, Padding;
      AddChunk(address, NewCapacity(size, alignment));
      NewChunkFits(chunks[0], size, alignment);
      AlignedOffsetDoesNotWrap(chunks[0], alignment);
      AddedStillThere(old(chunks), Taken(chunks[0], size, alignment));
      assert chunks[0 := Taken(chunks[0], size, alignment)] == [Taken(chunks[0], size, alignment)] + old(chunks);
      b := TakeFromHead(size, alignment);
    }

    /** A client writes a byte of a block it owns; no other block sees it. */
    method Write(ghost owner: nat, address: nat, value: Byte)
      requires Valid() && owner < |blocks|
      requires blocks[owner].address <= address < blocks[owner].address + blocks[owner].size
      modifies this
      ensures Valid() && blocks == old(blocks)
      ensures |chunks| == |old(chunks)|
      ensures forall i :: 0 <= i < |chunks| ==> ByteWritten(old(chunks)[i], chunks[i], address, value)
    {
      assert BlockOk(chunks, blocks[owner]);
      ghost var h :| 0 <= h < |chunks| && Holds(chunks[h], blocks[owner]);
      var i := 0;
      while !(chunks[i].address <= address < chunks[i].address + chunks[i].used)
        invariant 0 <= i <= h
        decreases |chunks| - i
      {
        i := i + 1;
      }
      WriteKeepsChunks(chunks, i, address, value);
      WriteKeepsBlocks(chunks, blocks, i, address, value);
      WriteIsSeen(chunks, i, address, value);
      chunks := chunks[i := WithByte(chunks[i], address, value)];
    }
  }
}
