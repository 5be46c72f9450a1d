// Handlers/PinnedMemoryBuffer and Handlers/PinnedMemoryBufferPool: a bag of
// reusable pixel buffers. Renting takes any buffer from the bag (or makes a
// new one), returning clears the pixels and puts the buffer back.

module BufferPool {

  /** A pixel buffer of ImageInfo.BytesSize bytes, pinned while not disposed. */
  class PinnedMemoryBuffer {
    const bytes: array<bv8>
    var disposed: bool

    /** A new buffer: `new byte[bytesSize]`, every byte zero. */
    constructor (bytesSize: nat)
      ensures bytes.Length == bytesSize && fresh(bytes)
      ensures forall k :: 0 <= k < bytes.Length ==> bytes[k] == 0
      ensures !disposed
    {
      bytes := new bv8[bytesSize](_ => 0);
      disposed := false;
    }

    /** Dispose: releases the canvas, the bitmap and the pin; the bytes stay as they are. */
    method Dispose()
      modifies this
      ensures disposed
    {
      disposed := true;
    }
  }

  /** The buffers of a fresh allocation: right size and all zero. */
  ghost predicate Blank(b: PinnedMemoryBuffer, bytesSize: nat)
    reads b, b.bytes
  {
    !b.disposed && b.bytes.Length == bytesSize && forall k :: 0 <= k < b.bytes.Length ==> b.bytes[k] == 0
  }

  class PinnedMemoryBufferPool {
    /** The ConcurrentBag: an unordered collection, so a multiset. */
    var pool: multiset<PinnedMemoryBuffer>
    /** ImageInfo.BytesSize of the image layout every new buffer gets. */
    const bytesSize: nat

    /** The constructor allocates initialSize buffers (none when initialSize <= 0). */
    constructor (bytesSize: nat, initialSize: int)
      ensures this.bytesSize == bytesSize
      ensures |pool| == if initialSize < 0 then 0 else initialSize
      ensures forall b :: b in pool ==> fresh(b) && fresh(b.bytes) && pool[b] == 1 && Blank(b, bytesSize)
    {
      this.bytesSize := bytesSize;
      pool := multiset{};
      new;
      var i := 0;
      while i < initialSize
        invariant i == 0 || i <= initialSize
        invariant |pool| == i && this.bytesSize == bytesSize
        invariant forall b :: b in pool ==> fresh(b) && fresh(b.bytes) && pool[b] == 1 && Blank(b, bytesSize)
      {
        var b := new PinnedMemoryBuffer(bytesSize);
        pool := pool + multiset{b};
        i := i + 1;
      }
    }

    /**
     * Rent: TryTake hands out some buffer of the bag, and the bag loses that
     * one; when the bag is empty a new buffer is made and the bag stays empty.
     */
    method Rent() returns (b: PinnedMemoryBuffer)
      modifies this
      ensures old(pool) != multiset{} ==> b in old(pool) && pool == old(pool) - multiset{b}
      ensures old(pool) == multiset{} ==> fresh(b) && fresh(b.bytes) && Blank(b, bytesSize) && pool == multiset{}
    {
      if pool != multiset{} {
        b :| b in pool;
        pool := pool - multiset{b};
      } else {
        b := new PinnedMemoryBuffer(bytesSize);
      }
    }

    /**
     * Return: erases the bitmap to transparent black (every byte 0), then adds
     * the buffer to the bag, which grows by one.
     */
    method Return(b: PinnedMemoryBuffer)
      modifies this, b.bytes
      ensures pool == old(pool) + multiset{b}
      ensures forall k :: 0 <= k < b.bytes.Length ==> b.bytes[k] == 0
    {
      var k := 0;
      while k < b.bytes.Length
        invariant 0 <= k <= b.bytes.Length
        invariant forall j :: 0 <= j < k ==> b.bytes[j] == 0
        invariant pool == old(pool)
      {
        b.bytes[k] := 0;
        k := k + 1;
      }
      pool := pool + multiset{b};
    }

    /** Dispose: takes every buffer out of the bag and disposes it; the bag ends empty. */
    method Dispose()
      modifies this, pool
      ensures pool == multiset{}
      ensures forall b :: b in old(pool) ==> b.disposed
    {
      ghost var taken: multiset<PinnedMemoryBuffer> := multiset{};
      while pool != multiset{}
        invariant taken + pool == old(pool)
        invariant forall b :: b in taken ==> b.disposed
        decreases |pool|
      {
        var b :| b in pool;
        pool := pool - multiset{b};
        b.Dispose();
        taken := taken + multiset{b};
      }
    }
  }
}
