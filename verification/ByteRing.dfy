/** The byte ring of lcs_queue.c: a circular buffer moved in chunks that stop at the physical end. */
module ByteRing {
  import opened Bytes
  import opened SlotQueue

  const RING_BUFFER_MAX_CAPACITY := 2048

  /** The n bytes stored from position `tail` on, going around a ring of `size` bytes. */
  ghost function Stored(mem: seq<byte>, size: nat, tail: nat, n: nat): (r: seq<byte>)
    requires size <= |mem| && tail < size && n <= size
    ensures |r| == n
    ensures forall k :: 0 <= k < n ==> r[k] == mem[Wrapped(tail + k, size)]
  {
    seq(n, k requires 0 <= k < n => mem[Wrapped(tail + k, size)])
  }

  lemma ModIsWrap(x: nat, size: nat)
    requires 0 < size && x < 2 * size
    ensures x % size == Wrapped(x, size)
  {
    if x >= size { assert x == 1 * size + (x - size); }
  }

  /** Copying a chunk in behind the stored bytes, without crossing the physical end, appends it. */
  lemma ChunkAppends(mem: seq<byte>, mem': seq<byte>, size: nat, tail: nat, n: nat, chunk: seq<byte>)
    requires size <= |mem| && tail < size && n + |chunk| <= size
    requires var head := Wrapped(tail + n, size);
      head + |chunk| <= size && mem' == mem[..head] + chunk + mem[head + |chunk|..]
    ensures Stored(mem', size, tail, n + |chunk|) == Stored(mem, size, tail, n) + chunk
  {
    var head := Wrapped(tail + n, size);
    forall k | 0 <= k < n + |chunk|
      ensures Stored(mem', size, tail, n + |chunk|)[k] == (Stored(mem, size, tail, n) + chunk)[k]
    {
      var i := Wrapped(tail + k, size);
      assert k < n ==> i < head || head + |chunk| <= i;
      assert k >= n ==> i == head + (k - n);
    }
  }

  /** The bytes between two positions of the stored sequence lie next to each other in memory as long
      as the physical end is not crossed. */
  lemma ChunkIsSlice(mem: seq<byte>, size: nat, tail: nat, n: nat, from: nat, len: nat)
    requires size <= |mem| && tail < size && n <= size && from + len <= n
    requires Wrapped(tail + from, size) + len <= size
    ensures var p := Wrapped(tail + from, size);
      mem[p..p + len] == Stored(mem, size, tail, n)[from..from + len]
  {
    var p := Wrapped(tail + from, size);
    forall k | from <= k < from + len ensures mem[p + (k - from)] == Stored(mem, size, tail, n)[k] {
      assert Wrapped(tail + k, size) == p + (k - from);
    }
  }

  lemma ReadDrops(mem: seq<byte>, size: nat, tail: nat, n: nat, got: nat)
    requires size <= |mem| && tail < size && got <= n <= size
    ensures Stored(mem, size, Wrapped(tail + got, size), n - got) == Stored(mem, size, tail, n)[got..]
  {
    forall k | 0 <= k < n - got
      ensures Stored(mem, size, Wrapped(tail + got, size), n - got)[k] == Stored(mem, size, tail, n)[got..][k]
    {
      assert Wrapped(Wrapped(tail + got, size) + k, size) == Wrapped(tail + (got + k), size);
    }
  }

  class RingBuffer {
    const data: array<byte>
    var size: nat
    var head: nat
    var tail: nat
    var count: nat

    ghost predicate Valid()
      reads this
    {
      && data.Length == RING_BUFFER_MAX_CAPACITY
      && 0 < size <= data.Length
      && tail < size
      && count <= size
      && head == Wrapped(tail + count, size)
    }

    /** The bytes written and not yet read, oldest first. */
    ghost function Contents(): seq<byte>
      requires Valid()
      reads this, data
    {
      Stored(data[..], size, tail, count)
    }

    constructor ()
      ensures data.Length == RING_BUFFER_MAX_CAPACITY && fresh(data)
    {
      data := new byte[RING_BUFFER_MAX_CAPACITY](_ => 0);
      size, head, tail, count := 0, 0, 0, 0;
    }

    /** `RingBufferInit`. */
    method Init(capacity: nat) returns (ok: bool)
      requires data.Length == RING_BUFFER_MAX_CAPACITY
      modifies this
      ensures ok <==> 0 < capacity <= RING_BUFFER_MAX_CAPACITY
      ensures ok ==> Valid() && size == capacity && Contents() == []
      ensures !ok ==> unchanged(this)
    {
      if capacity == 0 || capacity > RING_BUFFER_MAX_CAPACITY { return false; }
      size := capacity;
      head, tail, count := 0, 0, 0;
      ok := true;
    }

    /** One turn of the write loop: a chunk that ends before the physical end. */
    method PutChunk(chunk: seq<byte>)
      requires Valid() && count + |chunk| <= size && head + |chunk| <= size
      modifies this`head, this`count, data
      ensures Valid() && size == old(size) && tail == old(tail) && count == old(count) + |chunk|
      ensures Contents() == old(Contents()) + chunk
    {
      ghost var mem := data[..];
      CopyIn(data, head, chunk);
      assert data[..] == mem[..head] + chunk + mem[head + |chunk|..];
      ChunkAppends(mem, data[..], size, tail, count, chunk);
      ModIsWrap(head + |chunk|, size);
      head := (head + |chunk|) % size;
      count := count + |chunk|;
    }

    /** `RingBufferWrite`: appends the longest prefix that fits, in at most two chunks. A null source
        is the empty sequence. */
    method Write(src: seq<byte>) returns (written: nat)
      requires Valid()
      modifies this`head, this`count, data
      ensures Valid() && size == old(size)
      ensures written == Min(|src|, size - old(count))
      ensures Contents() == old(Contents()) + src[..written]
    {
      if src == [] { return 0; }
      var toWrite := Min(|src|, size - count);
      written := 0;
      while written < toWrite
        invariant Valid() && size == old(size) && written <= toWrite && count == old(count) + written
        invariant Contents() == old(Contents()) + src[..written]
        decreases toWrite - written
      {
        var spaceEnd := size - head;
        var chunk := Min(toWrite - written, spaceEnd);
        PutChunk(src[written..written + chunk]);
        assert src[..written + chunk] == src[..written] + src[written..written + chunk];
        written := written + chunk;
      }
    }

    /** One turn of the peek loop: the bytes up to the physical end, or as many as are still asked for. */
    method TakeChunk(got: seq<byte>, pos: nat, toRead: nat) returns (dst: seq<byte>, chunk: nat)
      requires Valid() && |got| < toRead <= count && pos == Wrapped(tail + |got|, size) && got == Contents()[..|got|]
      ensures 0 < chunk <= size - pos && chunk <= toRead - |got|
      ensures |dst| == |got| + chunk && dst == Contents()[..|dst|]
    {
      var availEnd := size - pos;
      chunk := Min(toRead - |got|, availEnd);
      ChunkIsSlice(data[..], size, tail, count, |got|, chunk);
      dst := got + data[..][pos..pos + chunk];
    }

    /** `RingBufferPeek`: hands out the oldest bytes, chunk by chunk, and changes nothing. */
    method Peek(len: nat) returns (dst: seq<byte>)
      requires Valid()
      ensures |dst| == Min(len, count)
      ensures dst == Contents()[..|dst|]
    {
      dst := [];
      if len == 0 { return; }
      var toRead := Min(len, count);
      var pos := tail;
      while |dst| < toRead
        invariant |dst| <= toRead && pos == Wrapped(tail + |dst|, size)
        invariant dst == Contents()[..|dst|]
        decreases toRead - |dst|
      {
        var chunk;
        dst, chunk := TakeChunk(dst, pos, toRead);
        ModIsWrap(pos + chunk, size);
        pos := (pos + chunk) % size;
      }
    }

    /** `RingBufferRead`: hands out the oldest bytes and removes exactly those. */
    method Read(len: nat) returns (dst: seq<byte>)
      requires Valid()
      modifies this`tail, this`count
      ensures Valid() && size == old(size)
      ensures |dst| == Min(len, old(count))
      ensures old(Contents()) == dst + Contents()
    {
      dst := [];
      if len == 0 { return; }
      dst := Peek(len);
      ReadDrops(data[..], size, tail, count, |dst|);
      ModIsWrap(tail + |dst|, size);
      tail := (tail + |dst|) % size;
      count := count - |dst|;
    }
  }
}
