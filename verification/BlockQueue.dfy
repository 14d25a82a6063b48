/** FilterWithBufferedInput::BlockQueue: a ring buffer of blocks. */
module BlockQueues {
  import opened Arithmetic
  import opened Bytes

  /** The n elements of a ring that start at position b. */
  ghost function Ring(s: seq<byte>, b: nat, n: nat): (r: seq<byte>)
    requires n <= |s| && (b < |s| || b == 0)
    ensures |r| == n
  {
    if b + n <= |s| then s[b..b + n] else s[b..] + s[..b + n - |s|]
  }

  function Wrap(i: nat, n: nat): int { if i < n then i else i - n }

  lemma RingIndex(s: seq<byte>, b: nat, n: nat, i: nat)
    requires n <= |s| && (b < |s| || b == 0) && i < n
    ensures 0 <= Wrap(b + i, |s|) < |s| && Ring(s, b, n)[i] == s[Wrap(b + i, |s|)]
  {
  }

  /** Taking k contiguous elements from the front leaves the rest of the ring. */
  lemma RingDrop(s: seq<byte>, b: nat, n: nat, k: nat, b': nat)
    requires n <= |s| && (b < |s| || b == 0) && k <= n && b + k <= |s|
    requires b' == (if b + k == |s| then 0 else b + k) || (b' == 0 && n == k)
    ensures Ring(s, b, n) == s[b..b + k] + Ring(s, b', n - k)
  {
    hide Ring;
    var r, r' := Ring(s, b, n), s[b..b + k] + Ring(s, b', n - k);
    forall i | 0 <= i < n ensures r[i] == r'[i] {
      RingIndex(s, b, n, i);
      if i >= k { RingIndex(s, b', n - k, i - k); }
    }
  }

  /** The buffer holds maxBlocks blocks, and begin is at the start of one. */
  ghost predicate WholeBlocks(length: nat, begin: nat, blockSize: nat, maxBlocks: nat) {
    blockSize >= 1 && length == blockSize * maxBlocks && begin % blockSize == 0
  }

  lemma WholeBuffer(length: nat, begin: nat, blockSize: nat, maxBlocks: nat)
    requires WholeBlocks(length, begin, blockSize, maxBlocks)
    ensures length == maxBlocks * blockSize && length % blockSize == 0
  {
    DivModUnique(length, blockSize, maxBlocks, 0);
  }

  /** Whole blocks further on, the position is still at a block. */
  lemma BlocksOn(length: nat, begin: nat, k: nat, blockSize: nat, maxBlocks: nat)
    requires WholeBlocks(length, begin, blockSize, maxBlocks) && k % blockSize == 0
    ensures WholeBlocks(length, begin + k, blockSize, maxBlocks) && WholeBlocks(length, 0, blockSize, maxBlocks)
  {
    DivMod(k, blockSize);
    ModAddMultiple(begin, k / blockSize, blockSize);
    DivModUnique(0, blockSize, 0, 0);
  }

  /** The buffer after writing input at end, in one piece or wrapped around in two. */
  ghost function Written(s: seq<byte>, end: nat, input: seq<byte>): (u: seq<byte>)
    requires end <= |s| && |input| <= |s|
    ensures |u| == |s|
  {
    var len := Min(|input|, |s| - end);
    input[len..] + s[|input| - len..end] + input[..len] + s[end + len..]
  }

  lemma WrittenAt(s: seq<byte>, end: nat, input: seq<byte>, at: nat)
    requires at < |s| && end <= |s| && |input| <= |s|
    ensures Written(s, end, input)[at] ==
            if end <= at < end + |input| then input[at - end]
            else if at + |s| < end + |input| then input[at + |s| - end]
            else s[at]
  {
  }

  /** Writing behind the last element appends. */
  lemma RingAppend(s: seq<byte>, b: nat, n: nat, input: seq<byte>, end: nat)
    requires (b < |s| || b == 0) && n + |input| <= |s| && |input| > 0
    requires end == Wrap(b + n, |s|)
    ensures Ring(Written(s, end, input), b, n + |input|) == Ring(s, b, n) + input
  {
    hide Ring, Written;
    var u := Written(s, end, input);
    var r, r' := Ring(s, b, n) + input, Ring(u, b, n + |input|);
    forall i | 0 <= i < n + |input| ensures r'[i] == r[i] {
      RingIndex(u, b, n + |input|, i);
      if i < n { RingIndex(s, b, n, i); }
      WrittenAt(s, end, input, Wrap(b + i, |s|));
    }
  }

  class BlockQueue {
    var buffer: array<byte>
    var blockSize: nat
    var maxBlocks: nat
    var size: nat
    var begin: nat

    ghost predicate Valid()
      reads this
    {
      && blockSize >= 1
      && size <= buffer.Length
      && (begin < buffer.Length || begin == 0)
      && WholeBlocks(buffer.Length, begin, blockSize, maxBlocks)
    }

    /** The queued bytes, oldest first. */
    ghost function Contents(): (s: seq<byte>)
      requires Valid()
      reads this, buffer
      ensures |s| == size
    {
      Ring(buffer[..], begin, size)
    }

    constructor (blockSize: nat, maxBlocks: nat)
      requires blockSize >= 1
      ensures Valid() && fresh(buffer) && Contents() == [] && begin == 0
      ensures this.blockSize == blockSize && this.maxBlocks == maxBlocks
      ensures buffer.Length == blockSize * maxBlocks
    {
      buffer := new byte[blockSize * maxBlocks];
      this.blockSize := blockSize;
      this.maxBlocks := maxBlocks;
      size := 0;
      begin := 0;
    }

    method ResetQueue(blockSize: nat, maxBlocks: nat)
      requires blockSize >= 1
      modifies this
      ensures Valid() && fresh(buffer) && Contents() == [] && begin == 0
      ensures this.blockSize == blockSize && this.maxBlocks == maxBlocks
      ensures buffer.Length == blockSize * maxBlocks
    {
      buffer := new byte[blockSize * maxBlocks];
      this.blockSize := blockSize;
      this.maxBlocks := maxBlocks;
      size := 0;
      begin := 0;
    }

    /** Take one block; it never wraps around the end of the buffer. */
    method GetBlock() returns (found: bool, block: seq<byte>)
      requires Valid()
      modifies this`begin, this`size
      ensures Valid()
      ensures found == (old(size) >= blockSize)
      ensures found ==> |block| == blockSize && old(Contents()) == block + Contents()
      ensures !found ==> block == [] && Contents() == old(Contents())
    {
      if size >= blockSize {
        assert WholeBlocks(buffer.Length, 0, blockSize, maxBlocks);
        hide WholeBlocks;
        BlockFits(buffer.Length, begin, blockSize, maxBlocks);
        block := buffer[begin..begin + blockSize];
        RingDrop(buffer[..], begin, size, blockSize, if begin + blockSize == buffer.Length then 0 else begin + blockSize);
        begin := begin + blockSize;
        if begin == buffer.Length {
          begin := 0;
        }
        size := size - blockSize;
        found := true;
      } else {
        found, block := false, [];
      }
    }

    /** Take as many bytes as are wanted, queued and contiguous. */
    method GetContigousBlocks(wanted: nat) returns (block: seq<byte>)
      requires Valid() && wanted % blockSize == 0
      modifies this`begin, this`size
      ensures Valid()
      ensures old(Contents()) == block + Contents()
      ensures |block| == Min(wanted, Min(buffer.Length - old(begin), old(size)))
      ensures wanted > 0 && old(size) > 0 ==> |block| > 0
      ensures old(begin) == 0 && wanted >= old(size) ==> |block| == old(size)
      ensures wanted >= buffer.Length ==> begin == 0
    {
      hide WholeBlocks, Ring;
      var numberOfBytes := Min(wanted, Min(buffer.Length - begin, size));
      ghost var s, b, n := buffer[..], begin, size;
      block := buffer[begin..begin + numberOfBytes];
      BlocksOn(buffer.Length, begin, wanted, blockSize, maxBlocks);
      begin := begin + numberOfBytes;
      size := size - numberOfBytes;
      if size == 0 || begin == buffer.Length {
        begin := 0;
      }
      RingDrop(s, b, n, numberOfBytes, begin);
      assert buffer[..] == s && block == s[b..b + numberOfBytes];
    }

    /** Take everything: up to the end of the buffer, and what wraps around. */
    method GetAll() returns (all: seq<byte>)
      requires Valid()
      modifies this`begin, this`size
      ensures Valid() && all == old(Contents()) && Contents() == []
    {
      WholeBuffer(buffer.Length, begin, blockSize, maxBlocks);
      hide WholeBlocks;
      var first := GetContigousBlocks(maxBlocks * blockSize);
      assert Contents() == buffer[..size];
      all := first + buffer[..size];
      size := 0;
    }

    /** Append bytes that fit, wrapping around the end of the buffer if need be. */
    method Put(input: seq<byte>)
      requires Valid() && size + |input| <= buffer.Length
      modifies this`size, buffer
      ensures Valid() && Contents() == old(Contents()) + input
    {
      if |input| == 0 { return; }
      hide WholeBlocks, Ring, Written;
      var end := if size < buffer.Length - begin then begin + size else begin + size - buffer.Length;
      RingAppend(buffer[..], begin, size, input, end);
      CopyWrapped(buffer, end, input);
      size := size + |input|;
    }
  }

  /** A block starting at a multiple of the block size, inside the buffer, ends inside it. */
  lemma BlockFits(length: nat, begin: nat, blockSize: nat, maxBlocks: nat)
    requires WholeBlocks(length, begin, blockSize, maxBlocks) && begin < length
    ensures begin + blockSize <= length
    ensures WholeBlocks(length, begin + blockSize, blockSize, maxBlocks)
  {
    DivMod(begin, blockSize);
    var k := begin / blockSize;
    if k >= maxBlocks { MulMono(maxBlocks, k, blockSize); }
    MulMono(k + 1, maxBlocks, blockSize);
    assert (k + 1) * blockSize == k * blockSize + blockSize;
    ModAddMultiple(begin, 1, blockSize);
  }

  /** memcpy. */
  method CopyIn(a: array<byte>, at: nat, s: seq<byte>)
    requires at + |s| <= a.Length
    modifies a
    ensures a[..] == old(a[..])[..at] + s + old(a[..])[at + |s|..]
  {
    ghost var before := a[..];
    for i := 0 to |s|
      invariant a[..] == before[..at] + s[..i] + before[at + i..]
    {
      a[at + i] := s[i];
    }
    assert s[..|s|] == s;
  }

  lemma AppendThree(a: seq<byte>, b: seq<byte>, c: seq<byte>, d: seq<byte>)
    ensures a + (b + c + d) == a + b + c + d
  {}

  lemma TwoCopies(s: seq<byte>, t: seq<byte>, u: seq<byte>, end: nat, input: seq<byte>, len: nat)
    requires end <= |s| && |input| <= |s| && len == Min(|input|, |s| - end)
    requires t == s[..end] + input[..len] + s[end + len..]
    requires u == if len < |input| then input[len..] + t[|input| - len..] else t
    ensures u == Written(s, end, input)
  {
    var k := |input| - len;
    if len < |input| {
      assert t[k..] == s[k..end] + input[..len] + s[end + len..];
      AppendThree(input[len..], s[k..end], input[..len], s[end + len..]);
    } else {
      assert input[len..] == [] && s[0..end] == s[..end];
    }
  }

  /** The two calls of memcpy in Put. */
  method CopyWrapped(a: array<byte>, end: nat, input: seq<byte>)
    requires end <= a.Length && |input| <= a.Length
    modifies a
    ensures a[..] == Written(old(a[..]), end, input)
  {
    ghost var s := a[..];
    var len := Min(|input|, a.Length - end);
    CopyIn(a, end, input[..len]);
    ghost var t := a[..];
    if len < |input| {
      CopyIn(a, 0, input[len..]);
    }
    hide Written;
    assert len < |input| ==> t[..0] + input[len..] == input[len..];
    TwoCopies(s, t, a[..], end, input, len);
  }
}
