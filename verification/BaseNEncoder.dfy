/** BaseN_Encoder of basecode.cpp: a filter that packs bytes into characters and can be interrupted at each output. */
module BaseNEncoding {
  import opened Arithmetic
  import opened Bytes
  import opened BitStrings
  import opened BasePacking
  import opened Sinks
  import opened Sequences

  // ---- The text for a message ------------------------------------------------------------------

  function Letter(alphabet: seq<byte>, d: nat): byte {
    if d < |alphabet| then alphabet[d] else 0
  }

  function Letters(alphabet: seq<byte>, ds: seq<nat>): (t: seq<byte>)
    ensures |t| == |ds|
  {
    seq(|ds|, i requires 0 <= i < |ds| => Letter(alphabet, ds[i]))
  }

  /** The digits of k bits that make up a message. */
  function Digits(m: seq<byte>, k: nat): seq<nat>
    requires k >= 1
  {
    Padded(Spell(m, 8), k)
  }

  /** How many places are missing to a whole number of blocks. */
  function Missing(n: nat, blockSize: nat): nat
    requires blockSize >= 1
  {
    if n % blockSize == 0 then 0 else blockSize - n % blockSize
  }

  function Repeat(b: byte, n: nat): (r: seq<byte>)
    ensures |r| == n
  {
    seq(n, _ => b)
  }

  /** The padding is -1 if there is none. */
  datatype Alphabet = Alphabet(letters: seq<byte>, bitsPerChar: nat, padding: int, blockSize: nat)
  {
    ghost predicate Valid() {
      && 1 <= bitsPerChar <= 7 && |letters| >= Pow2(bitsPerChar) && -1 <= padding < 256
      && blockSize >= 1 && Used(bitsPerChar, blockSize, 0) % 8 == 0
    }
  }

  /** The encoding of a message: its digits as letters, filled up to whole blocks if there is padding. */
  function EncodeText(m: seq<byte>, a: Alphabet): seq<byte>
    requires a.bitsPerChar >= 1 && a.blockSize >= 1 && -1 <= a.padding < 256
  {
    var ds := Digits(m, a.bitsPerChar);
    Letters(a.letters, ds) + (if a.padding == -1 then [] else Repeat(a.padding, Missing(|ds|, a.blockSize)))
  }

  lemma LettersAppend(alphabet: seq<byte>, a: seq<nat>, b: seq<nat>)
    ensures Letters(alphabet, a + b) == Letters(alphabet, a) + Letters(alphabet, b)
  {}

  lemma MissingIn(blocks: nat, r: nat, size: nat)
    requires 1 <= r <= size
    ensures Missing(blocks * size + r, size) == size - r
    ensures Missing(blocks * size, size) == 0
  {
    DivModUnique(blocks * size, size, blocks, 0);
    if r < size {
      DivModUnique(blocks * size + r, size, blocks, r);
    } else {
      assert (blocks + 1) * size == blocks * size + r;
      DivModUnique(blocks * size + r, size, blocks + 1, 0);
    }
  }

  /** n is a number of whole blocks. */
  ghost predicate InBlocks(n: nat, blocks: nat, size: nat) {
    n == blocks * size
  }

  lemma MissingAfter(n: nat, blocks: nat, r: nat, size: nat)
    requires r <= size && size >= 1 && InBlocks(n, blocks, size)
    ensures Missing(n + r, size) == if r == 0 then 0 else size - r
  {
    MissingIn(blocks, if r == 0 then 1 else r, size);
  }

  // ---- What has been done with a message so far -----------------------------------------------------

  /** The message is in whole blocks (flushed), complete digits of this block, and n bits of a last one. */
  ghost predicate Encodes(m: seq<byte>, flushed: seq<nat>, digits: seq<nat>, part: nat, n: nat, k: nat) {
    Below(flushed, Pow2(k)) && Spell(flushed, k) + Placed(digits, part, n, k) == Spell(m, 8)
  }

  lemma EncodesByte(m: seq<byte>, flushed: seq<nat>, digits: seq<nat>, part: nat, n: nat, k: nat, b: byte,
                    digits': seq<nat>, part': nat, n': nat)
    requires Encodes(m, flushed, digits, part, n, k)
    requires Placed(digits', part', n', k) == Placed(digits, part, n, k) + ToBits(b, 8)
    ensures Encodes(m + [b], flushed, digits', part', n', k)
  {
    SpellSnoc(m, b, 8);
    hide Spell, Placed, ToBits;
    AppendAssociative(Spell(flushed, k), Placed(digits, part, n, k), ToBits(b, 8));
  }

  lemma PlacedWhole(digits: seq<nat>, part: nat, k: nat)
    ensures Placed(digits, part, 0, k) == Spell(digits, k) && Placed([], part, 0, k) == []
  {
    hide Spell;
    assert Spell(digits, k) + [] == Spell(digits, k);
    SpellNone(k);
  }

  lemma BelowAppend(a: seq<nat>, b: seq<nat>, bound: nat)
    requires Below(a, bound) && Below(b, bound)
    ensures Below(a + b, bound)
  {}

  lemma EncodesFlush(m: seq<byte>, flushed: seq<nat>, digits: seq<nat>, part: nat, k: nat)
    requires Encodes(m, flushed, digits, part, 0, k) && Below(digits, Pow2(k))
    ensures Encodes(m, flushed + digits, [], 0, 0, k)
  {
    PlacedWhole(digits, part, k);
    PlacedWhole(digits, 0, k);
    SpellAppend(flushed, digits, k);
    BelowAppend(flushed, digits, Pow2(k));
    hide Spell, Placed, Below;
    assert Spell(flushed + digits, k) + [] == Spell(flushed + digits, k);
  }

  lemma EncodesDigits(m: seq<byte>, flushed: seq<nat>, digits: seq<nat>, part: nat, n: nat, k: nat)
    requires 1 <= k && n < k && part < Pow2(n) && Below(digits, Pow2(k)) && Encodes(m, flushed, digits, part, n, k)
    ensures Digits(m, k) == flushed + digits + FilledUp(part, n, k)
  {
    BelowAppend(flushed, digits, Pow2(k));
    SpellAppend(flushed, digits, k);
    hide Spell, Below, ToBits, Padded, FilledUp;
    AppendAssociative(Spell(flushed, k), Spell(digits, k), ToBits(part, n));
    PaddedOf(flushed + digits, part, n, k);
  }

  lemma EncodesNothing(k: nat)
    ensures Encodes([], [], [], 0, 0, k)
  {
    SpellNone(k);
    SpellNone(8);
    PlacedWhole([], 0, k);
  }

  lemma TextOfDigits(m: seq<byte>, a: Alphabet, flushed: seq<nat>, last: seq<nat>)
    requires a.bitsPerChar >= 1 && a.blockSize >= 1 && -1 <= a.padding < 256 && |last| <= a.blockSize
    requires Digits(m, a.bitsPerChar) == flushed + last
    requires Missing(|flushed| + |last|, a.blockSize) == if |last| == 0 then 0 else a.blockSize - |last|
    ensures EncodeText(m, a) == Letters(a.letters, flushed) + Letters(a.letters, last)
                                + (if a.padding == -1 || last == [] then [] else Repeat(a.padding, a.blockSize - |last|))
  {
    hide Digits, Letters, Missing;
    LettersAppend(a.letters, flushed, last);
    if last == [] && a.padding != -1 { assert Repeat(a.padding, 0) == []; }
  }

  /** The last block: its digits as letters, filled up with padding. */
  lemma FinalText(m: seq<byte>, a: Alphabet, flushed: seq<nat>, digits: seq<nat>, part: nat, n: nat, blocks: nat, last: seq<nat>)
    requires a.Valid() && n < a.bitsPerChar && part < Pow2(n) && Below(digits, Pow2(a.bitsPerChar))
    requires Encodes(m, flushed, digits, part, n, a.bitsPerChar)
    requires InBlocks(|flushed|, blocks, a.blockSize) && last == digits + FilledUp(part, n, a.bitsPerChar) && |last| <= a.blockSize
    ensures EncodeText(m, a) == Letters(a.letters, flushed) + Letters(a.letters, last)
                                + (if a.padding == -1 || last == [] then [] else Repeat(a.padding, a.blockSize - |last|))
  {
    hide Digits, Letters, Encodes, Below, FilledUp, Missing, Pow2, Used, InBlocks, EncodeText;
    EncodesDigits(m, flushed, digits, part, n, a.bitsPerChar);
    AppendAssociative(flushed, digits, FilledUp(part, n, a.bitsPerChar));
    MissingAfter(|flushed|, blocks, |last|, a.blockSize);
    TextOfDigits(m, a, flushed, last);
  }

  // ---- The filter ---------------------------------------------------------------------------------

  /** IsolatedInitialize: the characters for the least number of bytes that fill characters exactly. */
  method OutputBlockSize(k: nat) returns (size: nat)
    requires 1 <= k <= 7
    ensures size >= 1 && Used(k, size, 0) % 8 == 0
    ensures forall j :: 1 <= j < size ==> Used(k, j, 0) % 8 != 0
  {
    var i := 8;
    ghost var n := 1;
    while i % k != 0
      invariant 1 <= n <= k && i == 8 * n
      invariant forall j :: 1 <= j < n ==> 8 * j % k != 0
      decreases k - n
    {
      WholeMultiple(k);
      n := n + 1;
      i := i + 8;
    }
    size := i / k;
    SmallestBlock(k, n);
  }

  lemma WholeMultiple(k: nat)
    requires k >= 1
    ensures 8 * k % k == 0
  {
    DivModUnique(8 * k, k, 8, 0);
  }

  lemma SmallestBlock(k: nat, n: nat)
    requires k >= 1 && n >= 1 && 8 * n % k == 0 && forall j :: 1 <= j < n ==> 8 * j % k != 0
    ensures 8 * n / k >= 1 && Used(k, 8 * n / k, 0) == 8 * n
    ensures forall q :: 1 <= q < 8 * n / k ==> Used(k, q, 0) % 8 != 0
  {
    DivMod(8 * n, k);
    forall q | 1 <= q < 8 * n / k
      ensures Used(k, q, 0) % 8 != 0
    {
      if Used(k, q, 0) % 8 == 0 { var j := EarlierMultiple(k, n, q); }
    }
  }

  lemma EarlierMultiple(k: nat, n: nat, q: nat) returns (j: nat)
    requires k >= 1 && q >= 1 && q + 1 <= 8 * n / k && k * q % 8 == 0
    ensures 1 <= j < n && 8 * j % k == 0
  {
    j := k * q / 8;
    DivMod(8 * n, k);
    MulMono(q + 1, 8 * n / k, k);
    MulMono(1, q, k);
    DivModUnique(8 * j, k, q, 0);
  }

  lemma RoomForByte(k: nat, bytePos: nat, bitPos: nat, size: nat)
    requires bitPos < k && bytePos < size && Used(k, bytePos, bitPos) % 8 == 0 && Used(k, size, 0) % 8 == 0
    ensures Used(k, bytePos, bitPos) + 8 <= Used(k, size, 0)
  {
    MulMono(bytePos + 1, size, k);
    NextMultipleOf8(Used(k, bytePos, bitPos), Used(k, size, 0));
  }

  lemma NextMultipleOf8(u: nat, v: nat)
    requires u < v && u % 8 == 0 && v % 8 == 0
    ensures u + 8 <= v
  {}

  lemma BlockEnd(k: nat, bytePos: nat, bitPos: nat, size: nat)
    requires Used(k, bytePos, bitPos) <= Used(k, size, 0) && bytePos == size
    ensures bitPos == 0
  {}

  lemma BlockStart(k: nat, bitPos: nat)
    requires bitPos < k <= 7 && Used(k, 0, bitPos) % 8 == 0
    ensures bitPos == 0
  {}

  /** Replace the digits in the first places by their letters. */
  method Translate(buf: array<byte>, n: nat, alphabet: seq<byte>, ghost ds: seq<nat>)
    requires n == |ds| <= buf.Length && Below(ds, |alphabet|)
    requires forall j :: 0 <= j < n ==> buf[j] == ds[j]
    modifies buf
    ensures buf[..n] == Letters(alphabet, ds)
  {
    for i := 0 to n
      invariant forall j :: 0 <= j < i ==> buf[j] == Letter(alphabet, ds[j])
      invariant forall j :: i <= j < n ==> buf[j] == ds[j]
    {
      buf[i] := alphabet[buf[i]];
    }
  }

  /** The state between bytes. */
  ghost predicate Collecting(a: Alphabet, buf: seq<byte>, bytePos: nat, bitPos: nat, m: seq<byte>,
                             flushed: seq<nat>, digits: seq<nat>, part: nat, blocks: nat)
  {
    && |buf| == a.blockSize && InBlocks(|flushed|, blocks, a.blockSize) && |digits| == bytePos < a.blockSize
    && bitPos < a.bitsPerChar && Used(a.bitsPerChar, bytePos, bitPos) % 8 == 0
    && Encodes(m, flushed, digits, part, bitPos, a.bitsPerChar)
    && (if bytePos == 0 then part == 0 else Packed(buf, a.bitsPerChar, bytePos, bitPos, digits, part))
  }

  /** The state when a byte has been packed, perhaps with the block now full. */
  ghost predicate Loaded(a: Alphabet, buf: seq<byte>, bytePos: nat, bitPos: nat, m: seq<byte>,
                         flushed: seq<nat>, digits: seq<nat>, part: nat, blocks: nat)
  {
    && |buf| == a.blockSize && InBlocks(|flushed|, blocks, a.blockSize) && 1 <= |digits| == bytePos <= a.blockSize
    && bitPos < a.bitsPerChar && Used(a.bitsPerChar, bytePos, bitPos) % 8 == 0
    && Encodes(m, flushed, digits, part, bitPos, a.bitsPerChar)
    && Packed(buf, a.bitsPerChar, bytePos, bitPos, digits, part)
    && Used(a.bitsPerChar, bytePos, bitPos) <= Used(a.bitsPerChar, a.blockSize, 0)
  }

  lemma FreshBuffer(buf: seq<byte>, k: nat)
    requires k >= 1 && forall i :: 0 <= i < |buf| ==> buf[i] == 0
    ensures Packed(buf, k, 0, 0, [], 0)
  {}

  /** One turn of the encoder's outer loop, up to the output. */
  method LoadByte(buf: array<byte>, a: Alphabet, b: byte, bytePos0: nat, bitPos0: nat, ghost m: seq<byte>,
                  ghost flushed: seq<nat>, ghost digits0: seq<nat>, ghost part0: nat, ghost blocks: nat)
      returns (bytePos: nat, bitPos: nat, ghost digits: seq<nat>, ghost part: nat)
    requires a.Valid() && Collecting(a, buf[..], bytePos0, bitPos0, m, flushed, digits0, part0, blocks)
    modifies buf
    ensures Loaded(a, buf[..], bytePos, bitPos, m + [b], flushed, digits, part, blocks)
  {
    hide Encodes, Packed, Used, Pow2;
    ghost var k := a.bitsPerChar;
    if bytePos0 == 0 {
      BlockStart(k, bitPos0);
      forall i | 0 <= i < buf.Length { buf[i] := 0; }
      FreshBuffer(buf[..], k);
    }
    RoomForByte(k, bytePos0, bitPos0, buf.Length);
    bytePos, bitPos, digits, part := PackByte(buf, a.bitsPerChar, b, bytePos0, bitPos0, digits0, part0);
    EncodesByte(m, flushed, digits0, part0, bitPos0, k, b, digits, part, bitPos);
    PackedAt(buf[..], k, bytePos, bitPos, digits, part);
    SomePlace(k, bytePos, bitPos);
  }

  lemma SomePlace(k: nat, bytePos: nat, bitPos: nat)
    requires bitPos < k <= 7 && Used(k, bytePos, bitPos) >= 8
    ensures bytePos >= 1
  {}

  /** A full block is out of the way. */
  lemma LoadedFlush(a: Alphabet, buf: seq<byte>, bitPos: nat, m: seq<byte>, flushed: seq<nat>, digits: seq<nat>, part: nat, blocks: nat)
    requires a.Valid() && Loaded(a, buf, a.blockSize, bitPos, m, flushed, digits, part, blocks)
    ensures bitPos == 0 && Below(digits, Pow2(a.bitsPerChar)) && |digits| == |buf| && forall j :: 0 <= j < |buf| ==> buf[j] == digits[j]
    ensures InBlocks(|flushed + digits|, blocks + 1, a.blockSize) && Encodes(m, flushed + digits, [], 0, 0, a.bitsPerChar)
  {
    BlockEnd(a.bitsPerChar, a.blockSize, bitPos, a.blockSize);
    EncodesFlush(m, flushed, digits, part, a.bitsPerChar);
    hide Encodes, Used, Pow2;
  }

  lemma FlushedCollects(a: Alphabet, buf: seq<byte>, m: seq<byte>, flushed: seq<nat>, blocks: nat)
    requires a.Valid() && |buf| == a.blockSize
    requires InBlocks(|flushed|, blocks, a.blockSize) && Encodes(m, flushed, [], 0, 0, a.bitsPerChar)
    ensures Collecting(a, buf, 0, 0, m, flushed, [], 0, blocks)
  {
    hide Encodes, Packed;
  }

  lemma LoadedCollects(a: Alphabet, buf: seq<byte>, bytePos: nat, bitPos: nat, m: seq<byte>, flushed: seq<nat>, digits: seq<nat>, part: nat, blocks: nat)
    requires Loaded(a, buf, bytePos, bitPos, m, flushed, digits, part, blocks) && bytePos < a.blockSize
    ensures Collecting(a, buf, bytePos, bitPos, m, flushed, digits, part, blocks)
  {}

  /** The end of a message: the last block as it will be put out. */
  method FinishBlock(buf: array<byte>, a: Alphabet, bytePos0: nat, bitPos: nat, ghost m: seq<byte>,
                     ghost flushed: seq<nat>, ghost digits: seq<nat>, ghost part: nat, ghost blocks: nat)
      returns (bytePos: nat)
    requires a.Valid() && Collecting(a, buf[..], bytePos0, bitPos, m, flushed, digits, part, blocks)
    modifies buf
    ensures bytePos <= buf.Length && EncodeText(m, a) == Letters(a.letters, flushed) + buf[..bytePos]
  {
    ghost var last := digits + FilledUp(part, bitPos, a.bitsPerChar);
    LastDigits(a, buf[..], bytePos0, bitPos, m, flushed, digits, part, blocks, last);
    hide Encodes, Packed, Used, Pow2, Missing, Digits, Letters, FilledUp, Collecting, EncodeText, Below;
    bytePos := bytePos0;
    if bitPos > 0 { bytePos := bytePos + 1; }
    Translate(buf, bytePos, a.letters, last);
    assert buf[..bytePos] == Letters(a.letters, last);
    if a.padding != -1 && bytePos > 0 {
      ghost var n := bytePos;
      forall i | bytePos <= i < buf.Length { buf[i] := a.padding; }
      bytePos := a.blockSize;
      assert buf[..bytePos] == Letters(a.letters, last) + Repeat(a.padding, a.blockSize - n);
    }
  }

  lemma LastDigits(a: Alphabet, buf: seq<byte>, bytePos: nat, bitPos: nat, m: seq<byte>, flushed: seq<nat>, digits: seq<nat>,
                   part: nat, blocks: nat, last: seq<nat>)
    requires a.Valid() && Collecting(a, buf, bytePos, bitPos, m, flushed, digits, part, blocks)
    requires last == digits + FilledUp(part, bitPos, a.bitsPerChar)
    ensures |buf| == a.blockSize && |last| == bytePos + (if bitPos > 0 then 1 else 0) <= a.blockSize
    ensures Below(last, |a.letters|) && forall j :: 0 <= j < |last| ==> buf[j] == last[j]
    ensures EncodeText(m, a) == Letters(a.letters, flushed) + (Letters(a.letters, last)
                                + (if a.padding == -1 || last == [] then [] else Repeat(a.padding, a.blockSize - |last|)))
  {
    hide Encodes, EncodeText, Letters, InBlocks;
    var k := a.bitsPerChar;
    if bytePos == 0 {
      BlockStart(k, bitPos);
      assert part < Pow2(bitPos);
    } else {
      Fits(part, bitPos, k);
    }
    hide Used, Pow2;
    FinalText(m, a, flushed, digits, part, bitPos, blocks, last);
  }

  /**
   * The encoder. continueAt is 0 between calls that complete; after an output that was blocked it is the
   * number of the place in Put2 to continue from, when the call is made again with the same arguments.
   */
  class BaseNEncoder {
    const a: Alphabet
    const outBuf: array<byte>
    const sink: Sink
    var bytePos: nat
    var bitPos: nat
    var inputPosition: nat
    var continueAt: nat
    /** The output before this message, and the bytes of the message taken in. */
    ghost var start: seq<byte>
    ghost var message: seq<byte>
    ghost var flushed: seq<nat>
    ghost var digits: seq<nat>
    ghost var part: nat
    ghost var blocks: nat
    /** The arguments of a call that was interrupted. */
    ghost var begin: seq<byte>
    ghost var end: bool

    ghost predicate Valid()
      reads this, outBuf, sink
    {
      && a.Valid() && outBuf.Length == a.blockSize && continueAt <= 2 && inputPosition <= |begin|
      && (continueAt == 0 ==> inputPosition == |begin| && Between())
      && (continueAt == 1 ==> BlockWaits())
      && (continueAt == 2 ==> inputPosition == |begin| && end && LastWaits())
    }

    /** The state at the head of the outer loop. */
    ghost predicate Between()
      reads this, outBuf, sink
    {
      && a.Valid() && outBuf.Length == a.blockSize && inputPosition <= |begin|
      && sink.output == start + Letters(a.letters, flushed)
      && Collecting(a, outBuf[..], bytePos, bitPos, message, flushed, digits, part, blocks)
    }

    /** A full block waits at the first output. */
    ghost predicate BlockWaits()
      reads this, outBuf, sink
    {
      && InBlocks(|flushed|, blocks, a.blockSize) && Encodes(message, flushed, [], 0, 0, a.bitsPerChar)
      && sink.output + outBuf[..] == start + Letters(a.letters, flushed)
    }

    /** The last block waits at the second output. */
    ghost predicate LastWaits()
      reads this, outBuf, sink
    {
      a.Valid() && bytePos <= outBuf.Length && sink.output + outBuf[..bytePos] == start + EncodeText(message, a)
    }

    /** The message with what the interrupted call has still to take in. */
    ghost function Pending(): seq<byte>
      reads this
      requires inputPosition <= |begin|
    {
      message + begin[inputPosition..]
    }

    constructor (a: Alphabet, sink: Sink)
      requires a.Valid()
      ensures Valid() && continueAt == 0 && Pending() == [] && start == sink.output
      ensures this.a == a && this.sink == sink && fresh(outBuf)
    {
      this.a, this.sink := a, sink;
      bytePos, bitPos, inputPosition, continueAt := 0, 0, 0, 0;
      outBuf := new byte[a.blockSize](_ => 0);
      start, message, flushed, digits, part, blocks := sink.output, [], [], [], 0, 0;
      begin, end := [], false;
      new;
      EncodesNothing(a.bitsPerChar);
      FlushedCollects(a, outBuf[..], [], [], 0);
    }

    /** The first output, of a full block. */
    method OutputBlock() returns (blocked: bool)
      requires a.Valid() && outBuf.Length == a.blockSize && inputPosition <= |begin| && BlockWaits()
      modifies this`bytePos, this`bitPos, this`continueAt, this`digits, this`part, sink
      ensures |sink.script| <= |old(sink.script)| && (blocked ==> |sink.script| < |old(sink.script)|)
      ensures blocked ==> Valid() && continueAt == 1
      ensures !blocked ==> Between() && continueAt == 0
    {
      hide Encodes, Letters;
      blocked := sink.Put(outBuf[..], false);
      if blocked {
        continueAt := 1;
        return;
      }
      FlushedCollects(a, outBuf[..], message, flushed, blocks);
      continueAt, bytePos, bitPos, digits, part := 0, 0, 0, [], 0;
    }

    /** One turn of the outer loop. */
    method EncodeByte(input: seq<byte>) returns (blocked: bool)
      requires Between() && input == begin && inputPosition < |input| && continueAt == 0
      modifies this`bytePos, this`bitPos, this`inputPosition, this`continueAt, outBuf, sink
      modifies this`message, this`flushed, this`digits, this`part, this`blocks
      ensures |sink.script| <= |old(sink.script)| && (blocked ==> |sink.script| < |old(sink.script)|)
      ensures blocked ==> Valid() && continueAt == 1
      ensures !blocked ==> Between() && continueAt == 0
      ensures inputPosition == old(inputPosition) + 1 && Pending() == old(Pending())
    {
      hide Encodes, Letters, Collecting, Loaded;
      var b := input[inputPosition];
      ghost var m := message;
      bytePos, bitPos, digits, part := LoadByte(outBuf, a, b, bytePos, bitPos, message, flushed, digits, part, blocks);
      message, inputPosition := message + [b], inputPosition + 1;
      assert m + begin[inputPosition - 1..] == message + begin[inputPosition..];
      if bytePos == a.blockSize {
        blocked := FlushBlock();
      } else {
        LoadedSize(a, outBuf[..], bytePos, bitPos, message, flushed, digits, part, blocks);
        LoadedCollects(a, outBuf[..], bytePos, bitPos, message, flushed, digits, part, blocks);
        blocked := false;
      }
    }

    /** The full block becomes letters and is put out. */
    method FlushBlock() returns (blocked: bool)
      requires a.Valid() && outBuf.Length == a.blockSize && inputPosition <= |begin| && bytePos == a.blockSize
      requires sink.output == start + Letters(a.letters, flushed)
      requires Loaded(a, outBuf[..], bytePos, bitPos, message, flushed, digits, part, blocks)
      modifies this`bytePos, this`bitPos, this`continueAt, outBuf, sink, this`flushed, this`digits, this`part, this`blocks
      ensures |sink.script| <= |old(sink.script)| && (blocked ==> |sink.script| < |old(sink.script)|)
      ensures blocked ==> Valid() && continueAt == 1
      ensures !blocked ==> Between() && continueAt == 0
    {
      hide Encodes, Loaded, Collecting, Letters, Below, InBlocks, Used;
      LoadedFlush(a, outBuf[..], bitPos, message, flushed, digits, part, blocks);
      LettersMore(a.letters, digits, Pow2(a.bitsPerChar));
      Translate(outBuf, bytePos, a.letters, digits);
      assert outBuf[..] == outBuf[..bytePos];
      LettersAppend(a.letters, flushed, digits);
      AppendAssociative(start, Letters(a.letters, flushed), outBuf[..]);
      flushed, blocks := flushed + digits, blocks + 1;
      blocked := OutputBlock();
    }

    /** The outer loop. */
    method EncodeInput(input: seq<byte>) returns (blocked: bool)
      requires Between() && input == begin && continueAt == 0
      modifies this`bytePos, this`bitPos, this`inputPosition, this`continueAt, outBuf, sink
      modifies this`message, this`flushed, this`digits, this`part, this`blocks
      ensures |sink.script| <= |old(sink.script)| && (blocked ==> |sink.script| < |old(sink.script)|)
      ensures blocked ==> Valid() && continueAt == 1
      ensures !blocked ==> Between() && continueAt == 0 && inputPosition == |input|
      ensures inputPosition <= |begin| && Pending() == old(Pending())
    {
      hide Encodes, Letters, Collecting;
      while inputPosition < |input|
        invariant Between() && continueAt == 0 && Pending() == old(Pending())
        invariant |sink.script| <= |old(sink.script)|
        decreases |input| - inputPosition
      {
        blocked := EncodeByte(input);
        if blocked { return; }
      }
      blocked := false;
    }

    /** The second output, of the last block. */
    method OutputLast() returns (blocked: bool)
      requires a.Valid() && outBuf.Length == a.blockSize && inputPosition == |begin| && end && LastWaits()
      modifies this`bytePos, this`bitPos, this`continueAt, sink
      modifies this`start, this`message, this`flushed, this`digits, this`part, this`blocks
      ensures |sink.script| <= |old(sink.script)| && (blocked ==> |sink.script| < |old(sink.script)|)
      ensures Valid()
      ensures blocked ==> continueAt == 2 && start == old(start) && message == old(message)
      ensures !blocked ==> continueAt == 0 && message == [] && start == sink.output == old(start) + EncodeText(old(message), a)
    {
      hide Encodes, EncodeText;
      blocked := sink.Put(outBuf[..bytePos], true);
      if blocked {
        continueAt := 2;
        return;
      }
      start, message, flushed, blocks, digits, part := sink.output, [], [], 0, [], 0;
      continueAt, bytePos, bitPos := 0, 0, 0;
      EncodesNothing(a.bitsPerChar);
      FlushedCollects(a, outBuf[..], [], [], 0);
      assert start + Letters(a.letters, []) == start;
    }

    /** What the call has to do with the message: what was pending, or the new input. */
    ghost function Complete(input: seq<byte>): seq<byte>
      reads this
      requires inputPosition <= |begin|
    {
      if continueAt == 0 then message + input else Pending()
    }

    /** Everything before the second output, from where the last call stopped. */
    method Advance(input: seq<byte>, messageEnd: bool) returns (blocked: bool)
      requires Valid() && continueAt != 2 && (continueAt != 0 ==> input == begin && messageEnd == end)
      modifies this`bytePos, this`bitPos, this`inputPosition, this`continueAt, outBuf, sink
      modifies this`message, this`flushed, this`digits, this`part, this`blocks, this`begin, this`end
      ensures |sink.script| <= |old(sink.script)| && (blocked ==> |sink.script| < |old(sink.script)|)
      ensures begin == input && end == messageEnd && inputPosition <= |begin| && Pending() == old(Complete(input))
      ensures blocked ==> Valid() && continueAt == 1
      ensures !blocked ==> Between() && continueAt == 0 && inputPosition == |input|
    {
      hide Encodes, Letters, Collecting;
      if continueAt == 1 {
        blocked := OutputBlock();
        if blocked { return; }
      } else {
        inputPosition := 0;
        begin, end := input, messageEnd;
      }
      blocked := EncodeInput(input);
    }

    method Put2(input: seq<byte>, messageEnd: bool) returns (blocked: bool)
      requires Valid() && (continueAt != 0 ==> input == begin && messageEnd == end)
      modifies this, outBuf, sink
      ensures Valid() && (blocked <==> continueAt != 0)
      ensures |sink.script| <= |old(sink.script)| && (blocked ==> |sink.script| < |old(sink.script)|)
      ensures blocked ==> begin == input && end == messageEnd && start == old(start) && Pending() == old(Complete(input))
      ensures !blocked && !messageEnd ==> start == old(start) && message == old(Complete(input))
      ensures !blocked && messageEnd ==> message == [] && start == sink.output == old(start) + EncodeText(old(Complete(input)), a)
    {
      hide Encodes, Letters, Collecting, EncodeText;
      if continueAt != 2 {
        blocked := Advance(input, messageEnd);
        if blocked { return; }
        assert begin[inputPosition..] == [] && message + [] == message;
        if !messageEnd { return; }
        bytePos := FinishBlock(outBuf, a, bytePos, bitPos, message, flushed, digits, part, blocks);
        assert sink.output + outBuf[..bytePos] == start + EncodeText(message, a);
      } else {
        assert begin[inputPosition..] == [] && message + [] == message;
      }
      blocked := OutputLast();
    }
  }

  lemma LettersMore(alphabet: seq<byte>, ds: seq<nat>, bound: nat)
    requires Below(ds, bound) && bound <= |alphabet|
    ensures Below(ds, |alphabet|)
  {}

  lemma LoadedSize(a: Alphabet, buf: seq<byte>, bytePos: nat, bitPos: nat, m: seq<byte>, flushed: seq<nat>, digits: seq<nat>, part: nat, blocks: nat)
    requires Loaded(a, buf, bytePos, bitPos, m, flushed, digits, part, blocks)
    ensures bytePos <= a.blockSize
  {}
}
