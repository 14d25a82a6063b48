/** BaseN_Decoder of basecode.cpp: a filter that unpacks characters into bytes and can be interrupted at each output. */
module BaseNDecoding {
  import opened Arithmetic
  import opened Bytes
  import opened BitStrings
  import opened BasePacking
  import opened Sinks
  import BaseNEncoding
  import opened Sequences

  // ---- The bytes for a text ---------------------------------------------------------------------

  /** A table of 256 entries: the digit of a character, or -1 for one to be passed over. */
  datatype Lookup = Lookup(table: seq<int>, bitsPerChar: nat, blockSize: nat)
  {
    ghost predicate Valid() {
      && 1 <= bitsPerChar <= 7 && |table| == 256
      && (forall c :: 0 <= c < 256 ==> -1 <= table[c] < Pow2(bitsPerChar))
      && blockSize >= 1 && Used(8, blockSize, 0) % bitsPerChar == 0
    }
  }

  /** The digits in a text. */
  function Values(text: seq<byte>, table: seq<int>): seq<nat>
    requires |table| == 256
  {
    if text == [] then []
    else
      var v := table[text[|text| - 1]];
      Values(text[..|text| - 1], table) + (if v >= 0 then [v] else [])
  }

  /** The whole bytes that the digits of a text make up. */
  function DecodeText(text: seq<byte>, l: Lookup): seq<nat>
    requires |l.table| == 256
  {
    Whole(Spell(Values(text, l.table), l.bitsPerChar), 8)
  }

  lemma ValuesSnoc(text: seq<byte>, c: byte, table: seq<int>)
    requires |table| == 256
    ensures Values(text + [c], table) == Values(text, table) + (if table[c] >= 0 then [table[c]] else [])
  {
    assert (text + [c])[..|text|] == text;
  }

  // ---- What has been done with a text so far -----------------------------------------------------

  /** The digits are in whole blocks (flushed), complete bytes of this block, and n bits of a last one. */
  ghost predicate Decodes(ds: seq<nat>, flushed: seq<byte>, bytes: seq<nat>, part: nat, n: nat, k: nat) {
    Spell(flushed, 8) + Placed(bytes, part, n, 8) == Spell(ds, k)
  }

  lemma DecodesDigit(ds: seq<nat>, flushed: seq<byte>, bytes: seq<nat>, part: nat, n: nat, k: nat, v: nat,
                     bytes': seq<nat>, part': nat, n': nat)
    requires Decodes(ds, flushed, bytes, part, n, k)
    requires Placed(bytes', part', n', 8) == Placed(bytes, part, n, 8) + ToBits(v, k)
    ensures Decodes(ds + [v], flushed, bytes', part', n', k)
  {
    SpellSnoc(ds, v, k);
    hide Spell, Placed, ToBits;
    assert Spell(flushed, 8) + (Placed(bytes, part, n, 8) + ToBits(v, k)) == Spell(ds, k) + ToBits(v, k);
  }

  lemma DecodesFlush(ds: seq<nat>, flushed: seq<byte>, bytes: seq<byte>, part: nat, k: nat)
    requires Decodes(ds, flushed, bytes, part, 0, k)
    ensures Decodes(ds, flushed + bytes, [], 0, 0, k)
  {
    BaseNEncoding.PlacedWhole(bytes, part, 8);
    BaseNEncoding.PlacedWhole(bytes, 0, 8);
    SpellAppend(flushed, bytes, 8);
    hide Spell, Placed;
    assert Spell(flushed + bytes, 8) + [] == Spell(flushed + bytes, 8);
  }

  lemma DecodesBytes(text: seq<byte>, l: Lookup, flushed: seq<byte>, bytes: seq<byte>, part: nat, n: nat)
    requires |l.table| == 256 && n < 8 && Decodes(Values(text, l.table), flushed, bytes, part, n, l.bitsPerChar)
    ensures DecodeText(text, l) == flushed + bytes
  {
    SpellAppend(flushed, bytes, 8);
    Pow2Values();
    hide Spell, ToBits, Whole, Values, Pow2;
    AppendAssociative(Spell(flushed, 8), Spell(bytes, 8), ToBits(part, n));
    WholeOf(flushed + bytes, ToBits(part, n), 8);
  }

  lemma DecodesNothing(k: nat)
    ensures Decodes([], [], [], 0, 0, k)
  {
    SpellNone(k);
    SpellNone(8);
    BaseNEncoding.PlacedWhole([], 0, 8);
  }

  // ---- The lookup table ----------------------------------------------------------------------------

  predicate IsAlpha(c: byte) { 'A' as int <= c <= 'Z' as int || 'a' as int <= c <= 'z' as int }

  function ToUpper(c: byte): byte { if 'a' as int <= c <= 'z' as int then c - 32 else c }

  function ToLower(c: byte): byte { if 'A' as int <= c <= 'Z' as int then c + 32 else c }

  /** c stands for the letter x of the alphabet. */
  predicate Matches(x: byte, c: byte, caseInsensitive: bool) {
    c == x || (caseInsensitive && IsAlpha(x) && (c == ToUpper(x) || c == ToLower(x)))
  }

  /** No character stands for two letters. */
  ghost predicate Injective(alphabet: seq<byte>, base: nat, caseInsensitive: bool)
    requires base <= |alphabet|
  {
    forall i, j, c: byte :: 0 <= i < j < base && Matches(alphabet[i], c, caseInsensitive) ==> !Matches(alphabet[j], c, caseInsensitive)
  }

  /** Entry v for the character c, with the first base letters entered. */
  ghost predicate Entry(alphabet: seq<byte>, base: nat, caseInsensitive: bool, c: byte, v: int)
    requires base <= |alphabet|
  {
    if v == -1 then forall i :: 0 <= i < base ==> !Matches(alphabet[i], c, caseInsensitive)
    else 0 <= v < base && Matches(alphabet[v], c, caseInsensitive)
  }

  method InitializeDecodingLookupArray(lookup: array<int>, alphabet: seq<byte>, base: nat, caseInsensitive: bool)
    requires lookup.Length == 256 && base <= |alphabet| && Injective(alphabet, base, caseInsensitive)
    modifies lookup
    ensures forall c: byte :: Entry(alphabet, base, caseInsensitive, c, lookup[c])
  {
    for i := 0 to 256
      invariant forall c: byte :: c < i ==> lookup[c] == -1
    {
      lookup[i] := -1;
    }
    for i := 0 to base
      invariant forall c: byte :: Entry(alphabet, i, caseInsensitive, c, lookup[c])
    {
      var x := alphabet[i];
      if caseInsensitive && IsAlpha(x) {
        assert lookup[ToUpper(x)] == -1 && lookup[ToLower(x)] == -1;
        lookup[ToUpper(x)] := i;
        lookup[ToLower(x)] := i;
      } else {
        assert lookup[x] == -1;
        lookup[x] := i;
      }
    }
  }

  // ---- The filter ---------------------------------------------------------------------------------

  /** IsolatedInitialize: the bytes for the least number of characters that fill bytes exactly. */
  method OutputBlockSize(k: nat) returns (size: nat)
    requires 1 <= k <= 7
    ensures size >= 1 && Used(8, size, 0) % k == 0
    ensures forall j :: 1 <= j < size ==> Used(8, j, 0) % k != 0
  {
    var i := k;
    ghost var n := 1;
    while i % 8 != 0
      invariant 1 <= n <= 8 && i == k * n
      invariant forall j :: 1 <= j < n ==> k * j % 8 != 0
      decreases 8 - n
    {
      NextMultiple(k, n);
      n := n + 1;
      i := i + k;
    }
    size := i / 8;
    SmallestBlock(k, n, size);
  }

  lemma NextMultiple(k: nat, n: nat)
    ensures k * (n + 1) == k * n + k
    ensures n == 8 ==> k * n % 8 == 0
  {}

  lemma SmallestBlock(k: nat, n: nat, size: nat)
    requires k >= 1 && n >= 1 && k * n == 8 * size && forall j :: 1 <= j < n ==> k * j % 8 != 0
    ensures size >= 1 && Used(8, size, 0) % k == 0
    ensures forall q :: 1 <= q < size ==> Used(8, q, 0) % k != 0
  {
    MulMono(1, n, k);
    DivModUnique(8 * size, k, n, 0);
    forall q | 1 <= q < size
      ensures Used(8, q, 0) % k != 0
    {
      if Used(8, q, 0) % k == 0 { var j := EarlierMultiple(k, n, q); }
    }
  }

  lemma EarlierMultiple(k: nat, n: nat, q: nat) returns (j: nat)
    requires k >= 1 && q >= 1 && 8 * q < k * n && 8 * q % k == 0
    ensures 1 <= j < n && k * j == 8 * q
  {
    j := 8 * q / k;
    DivMod(8 * q, k);
    if j >= n { MulMono(n, j, k); }
  }

  lemma RoomForDigit(k: nat, used: nat, size: nat)
    requires k >= 1 && used < size && used % k == 0 && size % k == 0
    ensures used + k <= size && (used + k) % k == 0
  {
    DivMod(used, k);
    DivMod(size, k);
    if used / k >= size / k { MulMono(size / k, used / k, k); }
    MulMono(used / k + 1, size / k, k);
    ModAddMultiple(used, 1, k);
  }

  lemma UsedBelow(bytePos: nat, bitPos: nat, size: nat)
    requires bytePos < size && bitPos < 8
    ensures Used(8, bytePos, bitPos) < Used(8, size, 0)
  {}

  lemma BlockEnd(bytePos: nat, bitPos: nat, size: nat)
    requires Used(8, bytePos, bitPos) <= Used(8, size, 0) && bytePos == size
    ensures bitPos == 0
  {}

  /** The state between characters. */
  ghost predicate Collecting(l: Lookup, buf: seq<byte>, bytePos: nat, bitPos: nat, ds: seq<nat>,
                             flushed: seq<byte>, bytes: seq<nat>, part: nat)
  {
    && |buf| == l.blockSize && |bytes| == bytePos < l.blockSize && bitPos < 8
    && l.bitsPerChar >= 1 && Used(8, bytePos, bitPos) % l.bitsPerChar == 0
    && Decodes(ds, flushed, bytes, part, bitPos, l.bitsPerChar)
    && (if bytePos == 0 && bitPos == 0 then part == 0 else Packed(buf, 8, bytePos, bitPos, bytes, part))
  }

  /** The state when a digit has been placed, perhaps with the block now full. */
  ghost predicate Loaded(l: Lookup, buf: seq<byte>, bytePos: nat, bitPos: nat, ds: seq<nat>,
                         flushed: seq<byte>, bytes: seq<nat>, part: nat)
  {
    && |buf| == l.blockSize && |bytes| == bytePos <= l.blockSize && bitPos < 8
    && l.bitsPerChar >= 1 && Used(8, bytePos, bitPos) % l.bitsPerChar == 0
    && 1 <= Used(8, bytePos, bitPos) <= Used(8, l.blockSize, 0)
    && Decodes(ds, flushed, bytes, part, bitPos, l.bitsPerChar)
    && Packed(buf, 8, bytePos, bitPos, bytes, part)
  }

  method LoadDigit(buf: array<byte>, l: Lookup, v: nat, bytePos0: nat, bitPos0: nat, ghost ds: seq<nat>,
                   ghost flushed: seq<byte>, ghost bytes0: seq<nat>, ghost part0: nat)
      returns (bytePos: nat, bitPos: nat, ghost bytes: seq<nat>, ghost part: nat)
    requires l.Valid() && v < Pow2(l.bitsPerChar) && Collecting(l, buf[..], bytePos0, bitPos0, ds, flushed, bytes0, part0)
    modifies buf
    ensures Loaded(l, buf[..], bytePos, bitPos, ds + [v], flushed, bytes, part)
  {
    hide Decodes, Packed, Used, Pow2;
    ghost var k := l.bitsPerChar;
    if bytePos0 == 0 && bitPos0 == 0 {
      forall i | 0 <= i < buf.Length { buf[i] := 0; }
      BaseNEncoding.FreshBuffer(buf[..], 8);
    }
    UsedBelow(bytePos0, bitPos0, buf.Length);
    RoomForDigit(k, Used(8, bytePos0, bitPos0), Used(8, buf.Length, 0));
    bytePos, bitPos, bytes, part := PackDigit(buf, l.bitsPerChar, v, bytePos0, bitPos0, bytes0, part0);
    DecodesDigit(ds, flushed, bytes0, part0, bitPos0, k, v, bytes, part, bitPos);
    PackedAt(buf[..], 8, bytePos, bitPos, bytes, part);
  }

  lemma LoadedFlush(l: Lookup, buf: seq<byte>, bitPos: nat, ds: seq<nat>, flushed: seq<byte>, bytes: seq<nat>, part: nat)
    requires Loaded(l, buf, l.blockSize, bitPos, ds, flushed, bytes, part)
    ensures bitPos == 0 && Decodes(ds, flushed + buf, [], 0, 0, l.bitsPerChar)
  {
    BlockEnd(l.blockSize, bitPos, l.blockSize);
    assert buf == bytes;
    DecodesFlush(ds, flushed, buf, part, l.bitsPerChar);
  }

  lemma FlushedCollects(l: Lookup, buf: seq<byte>, ds: seq<nat>, flushed: seq<byte>)
    requires l.Valid() && |buf| == l.blockSize && Decodes(ds, flushed, [], 0, 0, l.bitsPerChar)
    ensures Collecting(l, buf, 0, 0, ds, flushed, [], 0)
  {}

  lemma LoadedCollects(l: Lookup, buf: seq<byte>, bytePos: nat, bitPos: nat, ds: seq<nat>, flushed: seq<byte>, bytes: seq<nat>, part: nat)
    requires Loaded(l, buf, bytePos, bitPos, ds, flushed, bytes, part)
    ensures bytePos <= l.blockSize
    ensures bytePos < l.blockSize ==> Collecting(l, buf, bytePos, bitPos, ds, flushed, bytes, part)
  {}

  lemma LastBytes(text: seq<byte>, l: Lookup, buf: seq<byte>, bytePos: nat, bitPos: nat, flushed: seq<byte>, bytes: seq<nat>, part: nat)
    requires l.Valid() && Collecting(l, buf, bytePos, bitPos, Values(text, l.table), flushed, bytes, part)
    ensures DecodeText(text, l) == flushed + buf[..bytePos]
  {
    hide Values, DecodeText, Decodes;
    assert bytes == buf[..bytePos];
    DecodesBytes(text, l, flushed, buf[..bytePos], part, bitPos);
  }

  /** The decoder. continueAt works as in the encoder. */
  class BaseNDecoder {
    const l: Lookup
    const outBuf: array<byte>
    const sink: Sink
    var bytePos: nat
    var bitPos: nat
    var inputPosition: nat
    var continueAt: nat
    /** The output before this text, and the characters of the text taken in. */
    ghost var start: seq<byte>
    ghost var text: seq<byte>
    ghost var flushed: seq<byte>
    ghost var bytes: seq<nat>
    ghost var part: nat
    /** The arguments of a call that was interrupted. */
    ghost var begin: seq<byte>
    ghost var end: bool

    ghost predicate Valid()
      reads this, outBuf, sink
    {
      && l.Valid() && outBuf.Length == l.blockSize && continueAt <= 2 && inputPosition <= |begin|
      && (continueAt == 0 ==> inputPosition == |begin| && Between())
      && (continueAt == 1 ==> BlockWaits())
      && (continueAt == 2 ==> inputPosition == |begin| && end && LastWaits())
    }

    /** The state at the head of the loop. */
    ghost predicate Between()
      reads this, outBuf, sink
    {
      && l.Valid() && outBuf.Length == l.blockSize && inputPosition <= |begin| && sink.output == start + flushed
      && Collecting(l, outBuf[..], bytePos, bitPos, Values(text, l.table), flushed, bytes, part)
    }

    /** A full block waits at the first output. */
    ghost predicate BlockWaits()
      reads this, outBuf, sink
    {
      && |l.table| == 256 && Decodes(Values(text, l.table), flushed, [], 0, 0, l.bitsPerChar)
      && sink.output + outBuf[..] == start + flushed
    }

    /** The last block waits at the second output. */
    ghost predicate LastWaits()
      reads this, outBuf, sink
    {
      && |l.table| == 256 && bytePos <= outBuf.Length
      && sink.output + outBuf[..bytePos] == start + DecodeText(text, l)
    }

    /** The text with what the interrupted call has still to take in. */
    ghost function Pending(): seq<byte>
      reads this
      requires inputPosition <= |begin|
    {
      text + begin[inputPosition..]
    }

    /** What the call has to do with the text: what was pending, or the new input. */
    ghost function Complete(input: seq<byte>): seq<byte>
      reads this
      requires inputPosition <= |begin|
    {
      if continueAt == 0 then text + input else Pending()
    }

    constructor (l: Lookup, sink: Sink)
      requires l.Valid()
      ensures Valid() && continueAt == 0 && Pending() == [] && start == sink.output
      ensures this.l == l && this.sink == sink && fresh(outBuf)
    {
      this.l, this.sink := l, sink;
      bytePos, bitPos, inputPosition, continueAt := 0, 0, 0, 0;
      outBuf := new byte[l.blockSize](_ => 0);
      start, text, flushed, bytes, part := sink.output, [], [], [], 0;
      begin, end := [], false;
      new;
      DecodesNothing(l.bitsPerChar);
      FlushedCollects(l, outBuf[..], [], []);
    }

    /** The first output, of a full block. */
    method OutputBlock() returns (blocked: bool)
      requires l.Valid() && outBuf.Length == l.blockSize && inputPosition <= |begin| && BlockWaits()
      modifies this`bytePos, this`bitPos, this`continueAt, this`bytes, this`part, sink
      ensures |sink.script| <= |old(sink.script)| && (blocked ==> |sink.script| < |old(sink.script)|)
      ensures blocked ==> Valid() && continueAt == 1
      ensures !blocked ==> Between() && continueAt == 0
    {
      hide Decodes, Values;
      blocked := sink.Put(outBuf[..], false);
      if blocked {
        continueAt := 1;
        return;
      }
      FlushedCollects(l, outBuf[..], Values(text, l.table), flushed);
      continueAt, bytePos, bitPos, bytes, part := 0, 0, 0, [], 0;
    }

    /** A character that stands for a digit. */
    method DecodeDigit(v: nat, ghost ds: seq<nat>) returns (blocked: bool)
      requires l.Valid() && outBuf.Length == l.blockSize && inputPosition <= |begin| && sink.output == start + flushed
      requires v < Pow2(l.bitsPerChar) && Values(text, l.table) == ds + [v] && continueAt == 0
      requires Collecting(l, outBuf[..], bytePos, bitPos, ds, flushed, bytes, part)
      modifies this`bytePos, this`bitPos, this`continueAt, outBuf, sink, this`flushed, this`bytes, this`part
      ensures |sink.script| <= |old(sink.script)| && (blocked ==> |sink.script| < |old(sink.script)|)
      ensures blocked ==> Valid() && continueAt == 1
      ensures !blocked ==> Between() && continueAt == 0
    {
      hide Decodes, Values, Collecting, Loaded, Pow2;
      bytePos, bitPos, bytes, part := LoadDigit(outBuf, l, v, bytePos, bitPos, ds, flushed, bytes, part);
      LoadedCollects(l, outBuf[..], bytePos, bitPos, ds + [v], flushed, bytes, part);
      if bytePos == l.blockSize {
        blocked := FlushBlock();
      } else {
        blocked := false;
      }
    }

    method FlushBlock() returns (blocked: bool)
      requires l.Valid() && outBuf.Length == l.blockSize && inputPosition <= |begin| && sink.output == start + flushed
      requires Loaded(l, outBuf[..], l.blockSize, bitPos, Values(text, l.table), flushed, bytes, part)
      modifies this`bytePos, this`bitPos, this`continueAt, sink, this`flushed, this`bytes, this`part
      ensures |sink.script| <= |old(sink.script)| && (blocked ==> |sink.script| < |old(sink.script)|)
      ensures blocked ==> Valid() && continueAt == 1
      ensures !blocked ==> Between() && continueAt == 0
    {
      hide Decodes, Values, Collecting, Loaded;
      LoadedFlush(l, outBuf[..], bitPos, Values(text, l.table), flushed, bytes, part);
      AppendAssociative(start, flushed, outBuf[..]);
      flushed := flushed + outBuf[..];
      blocked := OutputBlock();
    }

    /** One turn of the loop. */
    method DecodeCharacter(input: seq<byte>) returns (blocked: bool)
      requires Between() && input == begin && inputPosition < |input| && continueAt == 0
      modifies this`bytePos, this`bitPos, this`inputPosition, this`continueAt, outBuf, sink
      modifies this`text, this`flushed, this`bytes, this`part
      ensures |sink.script| <= |old(sink.script)| && (blocked ==> |sink.script| < |old(sink.script)|)
      ensures blocked ==> Valid() && continueAt == 1
      ensures !blocked ==> Between() && continueAt == 0
      ensures inputPosition == old(inputPosition) + 1 && Pending() == old(Pending())
    {
      hide Decodes, Values, Collecting;
      var c := input[inputPosition];
      ghost var t := text;
      ValuesSnoc(text, c, l.table);
      text, inputPosition := text + [c], inputPosition + 1;
      assert t + begin[inputPosition - 1..] == text + begin[inputPosition..];
      var value := l.table[c];
      if value < 0 {
        assert Values(t, l.table) + [] == Values(t, l.table);
        blocked := false;
      } else {
        blocked := DecodeDigit(value, Values(t, l.table));
      }
    }

    /** The loop. */
    method DecodeInput(input: seq<byte>) returns (blocked: bool)
      requires Between() && input == begin && continueAt == 0
      modifies this`bytePos, this`bitPos, this`inputPosition, this`continueAt, outBuf, sink
      modifies this`text, this`flushed, this`bytes, this`part
      ensures |sink.script| <= |old(sink.script)| && (blocked ==> |sink.script| < |old(sink.script)|)
      ensures blocked ==> Valid() && continueAt == 1
      ensures !blocked ==> Between() && continueAt == 0 && inputPosition == |input|
      ensures inputPosition <= |begin| && Pending() == old(Pending())
    {
      hide Decodes, Values, Collecting;
      while inputPosition < |input|
        invariant Between() && continueAt == 0 && Pending() == old(Pending())
        invariant |sink.script| <= |old(sink.script)|
        decreases |input| - inputPosition
      {
        blocked := DecodeCharacter(input);
        if blocked { return; }
      }
      blocked := false;
    }

    /** The second output, of the last block. */
    method OutputLast() returns (blocked: bool)
      requires l.Valid() && outBuf.Length == l.blockSize && inputPosition == |begin| && end && LastWaits()
      modifies this`bytePos, this`bitPos, this`continueAt, sink
      modifies this`start, this`text, this`flushed, this`bytes, this`part
      ensures |sink.script| <= |old(sink.script)| && (blocked ==> |sink.script| < |old(sink.script)|)
      ensures Valid()
      ensures blocked ==> continueAt == 2 && start == old(start) && text == old(text)
      ensures !blocked ==> continueAt == 0 && text == [] && start == sink.output == old(start) + DecodeText(old(text), l)
    {
      hide Decodes, DecodeText;
      blocked := sink.Put(outBuf[..bytePos], true);
      if blocked {
        continueAt := 2;
        return;
      }
      start, text, flushed, bytes, part := sink.output, [], [], [], 0;
      continueAt, bytePos, bitPos := 0, 0, 0;
      DecodesNothing(l.bitsPerChar);
      FlushedCollects(l, outBuf[..], [], []);
      assert start + [] == start;
    }

    /** Everything before the second output, from where the last call stopped. */
    method Advance(input: seq<byte>, messageEnd: bool) returns (blocked: bool)
      requires Valid() && continueAt != 2 && (continueAt != 0 ==> input == begin && messageEnd == end)
      modifies this`bytePos, this`bitPos, this`inputPosition, this`continueAt, outBuf, sink
      modifies this`text, this`flushed, this`bytes, this`part, this`begin, this`end
      ensures |sink.script| <= |old(sink.script)| && (blocked ==> |sink.script| < |old(sink.script)|)
      ensures begin == input && end == messageEnd && inputPosition <= |begin| && Pending() == old(Complete(input))
      ensures blocked ==> Valid() && continueAt == 1
      ensures !blocked ==> Between() && continueAt == 0 && inputPosition == |input|
    {
      hide Decodes, Values, Collecting;
      if continueAt == 1 {
        blocked := OutputBlock();
        if blocked { return; }
      } else {
        inputPosition := 0;
        begin, end := input, messageEnd;
      }
      blocked := DecodeInput(input);
    }

    method Put2(input: seq<byte>, messageEnd: bool) returns (blocked: bool)
      requires Valid() && (continueAt != 0 ==> input == begin && messageEnd == end)
      modifies this, outBuf, sink
      ensures Valid() && (blocked <==> continueAt != 0)
      ensures |sink.script| <= |old(sink.script)| && (blocked ==> |sink.script| < |old(sink.script)|)
      ensures blocked ==> begin == input && end == messageEnd && start == old(start) && Pending() == old(Complete(input))
      ensures !blocked && !messageEnd ==> start == old(start) && text == old(Complete(input))
      ensures !blocked && messageEnd ==> text == [] && start == sink.output == old(start) + DecodeText(old(Complete(input)), l)
    {
      hide Decodes, Values, Collecting, DecodeText;
      if continueAt != 2 {
        blocked := Advance(input, messageEnd);
        if blocked { return; }
        assert begin[inputPosition..] == [] && text + [] == text;
        if !messageEnd { return; }
        LastBytes(text, l, outBuf[..], bytePos, bitPos, flushed, bytes, part);
        LastFits(l, outBuf[..], bytePos, bitPos, Values(text, l.table), flushed, bytes, part);
        assert outBuf[..][..bytePos] == outBuf[..bytePos];
      } else {
        assert begin[inputPosition..] == [] && text + [] == text;
      }
      blocked := OutputLast();
    }
  }

  lemma LastFits(l: Lookup, buf: seq<byte>, bytePos: nat, bitPos: nat, ds: seq<nat>, flushed: seq<byte>, bytes: seq<nat>, part: nat)
    requires Collecting(l, buf, bytePos, bitPos, ds, flushed, bytes, part)
    ensures bytePos <= |buf|
  {}
}
