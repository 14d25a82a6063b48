/**
 StreamTransformationFilter: run a block-wise cipher over a message of any length,
 padding the last block on the way in and checking the padding on the way out.
 */
module StreamFilter {
  import opened Arithmetic
  import opened Bytes
  import opened BufferedInput
  import opened Sequences

  datatype Result<+T> = Ok(value: T) | InvalidArgument | InvalidDataFormat | InvalidCiphertext

  datatype Padding = NO_PADDING | ZEROS_PADDING | PKCS_PADDING | ONE_AND_ZEROS_PADDING

  // ---- Ciphers ----------------------------------------------------------------

  /**
   One direction of a block cipher mode: from a chaining state and a block to the
   transformed block and the next state.  ECB ignores the state, CBC keeps the
   previous ciphertext block in it.  A mode that steals ciphertext has a minimum
   size of its last part, and transforms that part by stepLast (ProcessLastBlock).
   */
  datatype Mode<!S> = Mode(blockSize: nat, step: (S, seq<byte>) -> (seq<byte>, S),
                           minLast: nat, stepLast: (S, seq<byte>) -> Result<seq<byte>>)

  ghost predicate KeepsLength<S(!new)>(m: Mode<S>) {
    forall st: S, b: seq<byte> :: |b| == m.blockSize ==> |m.step(st, b).0| == m.blockSize
  }

  /** dec undoes enc, block by block, and arrives at the same chaining state. */
  ghost predicate Inverts<S(!new)>(enc: Mode<S>, dec: Mode<S>) {
    && enc.blockSize == dec.blockSize && enc.minLast == dec.minLast && KeepsLength(enc) && KeepsLength(dec)
    && forall st: S, b: seq<byte> :: |b| == enc.blockSize ==>
         dec.step(st, enc.step(st, b).0) == (b, enc.step(st, b).1)
  }

  /** ProcessString over whole blocks. */
  ghost function Process<S(!new)>(m: Mode<S>, st: S, data: seq<byte>): (r: (seq<byte>, S))
    requires m.blockSize >= 1 && KeepsLength(m) && |data| % m.blockSize == 0
    ensures |r.0| == |data|
    decreases |data|
  {
    if data == [] then ([], st)
    else
      WholeBlock(|data|, m.blockSize);
      var (out, st1) := m.step(st, data[..m.blockSize]);
      var (rest, st2) := Process(m, st1, data[m.blockSize..]);
      (out + rest, st2)
  }

  lemma WholeBlock(n: nat, s: nat)
    requires n > 0 && s >= 1 && n % s == 0
    ensures n >= s && (n - s) % s == 0
  {
    DivMod(n, s);
    if n < s { DivModUnique(n, s, 0, n); }
    ModAddMultiple(n, -1, s);
  }

  lemma {:induction false} ProcessSplit<S(!new)>(m: Mode<S>, st: S, a: seq<byte>, b: seq<byte>)
    requires m.blockSize >= 1 && KeepsLength(m) && |a| % m.blockSize == 0 && |b| % m.blockSize == 0
    ensures |a + b| % m.blockSize == 0
    ensures var (x, st1) := Process(m, st, a); var (y, st2) := Process(m, st1, b);
            Process(m, st, a + b) == (x + y, st2)
    decreases |a|
  {
    DivMod(|b|, m.blockSize);
    ModAddMultiple(|a|, |b| / m.blockSize, m.blockSize);
    if a == [] {
      assert a + b == b;
      var y := Process(m, st, b).0;
      assert [] + y == y;
    } else {
      var s := m.blockSize;
      WholeBlock(|a|, s);
      WholeBlock(|a + b|, s);
      var (out, st1) := m.step(st, a[..s]);
      assert (a + b)[..s] == a[..s] && (a + b)[s..] == a[s..] + b;
      ProcessSplit(m, st1, a[s..], b);
      var (x, st2) := Process(m, st1, a[s..]);
      var (y, st3) := Process(m, st2, b);
      assert out + (x + y) == out + x + y;
    }
  }

  /** Deciphering the ciphertext of any number of blocks gives them back. */
  lemma {:induction false} ProcessInverts<S(!new)>(enc: Mode<S>, dec: Mode<S>, st: S, data: seq<byte>)
    requires enc.blockSize >= 1 && Inverts(enc, dec) && |data| % enc.blockSize == 0
    ensures Process(dec, st, Process(enc, st, data).0) == (data, Process(enc, st, data).1)
    decreases |data|
  {
    if data != [] {
      var s := enc.blockSize;
      WholeBlock(|data|, s);
      var (out, st1) := enc.step(st, data[..s]);
      var (rest, st2) := Process(enc, st1, data[s..]);
      ProcessInverts(enc, dec, st1, data[s..]);
      assert (out + rest)[..s] == out && (out + rest)[s..] == rest;
      assert data == data[..s] + data[s..];
    }
  }

  // ---- Padding ----------------------------------------------------------------

  /** Which paddings always complete a block, so that the message can be recovered exactly. */
  predicate Recoverable(padding: Padding) {
    padding == PKCS_PADDING || padding == ONE_AND_ZEROS_PADDING
  }

  ghost function Padded(padding: Padding, s: nat, rest: seq<byte>): seq<byte>
    requires Recoverable(padding) && |rest| < s && (padding == PKCS_PADDING ==> s < 256)
  {
    if padding == PKCS_PADDING then rest + seq(s - |rest|, _ => s - |rest|)
    else rest + [0x80] + Zeros(s - |rest| - 1)
  }

  /**
   * Byte by byte: PKCS padding (section 6.3 of RFC 5652) is as many bytes as are missing, each with that number as its
   * value; the other is a byte whose top bit alone is set, and zeros.
   */
  lemma PaddedBytes(padding: Padding, s: nat, rest: seq<byte>)
    requires Recoverable(padding) && |rest| < s && (padding == PKCS_PADDING ==> s < 256)
    ensures var p := Padded(padding, s, rest);
            && |p| == s && p[..|rest|] == rest
            && (padding == PKCS_PADDING ==> forall i :: |rest| <= i < s ==> p[i] == s - |rest|)
            && (padding == ONE_AND_ZEROS_PADDING ==> p[|rest|] == 128 && forall i :: |rest| < i < s ==> p[i] == 0)
  {}

  method PadLast(padding: Padding, s: nat, input: seq<byte>) returns (space: seq<byte>)
    requires Recoverable(padding) && |input| < s && (padding == PKCS_PADDING ==> s < 256)
    ensures space == Padded(padding, s, input) && |space| == s
  {
    space := input;
    if padding == PKCS_PADDING {
      var pad: byte := s - |input|;
      space := space + seq(s - |input|, _ => pad);
    } else {
      space := space + [0x80];
      space := space + Zeros(s - |input| - 1);
    }
  }

  /** The padding check accepts exactly the padded blocks, and takes off exactly the padding. */
  method UnpadLast(padding: Padding, s: nat, space: seq<byte>) returns (r: Result<seq<byte>>)
    requires Recoverable(padding) && |space| == s >= 1 && (padding == PKCS_PADDING ==> s < 256)
    ensures r.Ok? ==> |r.value| < s && Padded(padding, s, r.value) == space
    ensures !r.Ok? ==> r == InvalidCiphertext && forall rest :: |rest| < s ==> Padded(padding, s, rest) != space
  {
    if padding == PKCS_PADDING {
      r := UnpadPkcs(s, space);
    } else {
      r := UnpadOnes(s, space);
    }
  }

  method UnpadPkcs(s: nat, space: seq<byte>) returns (r: Result<seq<byte>>)
    requires |space| == s && 1 <= s < 256
    ensures r.Ok? ==> |r.value| < s && Padded(PKCS_PADDING, s, r.value) == space
    ensures !r.Ok? ==> r == InvalidCiphertext && forall rest :: |rest| < s ==> Padded(PKCS_PADDING, s, rest) != space
  {
    hide Padded;
    var pad := space[s - 1];
    forall rest: seq<byte> | |rest| < s && Padded(PKCS_PADDING, s, rest) == space
      ensures PkcsTail(space, pad)
    {
      PkcsBlock(s, rest);
    }
    if pad < 1 || pad > s {
      return InvalidCiphertext;
    }
    var i := s - pad;
    while i < s
      invariant s - pad <= i <= s
      invariant forall k :: s - pad <= k < i ==> space[k] == pad
    {
      if space[i] != pad { return InvalidCiphertext; }
      i := i + 1;
    }
    PkcsRest(s, space, pad);
    return Ok(space[..s - pad]);
  }

  /** The last pad bytes of the block all have that value. */
  ghost predicate PkcsTail(space: seq<byte>, pad: int) {
    1 <= pad <= |space| && forall k :: |space| - pad <= k < |space| ==> space[k] == pad
  }

  lemma PkcsBlock(s: nat, rest: seq<byte>)
    requires |rest| < s < 256
    ensures var p := Padded(PKCS_PADDING, s, rest); |p| == s && p[s - 1] == s - |rest| && PkcsTail(p, p[s - 1])
  {
  }

  lemma PkcsRest(s: nat, space: seq<byte>, pad: int)
    requires |space| == s < 256 && PkcsTail(space, pad)
    ensures Padded(PKCS_PADDING, s, space[..s - pad]) == space
  {
  }

  method UnpadOnes(s: nat, space: seq<byte>) returns (r: Result<seq<byte>>)
    requires |space| == s >= 1
    ensures r.Ok? ==> |r.value| < s && Padded(ONE_AND_ZEROS_PADDING, s, r.value) == space
    ensures !r.Ok? ==> r == InvalidCiphertext && forall rest :: |rest| < s ==> Padded(ONE_AND_ZEROS_PADDING, s, rest) != space
  {
    var length := s;
    while length > 1 && space[length - 1] == 0
      invariant 1 <= length <= s
      invariant forall k :: length <= k < s ==> space[k] == 0
    {
      length := length - 1;
    }
    length := length - 1;
    if space[length] != 0x80 {
      forall rest | |rest| < s ensures Padded(ONE_AND_ZEROS_PADDING, s, rest) != space {
        var p := Padded(ONE_AND_ZEROS_PADDING, s, rest);
        assert p[|rest|] == 0x80;
        assert forall k :: |rest| < k < s ==> p[k] == 0;
        assert p[length] == space[length] ==> p[|rest|] != space[|rest|];
      }
      return InvalidCiphertext;
    }
    assert Padded(ONE_AND_ZEROS_PADDING, s, space[..length]) == space;
    return Ok(space[..length]);
  }

  lemma PaddedInjective(padding: Padding, s: nat, rest: seq<byte>, rest': seq<byte>)
    requires Recoverable(padding) && |rest| < s && |rest'| < s && (padding == PKCS_PADDING ==> s < 256)
    requires Padded(padding, s, rest) == Padded(padding, s, rest')
    ensures rest == rest'
  {
    var p, p' := Padded(padding, s, rest), Padded(padding, s, rest');
    assert |rest| == |rest'| by {
      if padding == PKCS_PADDING {
        assert p[s - 1] == s - |rest| && p'[s - 1] == s - |rest'|;
      } else {
        assert p[|rest|] == 0x80 && p'[|rest'|] == 0x80;
        assert forall k :: |rest| < k < s ==> p[k] == 0;
        assert forall k :: |rest'| < k < s ==> p'[k] == 0;
      }
    }
    assert rest == p[..|rest|] && rest' == p'[..|rest|];
  }

  // ---- The filter -------------------------------------------------------------

  function LastBlockSize(s: nat, minLast: nat, forward: bool, padding: Padding): nat {
    if minLast > 0 then minLast else if s > 1 && !forward && Recoverable(padding) then s else 0
  }

  function FilterSizes(s: nat, minLast: nat, forward: bool, padding: Padding): Sizes {
    Sizes(0, s, LastBlockSize(s, minLast, forward, padding))
  }

  /** The last part of a mode that steals ciphertext, filled with zeros if it is too short and they are asked for. */
  function ToSteal(minLast: nat, forward: bool, padding: Padding, input: seq<byte>): seq<byte> {
    if forward && padding == ZEROS_PADDING && |input| < minLast then input + Zeros(minLast - |input|) else input
  }

  /** What LastPut makes of the bytes held back. */
  ghost predicate LastOutcome<S(!new)>(m: Mode<S>, forward: bool, padding: Padding, st: S, input: seq<byte>, r: Result<seq<byte>>)
    requires m.blockSize >= 1 && KeepsLength(m) && (padding == PKCS_PADDING ==> m.blockSize < 256)
  {
    var s := m.blockSize;
    DivModUnique(s, s, 1, 0);
    if Recoverable(padding) then
      if forward then
        |input| < s && r == Ok(Process(m, st, Padded(padding, s, input)).0)
      else if |input| != s then r == InvalidCiphertext
      else
        var block := Process(m, st, input).0;
        if r.Ok? then |r.value| < s && Padded(padding, s, r.value) == block
        else r == InvalidCiphertext && forall rest :: |rest| < s ==> Padded(padding, s, rest) != block
    else if input == [] then r == Ok([])
    else if m.minLast > 0 then r == m.stepLast(st, ToSteal(m.minLast, forward, padding, input))
    else if forward && padding == ZEROS_PADDING then
      |input| < s && r == Ok(Process(m, st, input + Zeros(s - |input|)).0)
    else r == if forward then InvalidDataFormat else InvalidCiphertext
  }

  /** StreamTransformationFilter::LastPut. */
  method LastPut<S(!new)>(m: Mode<S>, forward: bool, padding: Padding, st: S, input: seq<byte>) returns (r: Result<seq<byte>>)
    requires m.blockSize >= 1 && KeepsLength(m) && (padding == PKCS_PADDING ==> m.blockSize < 256)
    requires forward && m.minLast == 0 ==> |input| < m.blockSize
    requires m.minLast == 0 || (m.minLast > m.blockSize && !Recoverable(padding))
    ensures LastOutcome(m, forward, padding, st, input, r)
  {
    var s := m.blockSize;
    DivModUnique(s, s, 1, 0);
    if !Recoverable(padding) {
      if input == [] {
        return Ok([]);
      } else if forward && padding == ZEROS_PADDING && (m.minLast == 0 || |input| < m.minLast) {
        var blockSize := if m.minLast > s then m.minLast else s;
        var space := input + Zeros(blockSize - |input|);
        if m.minLast > 0 {
          return m.stepLast(st, space);
        }
        var out := ProcessBlock(m, st, space);
        return Ok(out);
      } else {
        if m.minLast == 0 {
          return if forward then InvalidDataFormat else InvalidCiphertext;
        }
        return m.stepLast(st, input);
      }
    } else if forward {
      var space := PadLast(padding, s, input);
      var out := ProcessBlock(m, st, space);
      return Ok(out);
    } else {
      if |input| != s {
        return InvalidCiphertext;
      }
      var space := ProcessBlock(m, st, input);
      r := UnpadLast(padding, s, space);
    }
  }

  method ProcessBlock<S(!new)>(m: Mode<S>, st: S, block: seq<byte>) returns (out: seq<byte>)
    requires m.blockSize >= 1 && KeepsLength(m) && |block| == m.blockSize && |block| % m.blockSize == 0
    ensures out == Process(m, st, block).0 && |out| == m.blockSize
  {
    out := m.step(st, block).0;
    OneBlock(m, st, block);
  }

  /** What the filter makes of a message once it is set up: whole blocks, then the last part. */
  ghost predicate Transformed<S(!new)>(m: Mode<S>, forward: bool, padding: Padding, st: S, message: seq<byte>, r: Result<seq<byte>>)
    requires m.blockSize >= 1 && KeepsLength(m) && (padding == PKCS_PADDING ==> m.blockSize < 256)
  {
    var sizes := FilterSizes(m.blockSize, m.minLast, forward, padding);
    var h := Held(|message|, sizes);
    && h <= |message| && (|message| - h) % m.blockSize == 0
    && var (body, st1) := Process(m, st, message[..|message| - h]);
       exists last :: LastOutcome(m, forward, padding, st1, message[|message| - h..], last)
         && r == if last.Ok? then Ok(body + last.value) else last
  }

  /** Only a block cipher that steals no ciphertext can be set up with a padding that completes blocks. */
  predicate IsBlockCipher<S>(m: Mode<S>) {
    m.blockSize > 1 && m.minLast == 0
  }

  /** What the whole filter makes of a message. */
  ghost predicate Outcome<S(!new)>(m: Mode<S>, forward: bool, padding: Padding, st: S, message: seq<byte>, r: Result<seq<byte>>)
    requires m.blockSize >= 1 && KeepsLength(m) && (padding == PKCS_PADDING ==> m.blockSize < 256)
  {
    if !IsBlockCipher(m) && Recoverable(padding) then r == InvalidArgument
    else Transformed(m, forward, padding, st, message, r)
  }

  /** Processing one more block after the first i bytes. */
  lemma ProcessNextBlock<S(!new)>(m: Mode<S>, st: S, data: seq<byte>, i: nat)
    requires m.blockSize >= 1 && KeepsLength(m)
    requires i < |data| && i % m.blockSize == 0 && (|data| - i) % m.blockSize == 0
    ensures i + m.blockSize <= |data| && (i + m.blockSize) % m.blockSize == 0
    ensures (|data| - (i + m.blockSize)) % m.blockSize == 0
    ensures var (out, st1) := Process(m, st, data[..i]);
            var (x, st2) := m.step(st1, data[i..i + m.blockSize]);
            Process(m, st, data[..i + m.blockSize]) == (out + x, st2)
  {
    var s := m.blockSize;
    WholeBlock(|data| - i, s);
    ModAddMultiple(i, 1, s);
    DivModUnique(s, s, 1, 0);
    var block := data[i..i + s];
    ProcessSplit(m, st, data[..i], block);
    assert data[..i] + block == data[..i + s];
    OneBlock(m, Process(m, st, data[..i]).1, block);
  }

  lemma OneBlock<S(!new)>(m: Mode<S>, st: S, block: seq<byte>)
    requires m.blockSize >= 1 && KeepsLength(m) && |block| == m.blockSize && |block| % m.blockSize == 0
    ensures Process(m, st, block) == m.step(st, block)
  {
    assert block[..m.blockSize] == block && block[m.blockSize..] == [];
    var x := m.step(st, block).0;
    assert x + [] == x;
  }

  /** ProcessString. */
  method ProcessString<S(!new)>(m: Mode<S>, st: S, data: seq<byte>) returns (out: seq<byte>, st': S)
    requires m.blockSize >= 1 && KeepsLength(m) && |data| % m.blockSize == 0
    ensures (out, st') == Process(m, st, data)
  {
    out, st' := [], st;
    var i := 0;
    DivModUnique(0, m.blockSize, 0, 0);
    assert data[..0] == [] && (out, st') == Process(m, st, []);
    hide Process, KeepsLength;
    while i < |data|
      invariant 0 <= i <= |data| && i % m.blockSize == 0 && (|data| - i) % m.blockSize == 0
      invariant (out, st') == Process(m, st, data[..i])
    {
      ProcessNextBlock(m, st, data, i);
      var next := m.step(st', data[i..i + m.blockSize]);
      out, st' := out + next.0, next.1;
      i := i + m.blockSize;
    }
    assert data[..|data|] == data;
  }

  /** The NextPut calls of one message, in whatever groups the blocks arrive. */
  method RunNexts<S(!new)>(m: Mode<S>, st: S, calls: seq<Call>) returns (out: seq<byte>, st': S)
    requires m.blockSize >= 1 && KeepsLength(m) && WholeNexts(calls, m.blockSize)
    ensures |Data(calls)| % m.blockSize == 0
    ensures (out, st') == Process(m, st, Data(calls))
  {
    out, st' := [], st;
    assert calls[..0] == [];
    DivModUnique(0, m.blockSize, 0, 0);
    for i := 0 to |calls|
      invariant |Data(calls[..i])| % m.blockSize == 0
      invariant (out, st') == Process(m, st, Data(calls[..i]))
    {
      ProcessSplit(m, st, Data(calls[..i]), calls[i].data);
      assert calls[..i + 1] == calls[..i] + [calls[i]];
      DataAppend(calls[..i], calls[i]);
      var x, st1 := ProcessString(m, st', calls[i].data);
      out, st' := out + x, st1;
    }
    assert calls[..|calls|] == calls;
  }

  /** The calls of a message without a first part. */
  lemma MessageParts(calls: seq<Call>, message: seq<byte>, sizes: Sizes)
    requires sizes.block >= 1 && sizes.first == 0 && Complete(calls, message, sizes)
    ensures var h := Held(|message|, sizes);
            && h <= |message| && |calls| >= 2
            && WholeNexts(calls[1..|calls| - 1], sizes.block)
            && Data(calls[1..|calls| - 1]) == message[..|message| - h]
            && calls[|calls| - 1].data == message[|message| - h..]
            && (sizes.last == 0 ==> h < sizes.block)
  {
    HeldSmall(|message|, sizes);
    var h := Held(|message|, sizes);
    assert message[0..|message| - h] == message[..|message| - h];
  }

  /** The filter on a message that arrives in any pieces. */
  method RunFilter<S(!new)>(m: Mode<S>, forward: bool, padding: Padding, st: S, pieces: seq<seq<byte>>)
    returns (r: Result<seq<byte>>)
    requires m.blockSize >= 1 && KeepsLength(m) && (padding == PKCS_PADDING ==> m.blockSize < 256)
    requires m.minLast == 0 || m.minLast > m.blockSize
    ensures Outcome(m, forward, padding, st, Concat(pieces), r)
  {
    if !IsBlockCipher(m) && Recoverable(padding) {
      return InvalidArgument;
    }
    var sizes := FilterSizes(m.blockSize, m.minLast, forward, padding);
    var filter := new FilterWithBufferedInput(sizes);
    FilterMessage(filter, pieces);
    r := ApplyCalls(m, forward, padding, st, filter.messages[0], Concat(pieces));
  }

  /** The virtual functions of the filter, called as FilterWithBufferedInput calls them. */
  method ApplyCalls<S(!new)>(m: Mode<S>, forward: bool, padding: Padding, st: S, calls: seq<Call>, ghost message: seq<byte>)
    returns (r: Result<seq<byte>>)
    requires m.blockSize >= 1 && KeepsLength(m) && (padding == PKCS_PADDING ==> m.blockSize < 256)
    requires m.minLast == 0 || (m.minLast > m.blockSize && !Recoverable(padding))
    requires Complete(calls, message, FilterSizes(m.blockSize, m.minLast, forward, padding))
    ensures Transformed(m, forward, padding, st, message, r)
  {
    hide Process, LastOutcome, KeepsLength, Data, WholeNexts, Held;
    MessageParts(calls, message, FilterSizes(m.blockSize, m.minLast, forward, padding));
    var body, st1 := RunNexts(m, st, calls[1..|calls| - 1]);
    var last := LastPut(m, forward, padding, st1, calls[|calls| - 1].data);
    r := if last.Ok? then Ok(body + last.value) else last;
  }

  // ---- Recovering the message ---------------------------------------------------

  /** Enciphering with a recoverable padding fails exactly for a stream cipher, and else yields a positive number of whole blocks. */
  lemma ForwardSucceeds<S(!new)>(m: Mode<S>, padding: Padding, st: S, message: seq<byte>, r: Result<seq<byte>>)
    requires m.blockSize >= 1 && KeepsLength(m) && (padding == PKCS_PADDING ==> m.blockSize < 256)
    requires Recoverable(padding) && Outcome(m, true, padding, st, message, r)
    ensures if !IsBlockCipher(m) then r == InvalidArgument
            else r.Ok? && |r.value| == |message| - |message| % m.blockSize + m.blockSize
  {
    var s := m.blockSize;
    assert IsBlockCipher(m) ==> Held(|message|, FilterSizes(s, 0, true, padding)) == |message| % s;
  }

  /** An inverse filter holds back exactly one block of such a ciphertext. */
  lemma InverseHoldsOneBlock(n: nat, s: nat, padding: Padding)
    requires s > 1 && Recoverable(padding) && n >= s && n % s == 0
    ensures Held(n, FilterSizes(s, 0, false, padding)) == s
  {
    WholeBlock(n, s);
  }

  lemma PaddedSize(padding: Padding, s: nat, rest: seq<byte>)
    requires Recoverable(padding) && |rest| < s && (padding == PKCS_PADDING ==> s < 256)
    ensures |Padded(padding, s, rest)| == s && s % s == 0
  {
    DivModUnique(s, s, 1, 0);
  }

  /** Forward then inverse gives the message back, for any cipher that the inverse mode inverts. */
  lemma RoundTrip<S(!new)>(enc: Mode<S>, dec: Mode<S>, padding: Padding, st: S, message: seq<byte>,
                           c: Result<seq<byte>>, r: Result<seq<byte>>)
    requires IsBlockCipher(enc) && Inverts(enc, dec) && (padding == PKCS_PADDING ==> enc.blockSize < 256)
    requires Recoverable(padding)
    requires Outcome(enc, true, padding, st, message, c)
    requires c.Ok? && Outcome(dec, false, padding, st, c.value, r)
    ensures r == Ok(message)
  {
    hide Process, Padded, KeepsLength, Inverts, Outcome, LastOutcome;
    InvertsKeeps(enc, dec);
    var s := enc.blockSize;
    var n := ForwardShape(enc, padding, st, message, c);
    var rest := message[n..];
    var block := Padded(padding, s, rest);
    PaddedSize(padding, s, rest);
    var (body, st1) := Process(enc, st, message[..n]);
    var lastC := Process(enc, st1, block).0;
    ProcessInverts(enc, dec, st, message[..n]);
    ProcessInverts(enc, dec, st1, block);
    var last := InverseShape(dec, padding, st, body, lastC, r);
    RecoverLast(dec, padding, st1, lastC, rest, last);
    assert message == message[..n] + rest;
  }

  /** A last block that deciphers to a padded block yields what was padded. */
  lemma RecoverLast<S(!new)>(dec: Mode<S>, padding: Padding, st: S, lastC: seq<byte>, rest: seq<byte>, last: Result<seq<byte>>)
    requires dec.blockSize >= 1 && dec.minLast == 0 && KeepsLength(dec) && (padding == PKCS_PADDING ==> dec.blockSize < 256)
    requires Recoverable(padding) && |lastC| == dec.blockSize && |rest| < dec.blockSize && |lastC| % dec.blockSize == 0
    requires Process(dec, st, lastC).0 == Padded(padding, dec.blockSize, rest)
    requires LastOutcome(dec, false, padding, st, lastC, last)
    ensures last == Ok(rest)
  {
    hide Process, Padded, KeepsLength;
    if last.Ok? { PaddedInjective(padding, dec.blockSize, last.value, rest); }
  }

  lemma InverseShape<S(!new)>(m: Mode<S>, padding: Padding, st: S, body: seq<byte>, lastC: seq<byte>, r: Result<seq<byte>>)
    returns (last: Result<seq<byte>>)
    requires IsBlockCipher(m) && KeepsLength(m) && (padding == PKCS_PADDING ==> m.blockSize < 256)
    requires Recoverable(padding) && |body| % m.blockSize == 0 && |lastC| == m.blockSize
    requires Outcome(m, false, padding, st, body + lastC, r)
    ensures var (out, st1) := Process(m, st, body);
            LastOutcome(m, false, padding, st1, lastC, last) && r == if last.Ok? then Ok(out + last.value) else last
  {
    hide Process, Padded, LastOutcome, KeepsLength;
    var s := m.blockSize;
    ModAddMultiple(|body|, 1, s);
    InverseHoldsOneBlock(|body| + s, s, padding);
    assert (body + lastC)[..|body|] == body && (body + lastC)[|body|..] == lastC;
    var (out, st1) := Process(m, st, body);
    last :| LastOutcome(m, false, padding, st1, lastC, last) && r == if last.Ok? then Ok(out + last.value) else last;
  }

  lemma ForwardShape<S(!new)>(m: Mode<S>, padding: Padding, st: S, message: seq<byte>, c: Result<seq<byte>>) returns (n: nat)
    requires IsBlockCipher(m) && KeepsLength(m) && (padding == PKCS_PADDING ==> m.blockSize < 256)
    requires Recoverable(padding) && Outcome(m, true, padding, st, message, c)
    ensures n <= |message| < n + m.blockSize && n % m.blockSize == 0 && m.blockSize % m.blockSize == 0
    ensures |Padded(padding, m.blockSize, message[n..])| == m.blockSize
    ensures var (body, st1) := Process(m, st, message[..n]);
            c == Ok(body + Process(m, st1, Padded(padding, m.blockSize, message[n..])).0)
  {
    hide Process, Padded;
    var s := m.blockSize;
    DivMod(|message|, s);
    n := |message| - |message| % s;
    PaddedSize(padding, s, message[n..]);
    DivModUnique(s, s, 1, 0);
    assert Held(|message|, FilterSizes(s, 0, true, padding)) == |message| % s;
  }

  // ---- The paddings that do not recover --------------------------------------

  /** The zeros that complete the last block, none if it is complete. */
  function ZeroFill(n: nat, s: nat): nat requires s >= 1 {
    if n % s == 0 then 0 else s - n % s
  }

  lemma FillsBlock(n: nat, s: nat)
    requires s >= 1
    ensures (n + ZeroFill(n, s)) % s == 0
  {
    DivMod(n, s);
    if n % s != 0 {
      assert (n / s + 1) * s == n / s * s + s;
      DivModUnique(n + ZeroFill(n, s), s, n / s + 1, 0);
    }
  }

  /** The whole blocks of a message of n bytes, and what completes the last one. */
  lemma BlockPart(n: nat, s: nat) returns (k: nat)
    requires s >= 1
    ensures k <= n < k + s && k % s == 0 && Held(n, Sizes(0, s, 0)) == n - k && s % s == 0
    ensures ZeroFill(n, s) == if k == n then 0 else s - (n - k)
    ensures (n + ZeroFill(n, s)) % s == 0
  {
    DivMod(n, s);
    DivModUnique(s, s, 1, 0);
    FillsBlock(n, s);
    k := n - n % s;
    DivModUnique(k, s, n / s, 0);
  }

  lemma ZerosShape<S(!new)>(m: Mode<S>, st: S, message: seq<byte>, c: Result<seq<byte>>)
    requires m.blockSize >= 1 && m.minLast == 0 && KeepsLength(m)
    requires Outcome(m, true, ZEROS_PADDING, st, message, c)
    ensures |message + Zeros(ZeroFill(|message|, m.blockSize))| % m.blockSize == 0
    ensures c == Ok(Process(m, st, message + Zeros(ZeroFill(|message|, m.blockSize))).0)
  {
    hide Process, KeepsLength, Held, ZeroFill;
    var n := BlockPart(|message|, m.blockSize);
    var k := ZeroFill(|message|, m.blockSize);
    var rest := message[n..];
    var body := Process(m, st, message[..n]).0;
    if rest == [] {
      assert message + Zeros(0) == message && message[..n] == message && body + [] == body;
    } else {
      ProcessSplit(m, st, message[..n], rest + Zeros(k));
      assert message[..n] + (rest + Zeros(k)) == message + Zeros(k);
    }
  }

  /** An inverse filter that checks no padding just deciphers whole blocks. */
  lemma PlainInverse<S(!new)>(m: Mode<S>, padding: Padding, st: S, c: seq<byte>, r: Result<seq<byte>>)
    requires m.blockSize >= 1 && m.minLast == 0 && KeepsLength(m) && !Recoverable(padding) && |c| % m.blockSize == 0
    requires Outcome(m, false, padding, st, c, r)
    ensures r == Ok(Process(m, st, c).0)
  {
    hide Process, KeepsLength;
    var out := Process(m, st, c).0;
    assert c[..|c|] == c && out + [] == out;
  }

  /** Zero padding comes back with the message: it is recovered exactly when it filled its last block. */
  lemma ZerosRoundTrip<S(!new)>(enc: Mode<S>, dec: Mode<S>, st: S, message: seq<byte>, c: Result<seq<byte>>, r: Result<seq<byte>>)
    requires enc.blockSize >= 1 && enc.minLast == 0 && Inverts(enc, dec)
    requires Outcome(enc, true, ZEROS_PADDING, st, message, c)
    requires c.Ok? ==> Outcome(dec, false, ZEROS_PADDING, st, c.value, r)
    ensures c.Ok? && r == Ok(message + Zeros(ZeroFill(|message|, enc.blockSize)))
    ensures r == Ok(message) <==> |message| % enc.blockSize == 0
  {
    ZerosShape(enc, st, message, c);
    var filled := message + Zeros(ZeroFill(|message|, enc.blockSize));
    PlainInverse(dec, ZEROS_PADDING, st, c.value, r);
    ProcessInverts(enc, dec, st, filled);
    DivMod(|message|, enc.blockSize);
    assert |message| % enc.blockSize == 0 ==> filled == message;
  }

  /** Without padding a message is accepted exactly when it is whole blocks, and then recovered. */
  lemma NoPaddingRoundTrip<S(!new)>(enc: Mode<S>, dec: Mode<S>, st: S, message: seq<byte>, c: Result<seq<byte>>, r: Result<seq<byte>>)
    requires enc.blockSize >= 1 && enc.minLast == 0 && Inverts(enc, dec)
    requires Outcome(enc, true, NO_PADDING, st, message, c)
    requires c.Ok? ==> Outcome(dec, false, NO_PADDING, st, c.value, r)
    ensures c.Ok? <==> |message| % enc.blockSize == 0
    ensures !c.Ok? ==> c == InvalidDataFormat
    ensures c.Ok? ==> r == Ok(message)
  {
    var s := enc.blockSize;
    var h := |message| % s;
    assert Held(|message|, FilterSizes(s, 0, true, NO_PADDING)) == h;
    if h == 0 {
      assert message[..|message|] == message && message[|message|..] == [];
      var out := Process(enc, st, message).0;
      assert out + [] == out;
      ProcessInverts(enc, dec, st, message);
      PlainInverse(dec, NO_PADDING, st, out, r);
    } else {
      assert message[|message| - h..] != [];
    }
  }

  /** Exactly when which exception is thrown by a filter that steals no ciphertext and checks no padding. */
  lemma WhichException<S(!new)>(m: Mode<S>, forward: bool, padding: Padding, st: S, message: seq<byte>, r: Result<seq<byte>>)
    requires m.blockSize >= 1 && m.minLast == 0 && KeepsLength(m) && (padding == PKCS_PADDING ==> m.blockSize < 256)
    requires Outcome(m, forward, padding, st, message, r)
    ensures r == InvalidArgument <==> m.blockSize == 1 && Recoverable(padding)
    ensures r == InvalidDataFormat <==> forward && padding == NO_PADDING && |message| % m.blockSize != 0
    ensures r == InvalidCiphertext ==> !forward
    ensures !Recoverable(padding) && !forward ==> (r == InvalidCiphertext <==> |message| % m.blockSize != 0)
    ensures m.blockSize > 1 && Recoverable(padding) && !forward && |message| % m.blockSize != 0 ==> r == InvalidCiphertext
  {
    hide Process, KeepsLength, Padded;
    var s := m.blockSize;
    if !IsBlockCipher(m) && Recoverable(padding) {
    } else {
      var sizes := FilterSizes(s, 0, forward, padding);
      HeldRemainder(|message|, sizes);
      WholeIsEmpty(message, Held(|message|, sizes));
    }
  }

  /** What is held back is a whole number of blocks exactly if the message is. */
  lemma HeldRemainder(n: nat, sizes: Sizes)
    requires sizes.block >= 1 && sizes.first == 0 && (sizes.last == 0 || sizes.last == sizes.block)
    ensures sizes.last == 0 ==> Held(n, sizes) == n % sizes.block
    ensures n % sizes.block != 0 ==> Held(n, sizes) != sizes.block
  {
    var s := sizes.block;
    DivMod(n, s);
    if n % s != 0 && sizes.last == s && n >= s && Held(n, sizes) == s {
      ModAddMultiple(n, -1, s);
    }
  }

  lemma WholeIsEmpty(message: seq<byte>, h: nat)
    requires h <= |message|
    ensures message[|message| - h..] == [] <==> h == 0
  {
    assert |message[|message| - h..]| == h;
  }

  // ---- Ciphertext stealing -----------------------------------------------------

  /** The last part comes back where it is accepted. */
  ghost predicate InvertsLast<S(!new)>(enc: Mode<S>, dec: Mode<S>) {
    forall st: S, b: seq<byte> :: LastComesBack(enc, dec, st, b)
  }

  ghost predicate LastComesBack<S(!new)>(enc: Mode<S>, dec: Mode<S>, st: S, b: seq<byte>) {
    enc.stepLast(st, b).Ok? ==> |enc.stepLast(st, b).value| == |b| && dec.stepLast(st, enc.stepLast(st, b).value) == Ok(b)
  }

  /** What is made of the part held back. */
  function LastPart<S>(m: Mode<S>, forward: bool, padding: Padding, st: S, rest: seq<byte>): Result<seq<byte>> {
    if rest == [] then Ok([]) else m.stepLast(st, ToSteal(m.minLast, forward, padding, rest))
  }

  /** The part held back, filled with zeros if it is too short and they are asked for. */
  function Given(minLast: nat, padding: Padding, rest: seq<byte>): seq<byte> {
    if rest == [] then [] else ToSteal(minLast, true, padding, rest)
  }

  /** What the filter does, in terms of the part held back. */
  lemma StealingSplit<S(!new)>(m: Mode<S>, forward: bool, padding: Padding, st: S, first: seq<byte>, rest: seq<byte>, r: Result<seq<byte>>)
    requires m.blockSize >= 1 && KeepsLength(m) && m.minLast > 0 && !Recoverable(padding)
    requires |rest| == Held(|first + rest|, Sizes(0, m.blockSize, m.minLast)) && Outcome(m, forward, padding, st, first + rest, r)
    ensures |first| % m.blockSize == 0
    ensures var (body, st1) := Process(m, st, first);
            var last := LastPart(m, forward, padding, st1, rest);
            r == if last.Ok? then Ok(body + last.value) else last
  {
    hide Process, KeepsLength, Held;
    assert (first + rest)[..|first|] == first && (first + rest)[|first|..] == rest;
  }

  /** Ciphertext of the same split comes apart the same way. */
  lemma SameSplit(n: nat, h: nat, k: nat, s: nat, minLast: nat)
    requires s >= 1 && h == Held(n, Sizes(0, s, minLast)) && h <= n
    requires k == h || (k == minLast && h < minLast)
    ensures Held(n - h + k, Sizes(0, s, minLast)) == k
  {
    HeldSmall(n, Sizes(0, s, minLast));
    HeldSmall(minLast, Sizes(0, s, minLast));
    if h < minLast && n < minLast { assert n == h; }
  }

  /**
   With ciphertext stealing, what is enciphered is recovered, except that a short message filled with zeros comes
   back with them.
   */
  lemma StealingRoundTrip<S(!new)>(enc: Mode<S>, dec: Mode<S>, padding: Padding, st: S, message: seq<byte>,
                                   c: Result<seq<byte>>, r: Result<seq<byte>>)
    requires enc.blockSize >= 1 && enc.minLast > 0 && Inverts(enc, dec) && InvertsLast(enc, dec) && !Recoverable(padding)
    requires Outcome(enc, true, padding, st, message, c)
    requires c.Ok? && Outcome(dec, false, padding, st, c.value, r)
    ensures r == Ok(if padding == ZEROS_PADDING && 0 < |message| < enc.minLast then message + Zeros(enc.minLast - |message|)
                    else message)
    ensures r == Ok(message) <==> padding == NO_PADDING || message == [] || |message| >= enc.minLast
  {
    hide Process, KeepsLength, Inverts, InvertsLast, LastComesBack, Outcome, Held, ToSteal, LastPart, Given;
    var s, minLast := enc.blockSize, enc.minLast;
    var h := Held(|message|, Sizes(0, s, minLast));
    InvertsKeeps(enc, dec);
    HeldAtMost(|message|, s, minLast);
    var first, rest := message[..|message| - h], message[|message| - h..];
    assert message == first + rest;
    StealingSplit(enc, true, padding, st, first, rest, c);
    var (body, st1) := Process(enc, st, first);
    var given := Given(minLast, padding, rest);
    var lastC := LastPart(enc, true, padding, st1, rest).value;
    LastBack(enc, dec, padding, st1, rest, lastC);
    SameSplit(|message|, h, |lastC|, s, minLast);
    ProcessInverts(enc, dec, st, first);
    StealingSplit(dec, false, padding, st, body, lastC, r);
    WholeGiven(minLast, padding, message, first, rest, s);
  }

  lemma HeldAtMost(n: nat, s: nat, minLast: nat)
    requires s >= 1
    ensures Held(n, Sizes(0, s, minLast)) <= n
  {
    HeldSmall(n, Sizes(0, s, minLast));
    if n >= minLast { DivMod(n - minLast, s); }
  }

  lemma InvertsKeeps<S(!new)>(enc: Mode<S>, dec: Mode<S>)
    requires Inverts(enc, dec)
    ensures KeepsLength(enc) && KeepsLength(dec) && enc.blockSize == dec.blockSize && enc.minLast == dec.minLast
  {}

  /** The last part of the ciphertext comes back as what was given. */
  lemma LastBack<S(!new)>(enc: Mode<S>, dec: Mode<S>, padding: Padding, st: S, rest: seq<byte>, lastC: seq<byte>)
    requires InvertsLast(enc, dec) && enc.minLast == dec.minLast && LastPart(enc, true, padding, st, rest) == Ok(lastC)
    ensures var given := Given(enc.minLast, padding, rest);
            && LastPart(dec, false, padding, st, lastC) == Ok(given)
            && (|lastC| == |rest| || (|lastC| == enc.minLast && |rest| < enc.minLast))
  {
    var given := Given(enc.minLast, padding, rest);
    assert LastComesBack(enc, dec, st, given);
    Filled(enc.minLast, padding, rest);
  }

  /** What is given to be stolen from is the rest, or as long as the minimum. */
  lemma Filled(minLast: nat, padding: Padding, rest: seq<byte>)
    ensures var given := Given(minLast, padding, rest);
            && (|given| == |rest| || (|given| == minLast && |rest| < minLast)) && (rest != [] ==> given != [])
            && ToSteal(minLast, false, padding, given) == given
  {}

  /** Filling up the part held back is filling up the message. */
  lemma WholeGiven(minLast: nat, padding: Padding, message: seq<byte>, first: seq<byte>, rest: seq<byte>, s: nat)
    requires s >= 1 && message == first + rest && |rest| == Held(|message|, Sizes(0, s, minLast)) && minLast > 0
    requires !Recoverable(padding)
    ensures var given := Given(minLast, padding, rest);
            && first + given == (if padding == ZEROS_PADDING && 0 < |message| < minLast then message + Zeros(minLast - |message|)
                                 else message)
            && (first + given == message <==> padding == NO_PADDING || message == [] || |message| >= minLast)
  {
    HeldSmall(|message|, Sizes(0, s, minLast));
    hide Held;
    if |message| < minLast {
      assert first == [] && rest == message;
      assert [] + Given(minLast, padding, rest) == Given(minLast, padding, rest);
    }
  }
}
