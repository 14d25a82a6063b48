/** DEREncodeUnsigned and BERDecodeUnsigned of asn.h, for an unsigned type of any size in bytes. */
module AsnUnsigned {
  import opened Arithmetic
  import opened Bytes
  import opened AsnLength
  import opened AsnOid

  const BOOLEAN: byte := 0x01

  /** Content octets that spell n as a non-negative two's complement number, none of them redundant. */
  ghost predicate IsInteger(c: seq<byte>, n: nat) {
    && |c| >= 1 && Value(c) == n && c[0] < 0x80
    && (|c| > 1 && c[0] == 0 ==> c[1] >= 0x80)
  }

  lemma {:induction false} ValueLeadingZero(c: seq<byte>)
    ensures Value([0] + c) == Value(c)
  {
    if c == [] {
      assert [0] + c == [0] && [0][..0] == [];
    } else {
      ValueLeadingZero(c[..|c| - 1]);
      assert ([0] + c)[..|c|] == [0] + c[..|c| - 1];
    }
  }

  /** Dropping leading zero bytes does not change the value. */
  lemma {:induction false} DropZeros(s: seq<byte>, k: nat)
    requires k <= |s| && forall i :: 0 <= i < k ==> s[i] == 0
    ensures Value(s[k..]) == Value(s)
  {
    if k == 0 {
      assert s[0..] == s;
    } else {
      DropZeros(s[1..], k - 1);
      assert s[1..][k - 1..] == s[k..];
      ValueLeadingZero(s[1..]);
      assert s == [0] + s[1..];
    }
  }

  /** The choice of content octets, from the bytes of w with a zero byte in front. */
  method ContentOctets(w: nat, size: nat, asnTag: byte) returns (c: seq<byte>)
    requires size >= 1 && BytePrecision(w) <= size
    ensures asnTag == BOOLEAN ==> c == [if w != 0 then 0xff else 0]
    ensures asnTag != BOOLEAN ==> IsInteger(c, w) && |c| <= size + 1
  {
    if asnTag == BOOLEAN {
      return [if w != 0 then 0xff else 0];
    }
    var buf: seq<byte> := [0] + BigEndian(w, size);
    BigEndianValue(w, size);
    ValueLeadingZero(BigEndian(w, size));
    var bc := size;
    while bc > 1 && buf[size + 1 - bc] == 0
      invariant 1 <= bc <= size
      invariant forall i :: 0 <= i < size + 1 - bc ==> buf[i] == 0
    {
      bc := bc - 1;
    }
    if buf[size + 1 - bc] >= 0x80 {
      bc := bc + 1;
    }
    c := buf[size + 1 - bc..];
    DropZeros(buf, size + 1 - bc);
  }

  method DEREncodeUnsigned(out: ByteQueue, w: nat, size: nat, asnTag: byte) returns (n: nat, ghost c: seq<byte>)
    requires size >= 1 && size + 1 < LWORD_SIZE && BytePrecision(w) <= size
    modifies out
    ensures asnTag == BOOLEAN ==> c == [if w != 0 then 0xff else 0]
    ensures asnTag != BOOLEAN ==> IsInteger(c, w) && |c| <= size + 1
    ensures out.data == old(out.data) + [asnTag] + LengthOctets(|c|) + c
    ensures n == 1 + |LengthOctets(|c|)| + |c|
  {
    var content := ContentOctets(w, size, asnTag);
    out.Put(asnTag);
    var lengthBytes := DERLengthEncode(out, |content|);
    out.PutAll(content);
    n, c := 1 + lengthBytes + |content|, content;
  }

  /** The content octets after leading zeros, once there are more than fit the type. */
  function Stripped(c: seq<byte>, size: nat): seq<byte>
    decreases |c|
  {
    if |c| > size && c[0] == 0 then Stripped(c[1..], size) else c
  }

  /** The content octets behind a tag, and how many octets that is in all; an indefinite length counts as zero. */
  function TaggedContent(s: seq<byte>, asnTag: byte): Result<(seq<byte>, nat)> {
    if s == [] || s[0] != asnTag then Error
    else
      LengthUses(s[1..]);
      var (l, used) := DecodeLength(s[1..]);
      var bc := if l.Definite? then l.length else 0;
      if l.Truncated? || l.Overflow? || |s| - 1 - used < bc then Error
      else Ok((s[1 + used..1 + used + bc], 1 + used + bc))
  }

  /** The number content octets stand for, if the type holds it and it is in range. */
  function CheckedValue(c: seq<byte>, size: nat, minValue: nat, maxValue: nat): Result<nat> {
    var st := Stripped(c, size);
    if |st| > size || Value(st) < minValue || Value(st) > maxValue then Error else Ok(Value(st))
  }

  /** What the octets decode to, and how many are used. */
  function DecodeUnsigned(s: seq<byte>, size: nat, asnTag: byte, minValue: nat, maxValue: nat): Result<(nat, nat)> {
    match TaggedContent(s, asnTag)
    case Error => Error
    case Ok((c, used)) =>
      match CheckedValue(c, size, minValue, maxValue)
      case Error => Error
      case Ok(w) => Ok((w, used))
  }

  method GetTaggedContent(input: ByteQueue, asnTag: byte) returns (r: Result<seq<byte>>)
    modifies input
    ensures match TaggedContent(old(input.data), asnTag)
            case Ok((c, used)) => r == Ok(c) && used <= |old(input.data)| && input.data == old(input.data)[used..]
            case Error => r == Error
  {
    ghost var s := input.data;
    var ok, b := input.Get();
    if !ok || b != asnTag { return Error; }
    assert input.data == s[1..];
    var l := BERLengthDecode(input);
    if l.Truncated? || l.Overflow? { return Error; }
    var bc := if l.Definite? then l.length else 0;
    if bc > |input.data| { return Error; }
    ghost var used := DecodeLength(s[1..]).1;
    hide DecodeLength;
    assert input.data == s[1 + used..];
    assert input.data[..bc] == s[1 + used..1 + used + bc];
    r := Ok(input.data[..bc]);
    input.data := input.data[bc..];
  }

  method CheckValue(c: seq<byte>, size: nat, minValue: nat, maxValue: nat) returns (r: Result<nat>)
    ensures r == CheckedValue(c, size, minValue, maxValue)
  {
    var bc, ptr := |c|, 0;
    assert c[0..] == c;
    while bc > size && c[ptr] == 0
      invariant 0 <= ptr && 0 <= bc && ptr + bc == |c|
      invariant Stripped(c, size) == Stripped(c[ptr..], size)
      decreases bc
    {
      assert c[ptr..][1..] == c[ptr + 1..];
      bc := bc - 1;
      ptr := ptr + 1;
    }
    if bc > size { return Error; }
    var w := ReadValue(c[ptr..]);
    if w < minValue || w > maxValue { return Error; }
    return Ok(w);
  }

  method BERDecodeUnsigned(input: ByteQueue, size: nat, asnTag: byte, minValue: nat, maxValue: nat) returns (r: Result<nat>)
    modifies input
    ensures match DecodeUnsigned(old(input.data), size, asnTag, minValue, maxValue)
            case Ok((w, used)) => r == Ok(w) && used <= |old(input.data)| && input.data == old(input.data)[used..]
            case Error => r == Error
  {
    hide TaggedContent, CheckedValue;
    var content := GetTaggedContent(input, asnTag);
    if content.Error? { return Error; }
    r := CheckValue(content.value, size, minValue, maxValue);
  }

  /** w = (w << 8) | byte, over all bytes. */
  method ReadValue(c: seq<byte>) returns (w: nat)
    ensures w == Value(c)
  {
    w := 0;
    assert c[..0] == [];
    for i := 0 to |c|
      invariant w == Value(c[..i])
    {
      assert c[..i + 1][..i] == c[..i];
      w := 256 * w + c[i];
    }
    assert c[..|c|] == c;
  }

  // ---- Round trip -----------------------------------------------------------------------------

  lemma {:induction false} StrippedFits(c: seq<byte>, size: nat)
    requires size >= 1 && |c| <= size + 1 && (|c| == size + 1 ==> c[0] == 0)
    ensures |Stripped(c, size)| <= size && Value(Stripped(c, size)) == Value(c)
  {
    if |c| == size + 1 {
      assert c == [0] + c[1..];
      ValueLeadingZero(c[1..]);
    }
  }

  lemma {:induction false} ValueLower(c: seq<byte>)
    requires c != []
    ensures Value(c) >= c[0] * Pow2(8 * (|c| - 1))
  {
    hide Value, Pow2;
    ValueLast(c);
    if |c| > 1 {
      ValueLower(c[..|c| - 1]);
      Pow2Values();
      Pow2Add(8, 8 * (|c| - 2));
      Pull256(c[0], Pow2(8 * (|c| - 2)));
    }
  }

  lemma ValueLast(c: seq<byte>)
    requires c != []
    ensures Value(c) >= 256 * Value(c[..|c| - 1]) && (|c| == 1 ==> Value(c) == c[0] * Pow2(0))
  {
    if |c| == 1 { assert c[..0] == []; }
  }

  lemma Pull256(b: nat, p: nat)
    ensures b * (256 * p) == 256 * (b * p)
  {}

  lemma {:induction false} ValueUpper(c: seq<byte>)
    ensures Value(c) < Pow2(8 * |c|)
  {
    if c != [] {
      ValueUpper(c[..|c| - 1]);
      Pow2Values();
      Pow2Add(8, 8 * (|c| - 1));
      hide Pow2;
    }
  }

  /**
   * Content octets of any kind, minimal or not, are read as a number without sign: it is returned exactly if it fits the
   * type and the range.
   */
  lemma {:induction false} AnyContent(c: seq<byte>, size: nat, minValue: nat, maxValue: nat)
    requires size >= 1
    ensures CheckedValue(c, size, minValue, maxValue)
         == if Value(c) < Pow2(8 * size) && minValue <= Value(c) <= maxValue then Ok(Value(c)) else Error
    decreases |c|
  {
    hide Pow2, Value;
    if |c| <= size {
      ValueUpper(c);
      Pow2Monotone(8 * |c|, 8 * size);
    } else if c[0] == 0 {
      AnyContent(c[1..], size, minValue, maxValue);
      assert c == [0] + c[1..];
      ValueLeadingZero(c[1..]);
    } else {
      ValueLower(c);
      Pow2Monotone(8 * size, 8 * (|c| - 1));
      MulMono(1, c[0], Pow2(8 * (|c| - 1)));
    }
  }

  /** Content with more bytes than the type has starts with a zero. */
  lemma ExtraByteIsZero(c: seq<byte>, w: nat, size: nat)
    requires size >= 1 && BytePrecision(w) <= size && IsInteger(c, w) && |c| == size + 1
    ensures c[0] == 0
  {
    ValueLower(c);
    PrecisionBound(w, size);
    if c[0] >= 1 { MulMono(1, c[0], Pow2(8 * size)); }
  }

  /** An encoded INTEGER of any size comes back exactly when it is in the range asked for. */
  lemma UnsignedRoundTrip(w: nat, size: nat, asnTag: byte, c: seq<byte>, rest: seq<byte>, minValue: nat, maxValue: nat)
    requires size >= 1 && size + 1 < LWORD_SIZE && BytePrecision(w) <= size
    requires IsInteger(c, w) && |c| <= size + 1
    ensures var s := [asnTag] + LengthOctets(|c|) + c;
            DecodeUnsigned(s + rest, size, asnTag, minValue, maxValue)
            == if minValue <= w <= maxValue then Ok((w, |s|)) else Error
  {
    DecodeContent(asnTag, c, rest);
    if |c| == size + 1 { ExtraByteIsZero(c, w, size); }
    StrippedFits(c, size);
  }

  /** A tag, the length of c, and c, decode as c does. */
  lemma DecodeContent(asnTag: byte, c: seq<byte>, rest: seq<byte>)
    requires |c| < LWORD_SIZE
    ensures var s := [asnTag] + LengthOctets(|c|) + c; TaggedContent(s + rest, asnTag) == Ok((c, |s|))
  {
    hide LengthOctets, DecodeLength;
    LengthRoundTrip(|c|, c + rest);
    ContentParts(asnTag, LengthOctets(|c|), c, rest);
  }

  lemma ContentParts(asnTag: byte, octets: seq<byte>, c: seq<byte>, rest: seq<byte>)
    ensures var s := [asnTag] + octets + c + rest;
            var at := 1 + |octets|;
            s[0] == asnTag && s[1..] == octets + (c + rest) && |s| >= at + |c| && s[at..at + |c|] == c
  {}

  /** An indefinite length counts as zero: the two octets stand for 0, if that is in range, whatever follows. */
  lemma IndefiniteIsZero(asnTag: byte, rest: seq<byte>, size: nat, minValue: nat, maxValue: nat)
    ensures DecodeUnsigned([asnTag, 0x80] + rest, size, asnTag, minValue, maxValue) == Ok((0, 2)) <==> minValue == 0
    ensures minValue > 0 ==> DecodeUnsigned([asnTag, 0x80] + rest, size, asnTag, minValue, maxValue) == Error
  {
    var s := [asnTag, 0x80] + rest;
    assert s[1..][0] == 0x80;
    assert DecodeLength(s[1..]) == (Indefinite, 1);
    assert s[2..2] == [];
  }

  /** The default bound 0xffffffff, as the type of the given size holds it. */
  function DefaultMax(size: nat): nat {
    if size == 1 then 0xff else if size == 2 then 0xffff else if size == 3 then 0xff_ffff else 0xffff_ffff
  }

  /** With the default bounds, types of up to 32 bits always come back; larger ones only up to 0xffffffff. */
  lemma DefaultRange(w: nat, size: nat)
    requires size >= 1 && BytePrecision(w) <= size
    ensures size <= 4 ==> w <= DefaultMax(size)
    ensures size > 4 ==> (w <= DefaultMax(size) <==> w < 0x1_0000_0000)
  {
    Pow2Values();
    Pow2Add(8, 16);
    PrecisionBound(w, size);
  }

  /** A BOOLEAN comes back as 0 or 255. */
  lemma BooleanRoundTrip(w: nat, size: nat, rest: seq<byte>, maxValue: nat)
    requires size >= 1 && maxValue >= 255
    ensures var c: seq<byte> := [if w != 0 then 0xff else 0];
            var s := [0x01, 0x01] + c;
            && [BOOLEAN] + LengthOctets(1) + c == s
            && DecodeUnsigned(s + rest, size, BOOLEAN, 0, maxValue) == Ok((if w != 0 then 255 else 0, 3))
            && (DecodeUnsigned(s + rest, size, BOOLEAN, 0, maxValue) == Ok((w, 3)) <==> w == 0 || w == 255)
  {
    var c: seq<byte> := [if w != 0 then 0xff else 0];
    DecodeContent(BOOLEAN, c, rest);
    assert c[..0] == [];
    assert Value(c) == 256 * Value([]) + c[0];
  }
}
