/** OBJECT IDENTIFIER values in asn.cpp (section 8.19 of ITU-T X.690). */
module AsnOid {
  import opened Arithmetic
  import opened Bytes
  import opened AsnLength

  type word32 = w: nat | w < 0x1_0000_0000

  const OBJECT_IDENTIFIER: byte := 0x06

  /** Error stands for a thrown BERDecodeErr. */
  datatype Result<+T> = Ok(value: T) | Error

  // ---- One arc ----------------------------------------------------------------------------

  /** The groups of seven bits of v with the continuation bit set, no leading zero group. */
  function Continued(v: nat): seq<byte> {
    if v == 0 then [] else Continued(v / 128) + [0x80 + v % 128]
  }

  function ArcOctets(v: nat): seq<byte> {
    Continued(v / 128) + [v % 128]
  }

  /** Number of groups of seven bits above the last. */
  function Groups(v: nat): nat {
    if v < 128 then 0 else 1 + Groups(v / 128)
  }

  function Group(v: nat, j: nat): nat {
    if j == 0 then v % 128 else Group(v / 128, j - 1)
  }

  /** The last j groups before the final one, from the top. */
  function LowGroups(v: nat, j: nat): seq<byte>
    decreases j
  {
    if j == 0 then [] else LowGroups(v / 128, j - 1) + [0x80 + v % 128]
  }

  lemma {:induction false} AllGroups(v: nat)
    ensures Continued(v / 128) == LowGroups(v / 128, Groups(v))
  {
    if v >= 128 { AllGroups(v / 128); }
  }

  lemma {:induction false} TopGroup(v: nat, j: nat)
    requires j >= 1
    ensures Group(v, j - 1) < 128 && LowGroups(v, j) == [0x80 + Group(v, j - 1)] + LowGroups(v, j - 1)
    decreases j
  {
    if j == 1 {
      assert LowGroups(v, 1) == LowGroups(v / 128, 0) + [0x80 + v % 128];
    } else {
      TopGroup(v / 128, j - 1);
      assert LowGroups(v, j) == [0x80 + Group(v / 128, j - 2)] + (LowGroups(v / 128, j - 2) + [0x80 + v % 128]);
    }
  }

  /** OID::EncodeValue, with the shift count i as 7 j. */
  method EncodeValue(bt: ByteQueue, v: word32)
    modifies bt
    ensures bt.data == old(bt.data) + ArcOctets(v)
  {
    AllGroups(v);
    var j := Groups(v);
    hide LowGroups, Continued;
    ghost var goal := old(bt.data) + LowGroups(v / 128, j);
    while j != 0
      invariant bt.data + LowGroups(v / 128, j) == goal
    {
      TopGroup(v / 128, j);
      var b: byte := 0x80 + Group(v / 128, j - 1);
      assert bt.data + ([b] + LowGroups(v / 128, j - 1)) == bt.data + [b] + LowGroups(v / 128, j - 1);
      bt.Put(b);
      j := j - 1;
    }
    NoGroups(v / 128);
    assert bt.data + [] == bt.data;
    bt.Put(v % 128);
    assert goal + [v % 128] == old(bt.data) + (LowGroups(v / 128, Groups(v)) + [v % 128]);
  }

  lemma NoGroups(v: nat)
    ensures LowGroups(v, 0) == []
  {
  }

  /** Reading an arc on top of acc: the value and the number of octets. */
  function DecodeArc(s: seq<byte>, acc: nat): Result<(nat, nat)>
    decreases |s|
  {
    if s == [] || acc >= 0x200_0000 then Error
    else
      var v := 128 * acc + s[0] % 128;
      if s[0] < 0x80 then Ok((v, 1))
      else match DecodeArc(s[1..], v)
        case Ok((w, used)) => Ok((w, used + 1))
        case Error => Error
  }

  lemma {:induction false} ArcUses(s: seq<byte>, acc: nat)
    ensures DecodeArc(s, acc).Ok? ==> 1 <= DecodeArc(s, acc).value.1 <= |s| && DecodeArc(s, acc).value.0 < 0x1_0000_0000
    decreases |s|
  {
    if s != [] && acc < 0x200_0000 && s[0] >= 0x80 { ArcUses(s[1..], 128 * acc + s[0] % 128); }
  }

  /** OID::DecodeValue. */
  method DecodeValue(bt: ByteQueue) returns (r: Result<(word32, nat)>)
    modifies bt
    ensures match DecodeArc(old(bt.data), 0)
            case Ok((v, used)) => r == Ok((v, used)) && used <= |old(bt.data)| && bt.data == old(bt.data)[used..]
            case Error => r == Error
  {
    ghost var s := bt.data;
    ArcUses(s, 0);
    var v: nat, i := 0, 0;
    while true
      invariant 0 <= i <= |s| && bt.data == s[i..] && v < 0x1_0000_0000
      invariant DecodeArc(s, 0) == match DecodeArc(bt.data, v)
                                   case Ok((w, used)) => Ok((w, used + i))
                                   case Error => Error
      decreases |bt.data|
    {
      var ok, b := bt.Get();
      if !ok { return Error; }
      i := i + 1;
      if v >= 0x200_0000 { return Error; }
      v := 128 * v + b % 128;
      if b < 0x80 { return Ok((v, i)); }
    }
  }

  lemma {:induction false} DecodeContinued(h: nat, tail: seq<byte>)
    requires h < 0x200_0000
    ensures DecodeArc(Continued(h) + tail, 0) == match DecodeArc(tail, h)
                                                 case Ok((w, used)) => Ok((w, used + |Continued(h)|))
                                                 case Error => Error
  {
    if h == 0 {
      assert Continued(0) + tail == tail;
    } else {
      var x: byte := 0x80 + h % 128;
      DecodeContinued(h / 128, [x] + tail);
      assert Continued(h) + tail == Continued(h / 128) + ([x] + tail);
      assert ([x] + tail)[1..] == tail;
    }
  }

  /** Any 32-bit arc comes back; the overflow guard does not fire. */
  lemma ArcRoundTrip(v: word32, rest: seq<byte>)
    ensures DecodeArc(ArcOctets(v) + rest, 0) == Ok((v, |ArcOctets(v)|))
  {
    DecodeContinued(v / 128, [v % 128] + rest);
    assert ArcOctets(v) + rest == Continued(v / 128) + ([v % 128] + rest);
  }

  // ---- What the octets of an arc mean --------------------------------------------------------

  /** The number that seven bits of each octet spell. */
  function SevenBits(s: seq<byte>): nat {
    if s == [] then 0 else 128 * SevenBits(s[..|s| - 1]) + s[|s| - 1] % 128
  }

  /** The last octet is marked by a clear top bit, and none but the last is. */
  ghost predicate OneArc(s: seq<byte>) {
    s != [] && s[|s| - 1] < 128 && forall i :: 0 <= i < |s| - 1 ==> s[i] >= 128
  }

  lemma {:induction false} ContinuedSpells(v: nat)
    ensures SevenBits(Continued(v)) == v && (forall i :: 0 <= i < |Continued(v)| ==> Continued(v)[i] >= 128)
    ensures v > 0 ==> Continued(v) != [] && Continued(v)[0] != 128
  {
    if v > 0 {
      ContinuedSpells(v / 128);
      var c := Continued(v / 128);
      SevenBitsSnoc(c, 0x80 + v % 128);
      hide SevenBits;
      if v / 128 == 0 { assert Continued(0) == []; }
    }
  }

  /** An arc is written in groups of seven bits, all but the last with the top bit set, and no leading group of zeros. */
  lemma ArcWritten(v: nat)
    ensures OneArc(ArcOctets(v)) && SevenBits(ArcOctets(v)) == v && (|ArcOctets(v)| > 1 ==> ArcOctets(v)[0] != 128)
  {
    ContinuedSpells(v / 128);
    hide Continued, SevenBits;
    SevenBitsSnoc(Continued(v / 128), v % 128);
    OneArcSnoc(Continued(v / 128), v % 128);
  }

  lemma SevenBitsSnoc(c: seq<byte>, b: byte)
    ensures SevenBits(c + [b]) == 128 * SevenBits(c) + b % 128
  {
    assert (c + [b])[..|c|] == c;
  }

  lemma OneArcSnoc(c: seq<byte>, b: byte)
    requires b < 128 && forall i :: 0 <= i < |c| ==> c[i] >= 128
    ensures OneArc(c + [b])
  {}

  /** An arc that is all there reads as the number it spells, unless that has more than 32 bits. */
  lemma {:induction false} ArcMeaning(s: seq<byte>, k: nat, acc: nat)
    requires k < |s| && s[k] < 128 && (forall i :: 0 <= i < k ==> s[i] >= 128) && acc < 0x1_0000_0000
    ensures var v := SevenBitsFrom(acc, s[..k + 1]);
            DecodeArc(s, acc) == if v < 0x1_0000_0000 then Ok((v, k + 1)) else Error
    decreases k
  {
    var b := 128 * acc + s[0] % 128;
    assert s[..k + 1][0] == s[0];
    if k == 0 {
      assert s[..1][1..] == [];
      assert SevenBitsFrom(acc, s[..1]) == SevenBitsFrom(b, []);
    } else {
      assert s[..k + 1][1..] == s[1..][..k];
      SevenBitsGrow(b, s[1..][..k]);
      if b < 0x1_0000_0000 { ArcMeaning(s[1..], k - 1, b); }
    }
  }

  /** Seven bits of each octet on top of acc. */
  function SevenBitsFrom(acc: nat, s: seq<byte>): nat
    decreases |s|
  {
    if s == [] then acc else SevenBitsFrom(128 * acc + s[0] % 128, s[1..])
  }

  lemma {:induction false} SevenBitsGrow(acc: nat, s: seq<byte>)
    ensures SevenBitsFrom(acc, s) >= acc
    decreases |s|
  {
    if s != [] { SevenBitsGrow(128 * acc + s[0] % 128, s[1..]); }
  }

  lemma {:induction false} SevenBitsLast(acc: nat, s: seq<byte>)
    requires s != []
    ensures SevenBitsFrom(acc, s) == 128 * SevenBitsFrom(acc, s[..|s| - 1]) + s[|s| - 1] % 128
    decreases |s|
  {
    if |s| > 1 {
      SevenBitsLast(128 * acc + s[0] % 128, s[1..]);
      assert s[1..][..|s| - 2] == s[..|s| - 1][1..];
    }
  }

  lemma {:induction false} SevenBitsFromZero(s: seq<byte>)
    ensures SevenBitsFrom(0, s) == SevenBits(s)
  {
    if s != [] {
      SevenBitsLast(0, s);
      SevenBitsFromZero(s[..|s| - 1]);
    }
  }

  /** The same for a whole arc at the front. */
  lemma ArcRead(s: seq<byte>, rest: seq<byte>)
    requires OneArc(s)
    ensures DecodeArc(s + rest, 0) == if SevenBits(s) < 0x1_0000_0000 then Ok((SevenBits(s), |s|)) else Error
  {
    var k := |s| - 1;
    assert (s + rest)[..k + 1] == s;
    ArcMeaning(s + rest, k, 0);
    SevenBitsFromZero(s);
    hide DecodeArc, SevenBits, SevenBitsFrom;
  }

  lemma KnownArcs()
    ensures ArcOctets(840) == [0x86, 0x48] && ArcOctets(113549) == [0x86, 0xf7, 0x0d]
  {
    assert Continued(0) == [];
    assert Continued(6) == [0x86];
    assert Continued(887) == [0x86, 0xf7];
  }

  /** The identifier of RSA Security, 1.2.840.113549. */
  lemma KnownIdentifier()
    ensures OidOctets([1, 2, 840, 113549]) == [0x06, 0x06, 0x2a, 0x86, 0x48, 0x86, 0xf7, 0x0d]
  {
    KnownArcs();
    hide ArcOctets;
    var values: seq<word32> := [1, 2, 840, 113549];
    assert values[2..] == [840, 113549] && values[2..][1..] == [113549] && [113549][1..] == [];
    assert Arcs([]) == [] && Arcs([113549]) == ArcOctets(113549) + [];
    assert Arcs(values[2..]) == [0x86, 0x48] + [0x86, 0xf7, 0x0d];
    assert OidContent(values) == [0x2a, 0x86, 0x48, 0x86, 0xf7, 0x0d];
  }

  // ---- The whole identifier -----------------------------------------------------------------

  function Arcs(values: seq<word32>): seq<byte> {
    if values == [] then [] else ArcOctets(values[0]) + Arcs(values[1..])
  }

  lemma {:induction false} ArcsAppend(values: seq<word32>, v: word32)
    ensures Arcs(values + [v]) == Arcs(values) + ArcOctets(v)
  {
    if values == [] {
      assert values + [v] == [v] && [v][1..] == [];
      assert ArcOctets(v) + [] == [] + ArcOctets(v);
    } else {
      ArcsAppend(values[1..], v);
      assert (values + [v])[1..] == values[1..] + [v];
      assert ArcOctets(values[0]) + (Arcs(values[1..]) + ArcOctets(v)) == ArcOctets(values[0]) + Arcs(values[1..]) + ArcOctets(v);
    }
  }

  function FirstTwoArcs(v0: int, v1: int): int { v0 * 40 + v1 }

  /** The octet for the first two arcs, as word32 arithmetic and the byte cast leave it. */
  function FirstOctet(values: seq<word32>): byte requires |values| >= 2 {
    FirstTwoArcs(values[0], values[1]) % 0x1_0000_0000 % 256
  }

  function OidContent(values: seq<word32>): seq<byte> requires |values| >= 2 {
    [FirstOctet(values)] + Arcs(values[2..])
  }

  function OidOctets(values: seq<word32>): seq<byte> requires |values| >= 2 {
    [OBJECT_IDENTIFIER] + LengthOctets(|OidContent(values)|) + OidContent(values)
  }

  /** OID::DEREncode. */
  method OidEncode(bt: ByteQueue, values: seq<word32>)
    requires |values| >= 2 && |OidContent(values)| < LWORD_SIZE
    modifies bt
    ensures bt.data == old(bt.data) + OidOctets(values)
  {
    hide ArcOctets, LengthOctets, Arcs, FirstOctet;
    var temp := new ByteQueue([]);
    temp.Put(FirstOctet(values));
    NoArcs();
    assert values[2..2] == [];
    for i := 2 to |values|
      invariant temp.data == [FirstOctet(values)] + Arcs(values[2..i]) && bt.data == old(bt.data)
      invariant fresh(temp)
    {
      EncodeValue(temp, values[i]);
      ArcsAppend(values[2..i], values[i]);
      assert values[2..i + 1] == values[2..i] + [values[i]];
    }
    assert values[2..|values|] == values[2..];
    bt.Put(OBJECT_IDENTIFIER);
    var n := DERLengthEncode(bt, |temp.data|);
    bt.PutAll(temp.data);
  }

  lemma NoArcs()
    ensures Arcs([]) == []
  {}

  /** The arcs in the next length octets, each read from all that follows. */
  function DecodeArcs(s: seq<byte>, length: nat): Result<seq<word32>>
    decreases length
  {
    if length == 0 then Ok([])
    else
      ArcUses(s, 0);
      match DecodeArc(s, 0)
      case Error => Error
      case Ok((v, used)) =>
        if used > length then Error
        else match DecodeArcs(s[used..], length - used)
          case Ok(rest) => Ok([v] + rest)
          case Error => Error
  }

  /** The values an encoding stands for, and its length. */
  function DecodeOid(s: seq<byte>): Result<(seq<word32>, nat)> {
    if s == [] || s[0] != OBJECT_IDENTIFIER then Error
    else
      LengthUses(s[1..]);
      var (l, used) := DecodeLength(s[1..]);
      if !l.Definite? || l.length < 1 || s[1 + used..] == [] then Error
      else
        var content := s[1 + used..];
        match DecodeArcs(content[1..], l.length - 1)
        case Ok(rest) => Ok(([content[0] / 40, content[0] % 40] + rest, 1 + used + l.length))
        case Error => Error
  }

  lemma {:induction false} DecodeArcsEnough(s: seq<byte>, length: nat)
    requires DecodeArcs(s, length).Ok?
    ensures length <= |s|
    decreases length
  {
    if length > 0 {
      ArcUses(s, 0);
      var used := DecodeArc(s, 0).value.1;
      DecodeArcsEnough(s[used..], length - used);
    }
  }

  /** The loop of OID::BERDecode. */
  method DecodeRest(bt: ByteQueue, lengthIn: nat) returns (r: Result<seq<word32>>)
    modifies bt
    ensures r == DecodeArcs(old(bt.data), lengthIn)
    ensures r.Ok? ==> lengthIn <= |old(bt.data)| && bt.data == old(bt.data)[lengthIn..]
  {
    hide DecodeArc;
    var length := lengthIn;
    var values: seq<word32> := [];
    ghost var s := bt.data;
    ghost var at := 0;
    assert forall rest: seq<word32> :: values + rest == rest;
    while length > 0
      invariant 0 <= length <= lengthIn && at == lengthIn - length <= |s| && bt.data == s[at..]
      invariant DecodeArcs(s, lengthIn) == match DecodeArcs(bt.data, length)
                                           case Ok(rest) => Ok(values + rest)
                                           case Error => Error
      decreases length
    {
      ArcUses(bt.data, 0);
      var one := DecodeValue(bt);
      if one.Error? { return Error; }
      var (v, valueLen) := one.value;
      if valueLen > length { return Error; }
      assert forall rest: seq<word32> :: values + ([v] + rest) == values + [v] + rest;
      values := values + [v];
      length := length - valueLen;
      at := at + valueLen;
    }
    assert values + [] == values;
    return Ok(values);
  }

  /** OID::BERDecode. */
  method OidDecode(bt: ByteQueue) returns (r: Result<seq<word32>>)
    modifies bt
    ensures match DecodeOid(old(bt.data))
            case Ok((values, used)) => r == Ok(values) && used <= |old(bt.data)| && bt.data == old(bt.data)[used..]
            case Error => r == Error
  {
    hide DecodeLength, DecodeArcs;
    ghost var s := bt.data;
    var ok, b := bt.Get();
    if !ok || b != OBJECT_IDENTIFIER { return Error; }
    assert bt.data == s[1..];
    var l := BERLengthDecode(bt);
    if !l.Definite? || l.length < 1 { return Error; }
    ghost var used := DecodeLength(s[1..]).1;
    assert bt.data == s[1 + used..];
    r := DecodeContent(bt, l.length);
    if r.Ok? {
      assert s[1 + used..][l.length..] == s[1 + used + l.length..];
    }
  }

  /** The content octets: the first two arcs share one. */
  method DecodeContent(bt: ByteQueue, length: nat) returns (r: Result<seq<word32>>)
    requires length >= 1
    modifies bt
    ensures var c := old(bt.data);
            if c == [] || DecodeArcs(c[1..], length - 1).Error? then r == Error
            else r == Ok([c[0] / 40, c[0] % 40] + DecodeArcs(c[1..], length - 1).value) && length <= |c| && bt.data == c[length..]
  {
    hide DecodeArcs;
    ghost var c := bt.data;
    var ok, b := bt.Get();
    if !ok { return Error; }
    assert bt.data == c[1..];
    var rest := DecodeRest(bt, length - 1);
    if rest.Error? { return Error; }
    assert c[1..][length - 1..] == c[length..];
    return Ok([b / 40, b % 40] + rest.value);
  }

  // ---- Round trip ---------------------------------------------------------------------------

  lemma {:induction false} ArcsRoundTrip(values: seq<word32>, tail: seq<byte>)
    ensures DecodeArcs(Arcs(values) + tail, |Arcs(values)|) == Ok(values)
  {
    hide Arcs, ArcOctets, DecodeArc, DecodeArcs;
    if values == [] {
      NoArcs();
      NothingToDecode(tail);
    } else {
      var v, rest := values[0], values[1..];
      FirstArc(values);
      ArcRoundTrip(v, Arcs(rest) + tail);
      ArcsRoundTrip(rest, tail);
      NextArc(ArcOctets(v), Arcs(rest), tail, v);
      assert [v] + rest == values;
    }
  }

  lemma FirstArc(values: seq<word32>)
    requires values != []
    ensures Arcs(values) == ArcOctets(values[0]) + Arcs(values[1..]) && ArcOctets(values[0]) != []
  {}

  lemma NothingToDecode(s: seq<byte>)
    ensures DecodeArcs([] + s, 0) == Ok([])
  {}

  lemma NextArc(octets: seq<byte>, more: seq<byte>, tail: seq<byte>, v: word32)
    requires DecodeArc(octets + (more + tail), 0) == Ok((v, |octets|)) && octets != []
    requires DecodeArcs(more + tail, |more|).Ok?
    ensures DecodeArcs(octets + more + tail, |octets + more|) == Ok([v] + DecodeArcs(more + tail, |more|).value)
  {
    hide DecodeArc;
    assert octets + more + tail == octets + (more + tail);
    assert (octets + (more + tail))[|octets|..] == more + tail;
  }

  /** What an encoded identifier decodes to: all arcs after the second come back. */
  lemma OidDecodesTo(values: seq<word32>, tail: seq<byte>)
    requires |values| >= 2 && |OidContent(values)| < LWORD_SIZE
    ensures var b := FirstOctet(values);
            DecodeOid(OidOctets(values) + tail) == Ok(([b / 40, b % 40] + values[2..], |OidOctets(values)|))
  {
    hide LengthOctets, DecodeLength, DecodeArcs, Arcs, FirstOctet;
    var content := OidContent(values);
    LengthRoundTrip(|content|, content + tail);
    OidParts(LengthOctets(|content|), FirstOctet(values), Arcs(values[2..]), tail);
    ArcsRoundTrip(values[2..], tail);
  }

  /** Where the parts of an encoding are found again. */
  lemma OidParts(octets: seq<byte>, first: byte, arcs: seq<byte>, tail: seq<byte>)
    ensures var content := [first] + arcs;
            var s := [OBJECT_IDENTIFIER] + octets + content + tail;
            && s[0] == OBJECT_IDENTIFIER && s[1..] == octets + (content + tail)
            && s[1 + |octets|..] == content + tail && (content + tail)[1..] == arcs + tail
  {}

  /** The identifier comes back exactly when its first two arcs fit the one octet they share. */
  lemma OidRoundTrip(values: seq<word32>, tail: seq<byte>)
    requires |values| >= 2 && |OidContent(values)| < LWORD_SIZE
    ensures DecodeOid(OidOctets(values) + tail) == Ok((values, |OidOctets(values)|))
            <==> values[1] < 40 && FirstTwoArcs(values[0], values[1]) < 256
  {
    hide DecodeOid, OidOctets, OidContent;
    OidDecodesTo(values, tail);
    var b := FirstOctet(values);
    assert values == [values[0], values[1]] + values[2..];
    FirstTwo(values[0], values[1], b);
    var back := [b / 40, b % 40] + values[2..];
    assert back == values <==> back[0] == values[0] && back[1] == values[1] by {
      if back[0] == values[0] && back[1] == values[1] {
        assert forall i :: 0 <= i < |values| ==> back[i] == values[i];
      }
    }
  }

  lemma SmallRemainders(a: int)
    requires 0 <= a < 256
    ensures a % 0x1_0000_0000 % 256 == a
  {}

  lemma FirstTwo(v0: int, v1: int, b: int)
    requires 0 <= v0 && 0 <= v1 && b == FirstTwoArcs(v0, v1) % 0x1_0000_0000 % 256
    ensures b / 40 == v0 && b % 40 == v1 <==> v1 < 40 && FirstTwoArcs(v0, v1) < 256
  {
    DivMod(b, 40);
    if v1 < 40 && FirstTwoArcs(v0, v1) < 256 {
      SmallRemainders(FirstTwoArcs(v0, v1));
      DivModUnique(b, 40, v0, v1);
    }
  }
}
