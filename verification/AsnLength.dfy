/** Length octets of ASN.1 BER and DER, as asn.cpp writes and reads them (sections 8.1.3 and 10.1 of ITU-T X.690). */
module AsnLength {
  import opened Arithmetic
  import opened Bytes

  /** What an lword holds. */
  const LWORD_SIZE: nat := 0x1_0000_0000_0000_0000

  class ByteQueue {
    var data: seq<byte>

    constructor (data: seq<byte>)
      ensures this.data == data
    {
      this.data := data;
    }

    method Put(b: byte)
      modifies this
      ensures data == old(data) + [b]
    {
      data := data + [b];
    }

    method PutAll(s: seq<byte>)
      modifies this
      ensures data == old(data) + s
    {
      data := data + s;
    }

    /** Take the next byte, if there is one. */
    method Get() returns (ok: bool, b: byte)
      modifies this
      ensures ok == (old(data) != [])
      ensures ok ==> old(data) == [b] + data
      ensures !ok ==> data == old(data)
    {
      if data == [] { return false, 0; }
      ok, b := true, data[0];
      data := data[1..];
    }
  }

  // ---- Big-endian numbers --------------------------------------------------------------

  /** BytePrecision. */
  function BytePrecision(n: nat): nat {
    if n == 0 then 0 else 1 + BytePrecision(n / 256)
  }

  /** The low k bytes of n. */
  function BigEndian(n: nat, k: nat): (s: seq<byte>)
    ensures |s| == k
  {
    if k == 0 then [] else BigEndian(n / 256, k - 1) + [n % 256]
  }

  lemma {:induction false} BigEndianValue(n: nat, k: nat)
    requires BytePrecision(n) <= k
    ensures Value(BigEndian(n, k)) == n
  {
    if k > 0 {
      BigEndianValue(n / 256, k - 1);
      assert BigEndian(n, k)[..k - 1] == BigEndian(n / 256, k - 1);
    }
  }

  lemma {:induction false} PrecisionBound(n: nat, k: nat)
    ensures BytePrecision(n) <= k <==> n < Pow2(8 * k)
  {
    if k > 0 {
      Pow2Values();
      Pow2Add(8, 8 * (k - 1));
      if n > 0 { PrecisionBound(n / 256, k - 1); }
    }
  }

  lemma LwordBytes(n: nat)
    ensures BytePrecision(n) <= 8 <==> n < LWORD_SIZE
    ensures BytePrecision(n) <= 7 <==> n < 0x100_0000_0000_0000
  {
    Pow2Values();
    Pow2Add(32, 32);
    Pow2Add(24, 32);
    Pow2Add(8, 16);
    PrecisionBound(n, 8);
    PrecisionBound(n, 7);
  }

  /** Byte j of n, counted from the least significant: byte(n >> 8j). */
  function ByteOf(n: nat, j: nat): byte {
    Shr(n, 8 * j) % 256
  }

  lemma {:induction false} ShrByte(n: nat, j: nat)
    ensures Shr(n, 8 * (j + 1)) == Shr(n, 8 * j) / 256
  {
    var m := Shr(n, 8 * j);
    assert Shr(n, 8 * j + 1) == m / 2;
    assert Shr(n, 8 * j + 2) == m / 4;
    assert Shr(n, 8 * j + 3) == m / 8;
    assert Shr(n, 8 * j + 4) == m / 16;
    assert Shr(n, 8 * j + 5) == m / 32;
    assert Shr(n, 8 * j + 6) == m / 64;
    assert Shr(n, 8 * j + 7) == m / 128;
    assert Shr(n, 8 * j + 8) == m / 256;
  }

  lemma {:induction false} TopByte(n: nat, j: nat)
    requires j >= 1
    ensures BigEndian(n, j) == [ByteOf(n, j - 1)] + BigEndian(n, j - 1)
  {
    if j == 1 {
      assert BigEndian(n, 1) == BigEndian(n / 256, 0) + [n % 256];
    } else {
      TopByte(n / 256, j - 1);
      ShrOfQuotient(n, j - 2);
      assert BigEndian(n, j) == [ByteOf(n / 256, j - 2)] + BigEndian(n / 256, j - 2) + [n % 256];
    }
  }

  lemma {:induction false} ShrOfQuotient(n: nat, j: nat)
    ensures Shr(n / 256, 8 * j) == Shr(n, 8 * (j + 1))
  {
    if j == 0 {
      ShrByte(n, 0);
    } else {
      ShrOfQuotient(n, j - 1);
      ShrByte(n / 256, j - 1);
      ShrByte(n, j);
    }
  }

  // ---- Encoding --------------------------------------------------------------------------

  /** The length octets of DER: short form up to 127, otherwise as few octets as will do. */
  function LengthOctets(n: nat): seq<byte> {
    if n <= 0x7f then [n]
    else [LongFormOctet(BytePrecision(n))] + BigEndian(n, BytePrecision(n))
  }

  /** 0x80 | k, for the number k of octets that follow. */
  function LongFormOctet(k: nat): byte {
    if k < 0x80 then 0x80 + k else 0xff
  }

  /** The k low bytes of n, from the top. */
  method PutBigEndian(bt: ByteQueue, n: nat, k: nat)
    modifies bt
    ensures bt.data == old(bt.data) + BigEndian(n, k)
  {
    var j := k;
    assert BigEndian(n, 0) == [];
    hide BigEndian, ByteOf;
    while j != 0
      invariant 0 <= j <= k
      invariant bt.data + BigEndian(n, j) == old(bt.data) + BigEndian(n, k)
    {
      TopByte(n, j);
      var b := ByteOf(n, j - 1);
      assert bt.data + ([b] + BigEndian(n, j - 1)) == bt.data + [b] + BigEndian(n, j - 1);
      bt.Put(b);
      j := j - 1;
    }
    assert bt.data + [] == bt.data;
  }

  method DERLengthEncode(bt: ByteQueue, length: nat) returns (i: nat)
    requires length < LWORD_SIZE
    modifies bt
    ensures bt.data == old(bt.data) + LengthOctets(length)
    ensures i == |LengthOctets(length)|
  {
    if length <= 0x7f {
      bt.Put(length);
      i := 1;
    } else {
      var k := BytePrecision(length);
      LwordBytes(length);
      hide BytePrecision, BigEndian;
      bt.Put(0x80 + k);
      PutBigEndian(bt, length, k);
      i := 1 + k;
    }
  }

  // ---- Decoding --------------------------------------------------------------------------

  /** Truncated is the return value false of BERLengthDecode, Overflow its exception. */
  datatype LengthResult = Definite(length: nat) | Indefinite | Truncated | Overflow

  /** The octets after the first, k of them still to come: the result and how many are used up. */
  function LongForm(s: seq<byte>, k: nat, acc: nat): (LengthResult, nat)
    decreases k
  {
    if k == 0 then (Definite(acc), 0)
    else if acc >= 0x100_0000_0000_0000 then (Overflow, 0)
    else if s == [] then (Truncated, 0)
    else
      var (r, used) := LongForm(s[1..], k - 1, 256 * acc + s[0]);
      (r, used + 1)
  }

  function DecodeLength(s: seq<byte>): (LengthResult, nat) {
    if s == [] then (Truncated, 0)
    else if s[0] < 0x80 then (Definite(s[0]), 1)
    else if s[0] == 0x80 then (Indefinite, 1)
    else
      var (r, used) := LongForm(s[1..], s[0] - 0x80, 0);
      (r, used + 1)
  }

  lemma {:induction false} LongFormUses(s: seq<byte>, k: nat, acc: nat)
    ensures LongForm(s, k, acc).1 <= |s|
  {
    if k > 0 && acc < 0x100_0000_0000_0000 && s != [] { LongFormUses(s[1..], k - 1, 256 * acc + s[0]); }
  }

  lemma LengthUses(s: seq<byte>)
    ensures DecodeLength(s).1 <= |s|
  {
    if s != [] && s[0] > 0x80 { LongFormUses(s[1..], s[0] - 0x80, 0); }
  }

  method BERLengthDecode(bt: ByteQueue) returns (r: LengthResult)
    modifies bt
    ensures DecodeLength(old(bt.data)).1 <= |old(bt.data)|
    ensures r == DecodeLength(old(bt.data)).0 && bt.data == old(bt.data)[DecodeLength(old(bt.data)).1..]
  {
    ghost var s := bt.data;
    LengthUses(s);
    var ok, b := bt.Get();
    if !ok { return Truncated; }
    if b < 0x80 { return Definite(b); }
    var lengthBytes := b - 0x80;
    if lengthBytes == 0 { return Indefinite; }
    var length: nat := 0;
    ghost var used := 1;
    ghost var goal := DecodeLength(s);
    hide DecodeLength;
    while lengthBytes > 0
      invariant 0 <= lengthBytes && 0 <= length && 1 <= used <= |s| && bt.data == s[used..]
      invariant goal == (LongForm(bt.data, lengthBytes, length).0, LongForm(bt.data, lengthBytes, length).1 + used)
      decreases lengthBytes
    {
      lengthBytes := lengthBytes - 1;
      if length >= 0x100_0000_0000_0000 { return Overflow; }
      ok, b := bt.Get();
      if !ok { return Truncated; }
      length := 256 * length + b;
      used := used + 1;
    }
    return Definite(length);
  }

  /** Octets read on top of acc. */
  ghost function ValueFrom(acc: nat, s: seq<byte>): nat
    decreases |s|
  {
    if s == [] then acc else ValueFrom(256 * acc + s[0], s[1..])
  }

  lemma {:induction false} ValueFromGrows(acc: nat, s: seq<byte>)
    ensures ValueFrom(acc, s) >= acc
    decreases |s|
  {
    if s != [] { ValueFromGrows(256 * acc + s[0], s[1..]); }
  }

  lemma {:induction false} ValueFromLast(acc: nat, s: seq<byte>)
    requires s != []
    ensures ValueFrom(acc, s) == 256 * ValueFrom(acc, s[..|s| - 1]) + s[|s| - 1]
    decreases |s|
  {
    if |s| > 1 {
      ValueFromLast(256 * acc + s[0], s[1..]);
      assert s[1..][..|s| - 2] == s[..|s| - 1][1..];
    }
  }

  lemma {:induction false} ValueFromZero(s: seq<byte>)
    ensures ValueFrom(0, s) == Value(s)
  {
    if s != [] {
      ValueFromLast(0, s);
      ValueFromZero(s[..|s| - 1]);
    }
  }

  /** The overflow guard fires exactly for the values that do not fit in an lword. */
  lemma {:induction false} GuardExact(s: seq<byte>, k: nat, acc: nat)
    requires k <= |s| && acc < LWORD_SIZE
    ensures var v := ValueFrom(acc, s[..k]);
            if v < LWORD_SIZE then LongForm(s, k, acc) == (Definite(v), k) else LongForm(s, k, acc).0 == Overflow
    decreases k
  {
    if k > 0 {
      assert s[..k][1..] == s[1..][..k - 1];
      ValueFromGrows(256 * acc + s[0], s[1..][..k - 1]);
      if acc < 0x100_0000_0000_0000 { GuardExact(s[1..], k - 1, 256 * acc + s[0]); }
    }
  }

  /** What length octets that are all there mean: the number they spell, an indefinite length, or an overflow. */
  lemma LengthMeaning(s: seq<byte>)
    requires s != [] && (s[0] > 128 ==> |s| > s[0] - 128)
    ensures s[0] < 128 ==> DecodeLength(s) == (Definite(s[0]), 1)
    ensures s[0] == 128 ==> DecodeLength(s) == (Indefinite, 1)
    ensures s[0] > 128 ==>
              var k := s[0] - 128;
              if Value(s[1..k + 1]) < LWORD_SIZE then DecodeLength(s) == (Definite(Value(s[1..k + 1])), k + 1)
              else DecodeLength(s).0 == Overflow
  {
    if s[0] > 128 {
      var k := s[0] - 128;
      GuardExact(s[1..], k, 0);
      assert s[1..][..k] == s[1..k + 1];
      ValueFromZero(s[1..k + 1]);
      hide LongForm, ValueFrom, Value;
    }
  }

  /** What is written: the length itself below 128, otherwise how many octets spell it, and these without leading zeros. */
  lemma LengthWritten(n: nat)
    requires n < LWORD_SIZE
    ensures var s := LengthOctets(n);
            if n < 128 then s == [n]
            else |s| >= 2 && s[0] == 128 + (|s| - 1) && Value(s[1..]) == n && s[1] != 0
  {
    if n >= 128 {
      var k := BytePrecision(n);
      LwordBytes(n);
      PrecisionPositive(n);
      BigEndianValue(n, k);
      LeadingByte(n);
      hide BigEndian, BytePrecision;
      assert LengthOctets(n)[1..] == BigEndian(n, k);
    }
  }

  /** Every 64-bit length comes back, with exactly its own octets consumed. */
  lemma LengthRoundTrip(n: nat, rest: seq<byte>)
    requires n < LWORD_SIZE
    ensures DecodeLength(LengthOctets(n) + rest) == (Definite(n), |LengthOctets(n)|)
  {
    if n > 0x7f {
      var k := BytePrecision(n);
      LwordBytes(n);
      LongFormRoundTrip(n, k, rest);
      PrecisionPositive(n);
      hide LongForm, BigEndian, BytePrecision;
      DecodeLongForm(0x80 + k, BigEndian(n, k), rest);
    }
  }

  lemma DecodeLongForm(first: byte, octets: seq<byte>, rest: seq<byte>)
    requires first > 0x80
    ensures DecodeLength([first] + octets + rest)
            == (LongForm(octets + rest, first - 0x80, 0).0, LongForm(octets + rest, first - 0x80, 0).1 + 1)
  {
    hide LongForm;
    assert ([first] + octets + rest)[1..] == octets + rest;
  }

  lemma PrecisionPositive(n: nat)
    requires n > 0
    ensures BytePrecision(n) >= 1
  {}

  lemma LongFormRoundTrip(n: nat, k: nat, rest: seq<byte>)
    requires n < LWORD_SIZE && k == BytePrecision(n)
    ensures LongForm(BigEndian(n, k) + rest, k, 0) == (Definite(n), k)
  {
    hide LongForm, ValueFrom;
    var octets := BigEndian(n, k);
    assert (octets + rest)[..k] == octets;
    GuardExact(octets + rest, k, 0);
    ValueFromZero(octets);
    BigEndianValue(n, k);
  }

  /** The encoding is the shortest: the long form is used only when needed, without leading zero octets. */
  lemma LengthMinimal(n: nat)
    requires n < LWORD_SIZE
    ensures |LengthOctets(n)| == if n <= 0x7f then 1 else 1 + BytePrecision(n)
    ensures n > 0x7f ==> LengthOctets(n)[1] != 0
  {
    if n > 0x7f {
      LeadingByte(n);
      assert LengthOctets(n)[1] == BigEndian(n, BytePrecision(n))[0];
    }
  }

  lemma {:induction false} LeadingByte(n: nat)
    requires n > 0
    ensures BytePrecision(n) >= 1 && BigEndian(n, BytePrecision(n))[0] != 0
  {
    if n / 256 > 0 {
      LeadingByte(n / 256);
    }
  }
}
