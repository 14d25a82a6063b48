/** Adler-32 of adler32.cpp, against the sums of section 2.2 of RFC 1950. */
module Adler {
  import opened Arithmetic
  import opened Bytes

  const BASE: nat := 65521

  /** What fits in the 32 bits that unsigned long is guaranteed. */
  const LONG_SIZE: nat := 0x1_0000_0000

  datatype Sums = Sums(s1: nat, s2: nat)

  /** The two sums, reduced after every byte. */
  function Checksum(start: Sums, data: seq<byte>): (r: Sums)
    requires start.s1 < BASE && start.s2 < BASE
    ensures r.s1 < BASE && r.s2 < BASE
  {
    if data == [] then start
    else OneMore(Checksum(start, data[..|data| - 1]), data[|data| - 1])
  }

  /** One more byte. */
  function OneMore(before: Sums, b: byte): Sums {
    var s1 := (before.s1 + b) % BASE;
    Sums(s1, (before.s2 + s1) % BASE)
  }

  lemma ChecksumLast(start: Sums, data: seq<byte>)
    requires start.s1 < BASE && start.s2 < BASE && data != []
    ensures Checksum(start, data) == OneMore(Checksum(start, data[..|data| - 1]), data[|data| - 1])
  {}

  /** Checksumming in two parts. */
  lemma {:induction false} ChecksumConcat(start: Sums, a: seq<byte>, b: seq<byte>)
    requires start.s1 < BASE && start.s2 < BASE
    ensures Checksum(start, a + b) == Checksum(Checksum(start, a), b)
  {
    if b == [] {
      assert a + b == a;
    } else {
      var n := |b| - 1;
      ChecksumLast(start, a + b);
      ChecksumLast(Checksum(start, a), b);
      hide Checksum, OneMore;
      ChecksumConcat(start, a, b[..n]);
      assert (a + b)[..|a| + n] == a + b[..n];
    }
  }

  /** The sum of the first n bytes, unreduced. */
  function ByteSum(data: seq<byte>): nat {
    if data == [] then 0 else ByteSum(data[..|data| - 1]) + data[|data| - 1]
  }

  /** The bytes with weights n, n - 1, ..., 1, unreduced. */
  function WeightedSum(data: seq<byte>): nat {
    if data == [] then 0 else |data| * data[0] + WeightedSum(data[1..])
  }

  /** With one byte more, every weight grows by one. */
  lemma {:induction false} WeightedSumLast(data: seq<byte>)
    requires data != []
    ensures WeightedSum(data) == WeightedSum(data[..|data| - 1]) + ByteSum(data)
  {
    var n := |data| - 1;
    if n == 0 {
      assert data[1..] == [] && data[..0] == [];
    } else {
      hide WeightedSum, ByteSum;
      WeightedSumFirst(data);
      WeightedSumFirst(data[..n]);
      WeightedSumLast(data[1..]);
      ByteSumFirst(data);
      assert data[1..][..n - 1] == data[..n][1..];
      OneFactorMore(n, data[0]);
    }
  }

  lemma WeightedSumFirst(data: seq<byte>)
    requires data != []
    ensures WeightedSum(data) == |data| * data[0] + WeightedSum(data[1..])
  {}

  lemma {:induction false} ByteSumFirst(data: seq<byte>)
    requires data != []
    ensures ByteSum(data) == data[0] + ByteSum(data[1..])
  {
    var n := |data| - 1;
    if n == 0 {
      assert data[1..] == [] && data[..0] == [];
    } else {
      ByteSumFirst(data[..n]);
      assert data[..n][1..] == data[1..][..n - 1];
    }
  }

  lemma ReduceEarly(s: nat, b: nat)
    ensures (s % BASE + b) % BASE == (s + b) % BASE
  {
    var q, r := (s % BASE + b) / BASE, (s % BASE + b) % BASE;
    DivModUnique(s + b, BASE, s / BASE + q, r);
  }

  /** s1 is the starting value plus all bytes, modulo 65521. */
  lemma {:induction false} ChecksumIsByteSum(start: Sums, data: seq<byte>)
    requires start.s1 < BASE && start.s2 < BASE
    ensures Checksum(start, data).s1 == (start.s1 + ByteSum(data)) % BASE
  {
    if data != [] {
      var before := data[..|data| - 1];
      ChecksumIsByteSum(start, before);
      ChecksumLast(start, data);
      hide Checksum;
      ReduceEarly(start.s1 + ByteSum(before), data[|data| - 1]);
    }
  }

  /** The sums of n bytes with sum and weighted sum as given, in closed form. */
  function ClosedForm(start: Sums, n: nat, sum: nat, weighted: nat): Sums {
    Sums((start.s1 + sum) % 65521, (start.s2 + n * start.s1 + weighted) % 65521)
  }

  lemma OneMoreClosed(start: Sums, n: nat, sum: nat, weighted: nat, b: byte)
    ensures OneMore(ClosedForm(start, n, sum, weighted), b) == ClosedForm(start, n + 1, sum + b, weighted + (sum + b))
  {
    var s1, s2 := start.s1 + sum, start.s2 + n * start.s1 + weighted;
    OneFactorMore(n, start.s1);
    ReduceEarly(s1, b);
    ReduceEarly(s2, (s1 + b) % BASE);
    ReduceEarly(s1 + b, s2);
  }

  lemma OneFactorMore(n: nat, m: nat)
    ensures (n + 1) * m == n * m + m
  {}

  lemma {:induction false} ChecksumIsClosed(start: Sums, data: seq<byte>)
    requires start.s1 < BASE && start.s2 < BASE
    ensures Checksum(start, data) == ClosedForm(start, |data|, ByteSum(data), WeightedSum(data))
  {
    hide Checksum, WeightedSum, ByteSum, OneMore, ClosedForm;
    if data == [] {
      NothingSummed(start);
    } else {
      var n := |data| - 1;
      ChecksumIsClosed(start, data[..n]);
      ChecksumLast(start, data);
      ByteSumLast(data);
      WeightedSumLast(data);
      OneMoreClosed(start, n, ByteSum(data[..n]), WeightedSum(data[..n]), data[n]);
    }
  }

  lemma NothingSummed(start: Sums)
    requires start.s1 < BASE && start.s2 < BASE
    ensures Checksum(start, []) == ClosedForm(start, 0, 0, 0) && ByteSum([]) == 0 && WeightedSum([]) == 0
  {}

  lemma ByteSumLast(data: seq<byte>)
    requires data != []
    ensures ByteSum(data) == ByteSum(data[..|data| - 1]) + data[|data| - 1]
  {}

  /**
   * The closed form of both sums, modulo 65521: s1 grows by every byte once, and s2, of n bytes, by n times the old s1
   * and by every byte as often as there are bytes from it to the end.
   */
  lemma ChecksumClosedForm(start: Sums, data: seq<byte>)
    requires start.s1 < BASE && start.s2 < BASE
    ensures Checksum(start, data).s1 == (start.s1 + ByteSum(data)) % 65521
    ensures Checksum(start, data).s2 == (start.s2 + |data| * start.s1 + WeightedSum(data)) % 65521
  {
    hide Checksum, WeightedSum, ByteSum;
    ChecksumIsClosed(start, data);
  }

  /** Unreduced sums that stand for the reduced ones. */
  ghost predicate StandsFor(s1: nat, s2: nat, ideal: Sums) {
    s1 % BASE == ideal.s1 && s2 % BASE == ideal.s2
  }

  ghost function Ideal(start: Sums, data: seq<byte>, i: nat): (r: Sums)
    requires start.s1 < BASE && start.s2 < BASE && i <= |data|
    ensures r.s1 < BASE && r.s2 < BASE
  {
    Checksum(start, data[..i])
  }

  lemma OneByte(start: Sums, data: seq<byte>, i: nat, s1: nat, s2: nat)
    requires start.s1 < BASE && start.s2 < BASE && i < |data|
    requires StandsFor(s1, s2, Ideal(start, data, i))
    ensures StandsFor(s1 + data[i], s2 + s1 + data[i], Ideal(start, data, i + 1))
  {
    hide Checksum;
    assert data[..i + 1][..i] == data[..i];
    ChecksumLast(start, data[..i + 1]);
    ReduceEarly(s1, data[i]);
    ReduceEarly(s2, (s1 + data[i]) % BASE);
    ReduceEarly(s1 + data[i], s2);
  }

  /** s1 += input[i]; s2 += s1. */
  method Absorb(s1: nat, s2: nat, data: seq<byte>, i: nat, ghost start: Sums) returns (t1: nat, t2: nat)
    requires start.s1 < BASE && start.s2 < BASE && i < |data|
    requires StandsFor(s1, s2, Ideal(start, data, i))
    requires s2 + s1 + 255 < LONG_SIZE
    ensures t1 == s1 + data[i] && t2 == s2 + t1 < LONG_SIZE
    ensures StandsFor(t1, t2, Ideal(start, data, i + 1))
  {
    OneByte(start, data, i, s1, s2);
    t1 := s1 + data[i];
    t2 := s2 + t1;
  }

  /** The unrolled body of the main loop. */
  method AbsorbEight(s1: nat, s2: nat, data: seq<byte>, i: nat, ghost start: Sums) returns (t1: nat, t2: nat)
    requires start.s1 < BASE && start.s2 < BASE && i + 8 <= |data|
    requires StandsFor(s1, s2, Ideal(start, data, i))
    requires s1 < BASE && s2 + 533340 < LONG_SIZE
    ensures StandsFor(t1, t2, Ideal(start, data, i + 8))
    ensures t1 <= s1 + 8 * 255 && t2 <= s2 + 533340
  {
    hide StandsFor, Ideal;
    t1, t2 := Absorb(s1, s2, data, i, start);
    t1, t2 := Absorb(t1, t2, data, i + 1, start);
    t1, t2 := Absorb(t1, t2, data, i + 2, start);
    t1, t2 := Absorb(t1, t2, data, i + 3, start);
    t1, t2 := Absorb(t1, t2, data, i + 4, start);
    t1, t2 := Absorb(t1, t2, data, i + 5, start);
    t1, t2 := Absorb(t1, t2, data, i + 6, start);
    t1, t2 := Absorb(t1, t2, data, i + 7, start);
  }

  lemma EightsBelow(n: nat)
    requires n % 8 != 0
    ensures n >= 1 && (n - 1) - (n - 1) % 8 == n - n % 8
  {}

  /** Reducing either sum changes nothing about what it stands for. */
  lemma Reduced(s1: nat, s2: nat, ideal: Sums)
    requires StandsFor(s1, s2, ideal)
    ensures s1 >= BASE ==> StandsFor(s1 - BASE, s2, ideal) && StandsFor(s1 - BASE, s2 % BASE, ideal)
    ensures StandsFor(s1, s2 % BASE, ideal)
  {
  }

  /** How many passes of the main loop there have been since s2 was last reduced, at most. */
  function PassesSinceReduction(length: nat): nat {
    if length % 0x8000 == 0 then 0 else (0x8000 - length % 0x8000) / 8
  }

  lemma Finished(start: Sums, input: seq<byte>, s1: nat, s2: nat)
    requires start.s1 < BASE && start.s2 < BASE && s1 < BASE && s2 < BASE
    requires StandsFor(s1, s2, Ideal(start, input, |input|))
    ensures Sums(s1, s2) == Checksum(start, input)
  {
    hide Checksum;
    assert input[..|input|] == input;
    AlreadyReduced(s1, s2, Ideal(start, input, |input|));
  }

  lemma AlreadyReduced(s1: nat, s2: nat, ideal: Sums)
    requires StandsFor(s1, s2, ideal) && s1 < BASE && s2 < BASE
    ensures Sums(s1, s2) == ideal
  {
  }

  lemma OnePass(length: nat)
    requires length >= 8 && length % 8 == 0
    ensures PassesSinceReduction(length) <= 4095 && (length - 8) % 8 == 0
    ensures (length - 8) % 0x8000 != 0 ==> PassesSinceReduction(length - 8) == PassesSinceReduction(length) + 1
    ensures (length - 8) % 0x8000 == 0 ==> PassesSinceReduction(length - 8) == 0
  {
    var w := length / 8;
    var q, r := w / 4096, w % 4096;
    DivModUnique(length, 0x8000, q, 8 * r);
    DivModUnique(length - 8, 8, w - 1, 0);
    if r == 0 {
      DivModUnique(length - 8, 0x8000, q - 1, 0x8000 - 8);
    } else {
      DivModUnique(length - 8, 0x8000, q, 8 * r - 8);
    }
  }

  class Adler32 {
    var s1: nat
    var s2: nat

    ghost predicate Valid()
      reads this
    {
      s1 < BASE && s2 < BASE
    }

    constructor ()
      ensures Valid() && s1 == 1 && s2 == 0
    {
      s1, s2 := 1, 0;
    }

    /** The loop for the bytes that do not make up a group of eight. */
    method AbsorbOdd(input: seq<byte>) returns (t1: nat, t2: nat, length: nat)
      requires Valid()
      ensures length == |input| - |input| % 8
      ensures t1 < BASE && t2 < BASE
      ensures StandsFor(t1, t2, Ideal(Sums(s1, s2), input, |input| - length))
    {
      ghost var start := Sums(s1, s2);
      t1, t2, length := s1, s2, |input|;
      assert input[..0] == [] && StandsFor(t1, t2, Ideal(start, input, 0));
      hide StandsFor, Ideal;
      if length % 8 != 0 {
        t1, t2 := Absorb(t1, t2, input, 0, start);
        EightsBelow(length);
        length := length - 1;
        while length % 8 != 0
          invariant |input| - 8 < length < |input| && length - length % 8 == |input| - |input| % 8
          invariant t1 <= s1 + 255 * (|input| - length) && t2 <= BASE + 600000 * (|input| - length)
          invariant StandsFor(t1, t2, Ideal(start, input, |input| - length))
        {
          t1, t2 := Absorb(t1, t2, input, |input| - length, start);
          EightsBelow(length);
          length := length - 1;
        }
        Reduced(t1, t2, Ideal(start, input, |input| - length));
        if t1 >= BASE { t1 := t1 - BASE; }
        t2 := t2 % BASE;
      }
    }

    /** Continue the checksum with input; s2 fits in 32 bits throughout and one subtraction reduces s1. */
    method Update(input: seq<byte>)
      requires Valid()
      modifies this
      ensures Valid()
      ensures Sums(s1, s2) == Checksum(Sums(old(s1), old(s2)), input)
    {
      ghost var start := Sums(s1, s2);
      var t1: nat, t2: nat, length: nat := AbsorbOdd(input);
      hide StandsFor, Ideal, PassesSinceReduction;
      while length > 0
        invariant 0 <= length <= |input| && length % 8 == 0
        invariant t1 < BASE && StandsFor(t1, t2, Ideal(start, input, |input| - length))
        invariant t2 <= BASE - 1 + 533340 * PassesSinceReduction(length)
        invariant length == 0 ==> t2 < BASE
      {
        OnePass(length);
        t1, t2 := AbsorbEight(t1, t2, input, |input| - length, start);
        length := length - 8;
        Reduced(t1, t2, Ideal(start, input, |input| - length));
        if t1 >= BASE { t1 := t1 - BASE; }
        if length % 0x8000 == 0 { t2 := t2 % BASE; }
      }
      Finished(start, input, t1, t2);
      s1, s2 := t1, t2;
    }

    /** The leading octets of the number s2 * 65536 + s1, if that many can be had; then start over. */
    method TruncatedFinal(size: nat) returns (ok: bool, hash: seq<byte>)
      requires Valid()
      modifies this
      ensures ok <==> size <= 4
      ensures ok ==> |hash| == size && Value(hash) == (old(s2) * 65536 + old(s1)) / Pow2(8 * (4 - size))
      ensures ok ==> s1 == 1 && s2 == 0
      ensures !ok ==> s1 == old(s1) && s2 == old(s2)
    {
      if size > 4 { return false, []; }
      var all: seq<byte> := [s2 / 256, s2 % 256, s1 / 256, s1 % 256];
      ok, hash := true, all[..size];
      FourOctets(all);
      LeadingOctets(all, size);
      s1, s2 := 1, 0;
    }
  }

  lemma FourOctets(s: seq<byte>)
    requires |s| == 4
    ensures var a: int, b: int, c: int, d: int := s[0], s[1], s[2], s[3];
            Value(s) == 65536 * (256 * a + b) + (256 * c + d)
  {
    var a: int, b: int, c: int := s[0], s[1], s[2];
    assert s[..3][..2] == s[..2] && s[..2][..1] == s[..1] && s[..1][..0] == [];
    assert Value(s[..1]) == a;
    assert Value(s[..2]) == 256 * a + b;
    assert Value(s[..3]) == 65536 * a + 256 * b + c;
  }

  /** The first k octets of a number are the number without its other octets. */
  lemma {:induction false} LeadingOctets(s: seq<byte>, k: nat)
    requires k <= |s|
    ensures Value(s[..k]) == Value(s) / Pow2(8 * (|s| - k))
  {
    if k == |s| {
      assert s[..k] == s;
    } else {
      var n := |s| - 1;
      LeadingOctets(s[..n], k);
      assert s[..n][..k] == s[..k];
      Pow2Values();
      Pow2Add(8, 8 * (n - k));
      hide Pow2, Value;
      DivDiv(Value(s), 256, Pow2(8 * (n - k)));
      LastOctet(s);
    }
  }

  lemma LastOctet(s: seq<byte>)
    requires s != []
    ensures Value(s) / 256 == Value(s[..|s| - 1])
  {}

  /** A message put in two updates is checksummed as one. */
  method UpdateTwice(h: Adler32, a: seq<byte>, b: seq<byte>)
    requires h.Valid()
    modifies h
    ensures h.Valid() && Sums(h.s1, h.s2) == Checksum(Sums(old(h.s1), old(h.s2)), a + b)
  {
    ChecksumConcat(Sums(h.s1, h.s2), a, b);
    h.Update(a);
    h.Update(b);
  }
}
