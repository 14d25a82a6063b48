/** CMAC of cmac.cpp: the subkeys, and a MAC whose last block is held back until it is known to be last. */
module Cmac {
  import opened Arithmetic
  import opened Bytes
  import opened Gf2Polynomials

  // ---- Doubling in the field --------------------------------------------------------

  /**
   The low terms of the polynomial that defines GF(2^(8n)): x^64 + x^4 + x^3 + x + 1, x^128 + x^7 + x^2 + x + 1
   (section 2.3 of RFC 4493) and x^256 + x^10 + x^5 + x^2 + 1.
   */
  function FieldPolynomial(n: nat): nat {
    if n == 8 then 0x1b else if n == 16 then 0x87 else if n == 32 then 0x425 else 0
  }

  /** What MulU adds when a bit is shifted out: for 32 bytes it is x^10 + x^5 + x + 1. */
  function AddedPolynomial(n: nat): nat {
    if n == 8 then 0x1b else if n == 16 then 0x87 else if n == 32 then 0x423 else 0
  }

  predicate SupportedBlock(n: nat) { n == 8 || n == 16 || n == 32 }

  /** r is twice v modulo x^(8n) and the low terms given. */
  ghost predicate IsDoubleModulo(v: nat, r: nat, n: nat, low: nat) {
    r < Pow2(8 * n) && Congruent(2 * v, r, Pow2(8 * n) + low)
  }

  /** r is twice v, as elements of GF(2^(8n)). */
  ghost predicate IsDouble(v: nat, r: nat, n: nat) {
    IsDoubleModulo(v, r, n, FieldPolynomial(n))
  }

  lemma {:induction false} ValueBound(s: seq<byte>)
    ensures Value(s) < Pow2(8 * |s|)
  {
    if s != [] {
      ValueBound(s[..|s| - 1]);
      Pow2Times256(|s| - 1);
    }
  }

  lemma Pow2Times256(k: nat)
    ensures Pow2(8 * (k + 1)) == 256 * Pow2(8 * k)
  {
    Pow2Values();
    Pow2Add(8, 8 * k);
  }

  /** Doubling digit by digit: c[j] is the carry out of digit j. */
  ghost predicate DigitDoubled(s: seq<byte>, t: seq<byte>, c: seq<int>, j: nat)
    requires j < |s| == |t| && |c| == |s| + 1
  {
    t[j] + 256 * c[j] == 2 * s[j] + c[j + 1]
  }

  lemma {:induction false} DigitsDoubled(s: seq<byte>, t: seq<byte>, c: seq<int>, m: nat)
    requires m <= |s| == |t| && |c| == |s| + 1
    requires forall j :: 0 <= j < |s| ==> DigitDoubled(s, t, c, j)
    ensures Value(t[..m]) + c[0] * Pow2(8 * m) == 2 * Value(s[..m]) + c[m]
  {
    if m > 0 {
      DigitsDoubled(s, t, c, m - 1);
      assert s[..m][..m - 1] == s[..m - 1] && t[..m][..m - 1] == t[..m - 1];
      assert Value(s[..m]) == 256 * Value(s[..m - 1]) + s[m - 1] && Value(t[..m]) == 256 * Value(t[..m - 1]) + t[m - 1];
      assert DigitDoubled(s, t, c, m - 1);
      hide Value, Pow2;
      Pow2Times256(m - 1);
      Scale256(c[0], Pow2(8 * (m - 1)));
    }
  }

  lemma Scale256(c: int, p: int)
    ensures c * (256 * p) == 256 * (c * p)
  {}

  /** One pass of the loop of MulU: two digits, with the carries between them crossing over. */
  method DoublePair(k: array<byte>, i: nat, carryIn: byte) returns (carry: byte, ghost middle: byte)
    requires 1 <= i < k.Length && carryIn <= 1
    modifies k
    ensures carry <= 1 && middle <= 1
    ensures k[i] + 256 * middle == 2 * old(k[i]) + carryIn
    ensures k[i - 1] + 256 * carry == 2 * old(k[i - 1]) + middle
    ensures forall j :: 0 <= j < k.Length && j != i && j != i - 1 ==> k[j] == old(k[j])
  {
    var low: int, high: int := k[i], k[i - 1];
    var carry2 := low / 128;
    k[i] := (low + low + carryIn) % 256;
    carry := high / 128;
    k[i - 1] := (high + high + carry2) % 256;
    middle := carry2;
  }

  /** A pair of digits more is doubled. */
  lemma DoubledStill(s: seq<byte>, t: seq<byte>, u: seq<byte>, c: seq<int>, c': seq<int>, i: nat)
    requires 1 <= i < |s| == |t| == |u| && |c| == |c'| == |s| + 1
    requires forall j :: i < j < |s| ==> DigitDoubled(s, t, c, j)
    requires forall j :: i < j < |s| ==> u[j] == t[j] && c'[j] == c[j]
    requires c'[|s|] == c[|s|] && DigitDoubled(s, u, c', i) && DigitDoubled(s, u, c', i - 1)
    ensures forall j :: i - 2 < j < |s| ==> DigitDoubled(s, u, c', j)
  {
    forall j | i - 2 < j < |s| ensures DigitDoubled(s, u, c', j) {
      if j > i { assert DigitDoubled(s, t, c, j); }
    }
  }

  lemma PairDoubled(s: seq<byte>, t: seq<byte>, c: seq<int>, i: nat)
    requires 1 <= i < |s| == |t| && |c| == |s| + 1
    requires t[i] + 256 * c[i] == 2 * s[i] + c[i + 1] && t[i - 1] + 256 * c[i - 1] == 2 * s[i - 1] + c[i]
    ensures DigitDoubled(s, t, c, i) && DigitDoubled(s, t, c, i - 1)
  {}

  /** The digits behind i are doubled, with the given carry into digit i. */
  ghost predicate Doubling(s: seq<byte>, t: seq<byte>, c: seq<int>, i: int, carry: byte) {
    && -1 <= i < |s| == |t| && |c| == |s| + 1 && c[|s|] == 0 && c[i + 1] == carry <= 1
    && (forall j :: 0 <= j <= i ==> t[j] == s[j])
    && (forall j :: i < j < |s| ==> DigitDoubled(s, t, c, j))
  }

  lemma DoublingStart(s: seq<byte>, c: seq<int>)
    requires |c| == |s| + 1 && c[|s|] == 0
    ensures Doubling(s, s, c, |s| - 1, 0)
  {}

  /** The bytes that make up pairs, from the end: all, or all but the first. */
  function Paired(s: seq<byte>): (r: seq<byte>)
    ensures |r| == |s| - |s| % 2
  {
    s[|s| % 2..]
  }

  /** t is s with the pairs shifted left by one bit and an odd byte in front left alone. */
  ghost predicate Shifted(s: seq<byte>, t: seq<byte>, carry: byte) {
    && |s| == |t| && (|s| % 2 == 1 ==> t[0] == s[0]) && carry <= 1
    && Value(Paired(t)) + (if carry == 0 then 0 else Pow2(8 * |Paired(s)|)) == 2 * Value(Paired(s))
  }

  lemma DoublingEnd(s: seq<byte>, t: seq<byte>, c: seq<int>, carry: byte)
    requires Doubling(s, t, c, |s| % 2 - 1, carry)
    ensures Shifted(s, t, carry)
  {
    hide Value, Pow2, DigitDoubled;
    var p := |s| % 2;
    var s', t', c' := s[p..], t[p..], c[p..];
    forall j | 0 <= j < |s'| ensures DigitDoubled(s', t', c', j) {
      TailDoubled(s, t, c, p, j);
    }
    DigitsDoubled(s', t', c', |s'|);
    assert s'[..|s'|] == s' && t'[..|s'|] == t';
  }

  lemma TailDoubled(s: seq<byte>, t: seq<byte>, c: seq<int>, p: nat, j: nat)
    requires p + j < |s| == |t| && |c| == |s| + 1 && DigitDoubled(s, t, c, p + j)
    ensures DigitDoubled(s[p..], t[p..], c[p..], j)
  {}

  /** One pass of the loop. */
  method DoubleNext(k: array<byte>, i: nat, carryIn: byte, ghost s: seq<byte>, ghost c: seq<int>)
      returns (carry: byte, ghost c': seq<int>)
    requires 1 <= i < k.Length && Doubling(s, k[..], c, i, carryIn)
    modifies k
    ensures Doubling(s, k[..], c', i - 2, carry)
  {
    hide DigitDoubled;
    ghost var t := k[..];
    ghost var middle;
    carry, middle := DoublePair(k, i, carryIn);
    c' := c[i := middle][i - 1 := carry];
    PairDoubled(s, k[..], c', i);
    DoubledStill(s, t, k[..], c, c', i);
  }

  /** MulU before the reduction: shift left by one bit, two bytes at a time from the end. */
  method ShiftLeft(k: array<byte>) returns (carry: byte)
    modifies k
    ensures Shifted(old(k[..]), k[..], carry)
  {
    hide Value, Pow2, DigitDoubled, Doubling, Shifted;
    carry := 0;
    ghost var s := k[..];
    var n := k.Length;
    ghost var c: seq<int> := seq(n + 1, _ => 0);
    var i := n - 1;
    DoublingStart(s, c);
    while i >= 1
      invariant -1 <= i && (n - 1 - i) % 2 == 0 && Doubling(s, k[..], c, i, carry)
    {
      carry, c := DoubleNext(k, i, carry, s, c);
      i := i - 2;
    }
    DoublingEnd(s, k[..], c, carry);
  }

  lemma XorLowByte(h: nat, b: byte, p: byte)
    ensures Xor(256 * h + b, p) == 256 * h + Xor(b, p)
    ensures Xor(b, p) < 256
  {
    Pow2Values();
    hide Xor, Shl, Pow2;
    XorBound(b, p, 8);
    DigitAndRest(h, b);
    DigitAndRest(h, Xor(b, p));
    XorAssoc(Shl(h, 8), b, p);
  }

  function ByteXor(a: byte, b: byte): byte {
    XorLowByte(0, a, b);
    Xor(a, b)
  }

  lemma LastByteXor(s: seq<byte>, p: byte)
    requires s != []
    ensures Value(s[|s| - 1 := ByteXor(s[|s| - 1], p)]) == Xor(Value(s), p)
  {
    var n := |s| - 1;
    assert s[n := ByteXor(s[n], p)][..n] == s[..n];
    XorLowByte(Value(s[..n]), s[n], p);
  }

  lemma LastTwoBytesXor(s: seq<byte>, p: byte, q: byte)
    requires |s| >= 2
    ensures Value(s[|s| - 2 := ByteXor(s[|s| - 2], p)][|s| - 1 := ByteXor(s[|s| - 1], q)]) == Xor(Value(s), 256 * p + q)
  {
    var n := |s| - 1;
    var t := s[..n];
    var t' := t[n - 1 := ByteXor(t[n - 1], p)];
    LastByteXor(t, p);
    assert s[n - 1 := ByteXor(s[n - 1], p)][n := ByteXor(s[n], q)][..n] == t';
    XorTwoDigits(Value(t), s[n], p, q);
  }

  lemma XorTwoDigits(h: nat, b: byte, p: nat, q: byte)
    ensures Xor(256 * h + b, 256 * p + q) == 256 * Xor(h, p) + Xor(b, q)
  {
    Pow2Values();
    hide Xor, Shl, Pow2;
    XorBound(b, q, 8);
    XorShl(h, p, 8);
    DigitAndRest(h, b);
    DigitAndRest(p, q);
    DigitAndRest(Xor(h, p), Xor(b, q));
    XorSwapInner(Shl(h, 8), b, Shl(p, 8), q);
  }

  lemma DigitAndRest(h: nat, b: nat)
    requires b < 256
    ensures Xor(Shl(h, 8), b) == 256 * h + b
  {
    hide Xor, Shl;
    Pow2Values();
    ShlIsMultiplication(h, 8);
    XorDisjoint(h, b, 8);
  }

  lemma PolynomialFits(n: nat, poly: nat)
    requires SupportedBlock(n) && (poly == FieldPolynomial(n) || poly == AddedPolynomial(n))
    ensures poly < Pow2(8 * n)
  {
    Pow2Values();
    if n != 8 {
      Pow2Monotone(16, 8 * n);
    } else {
      Pow2Monotone(8, 8 * n);
    }
  }

  /** Dropping the carry out of the top and adding the low terms is reduction. */
  lemma DoubleReduced(v: nat, low: nat, n: nat, poly: nat)
    requires poly < Pow2(8 * n) && low < Pow2(8 * n) && 2 * v == Pow2(8 * n) + low
    ensures IsDoubleModulo(v, Xor(low, poly), n, poly)
  {
    hide Xor, Pow2, Shl, Congruent;
    var top := Pow2(8 * n);
    XorBound(low, poly, 8 * n);
    ShlOne(8 * n);
    XorDisjoint(1, low, 8 * n);
    XorDisjoint(1, poly, 8 * n);
    CongruentAddModulus(2 * v, top + poly);
    XorSwapInner(top, low, top, poly);
    XorSelf(top);
    XorZero(Xor(low, poly));
  }

  /** There is only one double. */
  lemma DoubleUnique(v: nat, r: nat, r': nat, n: nat, poly: nat)
    requires IsDoubleModulo(v, r, n, poly) && IsDoubleModulo(v, r', n, poly)
    ensures r == r'
  {
    var p := Pow2(8 * n) + poly;
    CongruentSym(2 * v, r, p);
    CongruentTrans(r, 2 * v, r', p);
    BitCountBound(r, 8 * n);
    BitCountBound(r', 8 * n);
    BitCountBound(p, 8 * n);
    ResidueUnique(r, r', p);
  }

  /** The low terms of the three polynomials, term by term. */
  lemma FieldTerms()
    ensures FieldPolynomial(8) == Pow2(4) + Pow2(3) + Pow2(1) + Pow2(0)
    ensures FieldPolynomial(16) == Pow2(7) + Pow2(2) + Pow2(1) + Pow2(0)
    ensures FieldPolynomial(32) == Pow2(10) + Pow2(5) + Pow2(2) + Pow2(0)
  {
    Pow2Values();
    Pow2Add(2, 8);
  }

  /** For a 32-byte block, what is shifted out is replaced by something else than the field demands. */
  lemma AddedIsNoDouble(v: nat, low: nat)
    requires low < Pow2(256) && 2 * v == Pow2(256) + low
    ensures !IsDouble(v, Xor(low, 0x423), 32)
  {
    hide Xor, Pow2;
    PolynomialFits(32, 0x425);
    DoubleReduced(v, low, 32, 0x425);
    if IsDouble(v, Xor(low, 0x423), 32) {
      DoubleUnique(v, Xor(low, 0x423), Xor(low, 0x425), 32, 0x425);
      XorCancel(low, 0x423);
      XorCancel(low, 0x425);
    }
  }

  /** The element x^255, of which MulU makes x^10 + x^5 + x + 1 where the field has x^10 + x^5 + x^2 + 1. */
  lemma TopBitIsNotDoubled()
    ensures Value([0x80] + Zeros(31)) == Pow2(255)
    ensures IsDouble(Pow2(255), 0x425, 32) && !IsDouble(Pow2(255), 0x423, 32)
  {
    TopBitValue(31);
    PolynomialFits(32, 0x425);
    XorZero(0x425);
    XorZero(0x423);
    DoubleReduced(Pow2(255), 0, 32, 0x425);
    AddedIsNoDouble(Pow2(255), 0);
  }

  lemma {:induction false} TopBitValue(n: nat)
    ensures Value([0x80] + Zeros(n)) == Pow2(8 * n + 7)
  {
    var s := [0x80] + Zeros(n);
    if n == 0 {
      assert s == [0x80] && s[..0] == [];
      assert Value(s) == 256 * Value([]) + 0x80;
      Pow2Values();
    } else {
      TopBitValue(n - 1);
      assert s[..n] == [0x80] + Zeros(n - 1);
      Pow2Values();
      Pow2Add(8, 8 * (n - 1) + 7);
    }
  }

  // ---- The polynomial for 32 bytes defines no field ------------------------------------

  /** x^3 = 1 modulo x^2 + x + 1. */
  lemma CubeModuloSeven()
    ensures Congruent(8, 1, 7)
  {
    hide Clmul, Xor, Pow2, Shl;
    Pow2Values();
    ShlOne(3);
    ClmulStep(3, 7);
    ClmulOne(7);
    // 7 + 14 = 9 = 8 + 1
    XorComm(7, 14);
    ShlOne(3);
    XorDisjoint(1, 6, 3);
    XorDisjoint(1, 7, 3);
    XorDisjoint(1, 1, 3);
    XorAssoc(8, 6, 7);
    ShlIsMultiplication(3, 1);
    XorDisjoint(3, 1, 1);
    XorCancel(6, 1);
  }

  lemma {:induction false} PowerModuloSeven(k: nat)
    ensures Congruent(Pow2(3 * k), 1, 7) && Congruent(2 * Pow2(3 * k), 2, 7) && Congruent(4 * Pow2(3 * k), 4, 7)
  {
    hide *;
    if k == 0 {
      CongruentRefl(1, 7);
      PowerZero();
    } else {
      var p := Pow2(3 * (k - 1));
      PowerModuloSeven(k - 1);
      CubeStep(k);
      CubeModuloSeven();
      CongruentDouble(4 * p, 4, 7);
      CongruentTrans(8 * p, 8, 1, 7);
    }
    CongruentDouble(Pow2(3 * k), 1, 7);
    CongruentDouble(2 * Pow2(3 * k), 2, 7);
  }

  lemma PowerZero()
    ensures Pow2(0) == 1
  {}

  lemma CubeStep(k: nat)
    requires k >= 1
    ensures Pow2(3 * k) == 8 * Pow2(3 * (k - 1))
  {
    Pow2Values();
    Pow2Add(3, 3 * (k - 1));
  }

  /** x^10 + x^5 + x + 1 = x modulo x^2 + x + 1. */
  lemma AddedModuloSeven()
    ensures Congruent(0x423, 2, 7)
  {
    Pow2Values();
    Pow2Add(3, 6);
    PowerModuloSeven(3);
    PowerModuloSeven(1);
    SmallSums();
    hide *;
    CongruentXor(0x400, 2, 0x20, 4, 7);
    CongruentRefl(3, 7);
    CongruentXor(0x420, 6, 3, 3, 7);
    CongruentTrans(0x423, 5, 2, 7);
  }

  lemma SmallSums()
    ensures Xor(0x400, 0x20) == 0x420 && Xor(2, 4) == 6 && Xor(0x420, 3) == 0x423 && Xor(6, 3) == 5
    ensures Congruent(5, 2, 7)
  {
    Pow2Values();
    Pow2Add(2, 8);
    ShlOne(10);
    XorDisjoint(1, 0x20, 10);
    ShlIsMultiplication(0x21, 5);
    XorDisjoint(0x21, 3, 5);
    assert Clmul(1, 7) == 7 == Xor(5, 2);
  }

  lemma SevenDivides(k: nat)
    requires k >= 4
    ensures Divides(7, Pow2(3 * k + 1) + 0x423) && Pow2(3 * k + 1) >= 0x423
  {
    hide Xor, Pow2, Clmul, Shl;
    var top := 2 * Pow2(3 * k);
    Pow2Values();
    Pow2Monotone(12, 3 * k);
    Pow2Add(4, 8);
    PowerModuloSeven(k);
    AddedModuloSeven();
    Pow2Step(3 * k);
    ShlOne(3 * k + 1);
    XorDisjoint(1, 0x423, 3 * k + 1);
    CongruentXor(top, 2, 0x423, 2, 7);
    XorSelf(2);
    XorZero(top + 0x423);
  }

  /** x^2 + x + 1 divides x^256 + x^10 + x^5 + x + 1, so that MulU does not compute in a field for 32 bytes. */
  lemma AddedPolynomialReducible(n: nat)
    requires n == 32
    ensures Divides(7, Pow2(8 * n) + AddedPolynomial(n)) && !Irreducible(Pow2(8 * n) + AddedPolynomial(n))
  {
    SevenDivides(85);
    hide Pow2, Clmul;
    var p := Pow2(8 * n) + AddedPolynomial(n);
    var q: nat :| Clmul(q, 7) == p;
    if q == 1 { ClmulOne(7); }
  }

  // ---- MulU ----------------------------------------------------------------------------

  /** A bit is shifted out of the pairs. */
  ghost predicate ShiftedOut(s: seq<byte>) { 2 * Value(Paired(s)) >= Pow2(8 * |Paired(s)|) }

  /** MulU doubles s: an odd byte in front is zero, or the size is not 32 or no bit is shifted out. */
  ghost predicate Doubles(s: seq<byte>) {
    if |s| % 2 == 1 then s[0] == 0 else |s| != 32 || !ShiftedOut(s)
  }

  lemma CarryMeansShiftedOut(s: seq<byte>, t: seq<byte>, carry: byte)
    requires Shifted(s, t, carry)
    ensures carry != 0 <==> ShiftedOut(s)
    ensures carry == 0 ==> Value(Paired(t)) == 2 * Value(Paired(s))
    ensures |s| % 2 == 0 ==> Paired(s) == s && Paired(t) == t
  {
    ValueBound(Paired(t));
  }

  /** Of an even number of bytes. */
  lemma EvenDoubled(s: seq<byte>, t: seq<byte>, carry: byte)
    requires |s| % 2 == 0 && Shifted(s, t, carry) && (carry == 0 || SupportedBlock(|s|))
    ensures var r := if carry == 0 then Value(t) else Xor(Value(t), AddedPolynomial(|s|));
            && IsDoubleModulo(Value(s), r, |s|, AddedPolynomial(|s|))
            && (IsDouble(Value(s), r, |s|) <==> Doubles(s))
  {
    hide Value, Xor, Pow2, Congruent;
    CarryMeansShiftedOut(s, t, carry);
    ValueBound(t);
    var v, low, n := Value(s), Value(t), |s|;
    if carry == 0 {
      CongruentRefl(2 * v, Pow2(8 * n) + FieldPolynomial(n));
      CongruentRefl(2 * v, Pow2(8 * n) + AddedPolynomial(n));
    } else {
      PolynomialFits(n, AddedPolynomial(n));
      DoubleReduced(v, low, n, AddedPolynomial(n));
      if n == 32 { AddedIsNoDouble(v, low); }
    }
  }

  lemma {:induction false} ValueFirst(s: seq<byte>)
    requires s != []
    ensures Value(s) == s[0] * Pow2(8 * (|s| - 1)) + Value(s[1..])
  {
    var n := |s| - 1;
    if n == 0 {
      assert s[..0] == [] && s[1..] == [];
    } else {
      ValueFirst(s[..n]);
      assert s[..n][1..] == s[1..][..n - 1];
      Pow2Times256(n - 1);
      hide Pow2;
      Scale256(s[0], Pow2(8 * (n - 1)));
    }
  }

  /** Of an odd number of bytes, with nothing shifted out of the pairs: the first byte should have been doubled too. */
  lemma OddDoubled(s: seq<byte>, t: seq<byte>)
    requires |s| % 2 == 1 && Shifted(s, t, 0) && FieldPolynomial(|s|) == 0
    ensures IsDouble(Value(s), Value(t), |s|) <==> Doubles(s)
  {
    hide Value, Xor, Pow2, Congruent;
    var n, a: int, p := |s|, s[0], Pow2(8 * (|s| - 1));
    ValueFirst(s);
    ValueFirst(t);
    ValueBound(t[1..]);
    ValueBound(t);
    Pow2Times256(n - 1);
    var d: int := if 2 * a < 256 then 2 * a else 2 * a - 256;
    var low := d * p + Value(t[1..]);
    Scaled(a, d, p, Value(s[1..]), Value(t[1..]));
    if 2 * a < 256 {
      CongruentRefl(2 * Value(s), Pow2(8 * n));
    } else {
      XorZero(low);
      DoubleReduced(Value(s), low, n, 0);
    }
    if IsDouble(Value(s), Value(t), n) {
      DoubleUnique(Value(s), Value(t), low, n, 0);
      SameFactor(a, d, p, Value(t[1..]));
    }
  }

  lemma Scaled(a: int, d: int, p: int, v: int, t: int)
    requires 0 <= a < 256 && 0 <= t < p && t == 2 * v && d == (if 2 * a < 256 then 2 * a else 2 * a - 256)
    ensures 0 <= d * p + t < 256 * p && 2 * (a * p + v) == (if 2 * a < 256 then 0 else 256 * p) + (d * p + t)
  {
    MulMono(0, d, p);
    MulMono(d + 1, 256, p);
    assert (d + 1) * p == d * p + p;
    assert (2 * a) * p == 2 * (a * p);
    assert (2 * a - 256) * p == (2 * a) * p - 256 * p;
  }

  lemma SameFactor(a: int, d: int, p: int, t: int)
    requires a * p + t == d * p + t && p >= 1
    ensures a == d
  {
    if a < d { MulMono(a + 1, d, p); } else if d < a { MulMono(d + 1, a, p); }
  }

  /**
   MulU.  It throws exactly for an unsupported block size with a bit shifted out of the pairs of bytes.  Where it does
   not, it doubles in the field, except for 32 bytes with a bit shifted out and for odd sizes with a first byte that is
   not zero, which it leaves alone.
   */
  method MulU(k: array<byte>) returns (ok: bool)
    modifies k
    ensures ok <==> SupportedBlock(k.Length) || !ShiftedOut(old(k[..]))
    ensures ok && k.Length % 2 == 0 ==>
              IsDoubleModulo(Value(old(k[..])), Value(k[..]), k.Length, AddedPolynomial(k.Length))
    ensures ok ==> (IsDouble(Value(old(k[..])), Value(k[..]), k.Length) <==> Doubles(old(k[..])))
    ensures !ShiftedOut(old(k[..])) ==> Shifted(old(k[..]), k[..], 0)
  {
    hide Value, Xor, Pow2, Congruent, IsDoubleModulo, IsDouble, Doubles, Shifted, ShiftedOut;
    ghost var s := k[..];
    var carry := ShiftLeft(k);
    CarryMeansShiftedOut(s, k[..], carry);
    if k.Length % 2 == 0 {
      if carry == 0 || SupportedBlock(k.Length) { EvenDoubled(s, k[..], carry); }
    } else if carry == 0 {
      OddDoubled(s, k[..]);
    }
    if carry == 0 { return true; }
    if !SupportedBlock(k.Length) { return false; }
    AddPolynomial(k);
    return true;
  }

  /** The switch at the end of MulU. */
  method AddPolynomial(k: array<byte>)
    requires SupportedBlock(k.Length)
    modifies k
    ensures Value(k[..]) == Xor(Value(old(k[..])), AddedPolynomial(k.Length))
  {
    ghost var s := k[..];
    hide Value, Xor;
    match k.Length {
      case 8 =>
        LastByteXor(s, 0x1b);
        k[7] := ByteXor(k[7], 0x1b);
        assert k[..] == s[7 := ByteXor(s[7], 0x1b)];
      case 16 =>
        LastByteXor(s, 0x87);
        k[15] := ByteXor(k[15], 0x87);
        assert k[..] == s[15 := ByteXor(s[15], 0x87)];
      case _ =>
        LastTwoBytesXor(s, 4, 0x23);
        k[30] := ByteXor(k[30], 4);
        k[31] := ByteXor(k[31], 0x23);
        assert k[..] == s[30 := ByteXor(s[30], 4)][31 := ByteXor(s[31], 0x23)];
    }
  }

  // ---- The MAC of a whole message -----------------------------------------------------

  function XorBytes(a: seq<byte>, b: seq<byte>): (r: seq<byte>)
    requires |a| == |b|
    ensures |r| == |a|
  {
    seq(|a|, i requires 0 <= i < |a| => ByteXor(a[i], b[i]))
  }

  /** A block cipher under a fixed key: a function on blocks. */
  datatype BlockCipher = BlockCipher(blockSize: nat, encrypt: seq<byte> -> seq<byte>) {
    ghost predicate Valid() {
      blockSize >= 1 && forall b: seq<byte> :: |b| == blockSize ==> |encrypt(b)| == blockSize
    }
  }

  /** One step of cipher block chaining. */
  function Step(e: BlockCipher, x: seq<byte>, block: seq<byte>): seq<byte>
    requires |x| == |block|
  {
    e.encrypt(XorBytes(x, block))
  }

  /** The last block of n bytes, padded if it is short and masked with the subkey that says so. */
  function LastBlock(e: BlockCipher, k1: seq<byte>, k2: seq<byte>, last: seq<byte>): seq<byte>
    requires |k1| == |k2| == e.blockSize && |last| <= e.blockSize
  {
    if |last| == e.blockSize then XorBytes(last, k1)
    else XorBytes(last + [0x80] + Zeros(e.blockSize - |last| - 1), k2)
  }

  /** CMAC of a message, section 2.4 of RFC 4493, continuing from chaining value x. */
  ghost function MacFrom(e: BlockCipher, k1: seq<byte>, k2: seq<byte>, x: seq<byte>, message: seq<byte>): seq<byte>
    requires e.Valid() && |k1| == |k2| == |x| == e.blockSize
    decreases |message|
  {
    if |message| <= e.blockSize then Step(e, x, LastBlock(e, k1, k2, message))
    else MacFrom(e, k1, k2, Step(e, x, message[..e.blockSize]), message[e.blockSize..])
  }

  ghost function Mac(e: BlockCipher, k1: seq<byte>, k2: seq<byte>, message: seq<byte>): seq<byte>
    requires e.Valid() && |k1| == |k2| == e.blockSize
  {
    MacFrom(e, k1, k2, Zeros(e.blockSize), message)
  }

  // ---- The same, in the words of RFC 4493 ---------------------------------------------

  /** Cipher block chaining over whole blocks. */
  ghost function Chain(e: BlockCipher, x: seq<byte>, data: seq<byte>): seq<byte>
    requires e.Valid() && |x| == e.blockSize && |data| % e.blockSize == 0
    decreases |data|
  {
    var s := e.blockSize;
    if data == [] then x
    else
      OneBlockOff(|data|, s);
      Chain(e, e.encrypt(XorBytes(x, data[..s])), data[s..])
  }

  lemma OneBlockOff(n: nat, s: nat)
    requires s >= 1 && n > 0 && n % s == 0
    ensures n >= s && (n - s) % s == 0
  {
    DivMod(n, s);
    if n < s { DivModUnique(n, s, 0, n); }
    ModAddMultiple(n, -1, s);
  }

  lemma WholeTogether(front: seq<byte>, last: seq<byte>, s: nat)
    requires s >= 1 && |last| == s && |front| % s == 0
    ensures |front + last| % s == 0
  {
    ModAddMultiple(|front|, 1, s);
  }

  lemma {:induction false} MacFromIsChain(e: BlockCipher, k1: seq<byte>, k2: seq<byte>, x: seq<byte>, front: seq<byte>, last: seq<byte>)
    requires e.Valid() && |k1| == |k2| == |x| == e.blockSize && |front| % e.blockSize == 0
    requires |last| <= e.blockSize && (last == [] ==> front == [])
    ensures var masked := LastBlock(e, k1, k2, last);
            && |front + masked| % e.blockSize == 0
            && MacFrom(e, k1, k2, x, front + last) == Chain(e, x, front + masked)
    decreases |front|
  {
    var s, masked := e.blockSize, LastBlock(e, k1, k2, last);
    WholeTogether(front, masked, s);
    hide LastBlock, XorBytes;
    if front == [] {
      assert front + last == last && front + masked == masked;
      assert masked[..s] == masked && masked[s..] == [];
      DivModUnique(0, s, 0, 0);
      assert Chain(e, e.encrypt(XorBytes(x, masked)), []) == e.encrypt(XorBytes(x, masked));
    } else {
      OneBlockOff(|front|, s);
      var y := e.encrypt(XorBytes(x, front[..s]));
      assert (front + last)[..s] == front[..s] && (front + last)[s..] == front[s..] + last;
      assert (front + masked)[..s] == front[..s] && (front + masked)[s..] == front[s..] + masked;
      XorBytesSize(x, front[..s]);
      MacFromIsChain(e, k1, k2, y, front[s..], last);
    }
  }

  lemma XorBytesSize(a: seq<byte>, b: seq<byte>)
    requires |a| == |b|
    ensures |XorBytes(a, b)| == |a| && forall i :: 0 <= i < |a| ==> 0 <= XorBytes(a, b)[i] == Xor(a[i], b[i])
  {}

  /**
   * Section 2.4 of RFC 4493: a message of whole blocks, not empty, is chained with K1 added to its last block; any
   * other with a 1 bit and zeros behind it up to the next whole block, and K2 added to its last block.
   */
  lemma MacIsChain(e: BlockCipher, k1: seq<byte>, k2: seq<byte>, front: seq<byte>, last: seq<byte>)
    requires e.Valid() && |k1| == |k2| == e.blockSize && |front| % e.blockSize == 0
    requires |last| <= e.blockSize && (last == [] ==> front == [])
    ensures var s, zero := e.blockSize, Zeros(e.blockSize);
            && (|last| == s ==>
                  && |front + XorBytes(last, k1)| % s == 0
                  && Mac(e, k1, k2, front + last) == Chain(e, zero, front + XorBytes(last, k1)))
            && (|last| < s ==>
                  var padded := last + [128] + Zeros(s - 1 - |last|);
                  && |front + XorBytes(padded, k2)| % s == 0
                  && Mac(e, k1, k2, front + last) == Chain(e, zero, front + XorBytes(padded, k2)))
  {
    hide MacFrom, Chain, XorBytes;
    MacFromIsChain(e, k1, k2, Zeros(e.blockSize), front, last);
  }

  /** Chaining whole blocks off the front of message leads from x0 to x and leaves tail. */
  ghost predicate Reaches(e: BlockCipher, x0: seq<byte>, message: seq<byte>, x: seq<byte>, tail: seq<byte>)
    requires e.Valid() && |x0| == e.blockSize
    decreases |message|
  {
    || (message == tail && x == x0)
    || (|message| >= e.blockSize && Reaches(e, Step(e, x0, message[..e.blockSize]), message[e.blockSize..], x, tail))
  }

  lemma {:induction false} ReachesMore(e: BlockCipher, x0: seq<byte>, message: seq<byte>, x: seq<byte>, tail: seq<byte>, d: seq<byte>)
    requires e.Valid() && |x0| == e.blockSize && Reaches(e, x0, message, x, tail)
    ensures Reaches(e, x0, message + d, x, tail + d)
    decreases |message|
  {
    var s := e.blockSize;
    if !(message == tail && x == x0) {
      ReachesMore(e, Step(e, x0, message[..s]), message[s..], x, tail, d);
      assert (message + d)[..s] == message[..s] && (message + d)[s..] == message[s..] + d;
    }
  }

  lemma {:induction false} ReachesNext(e: BlockCipher, x0: seq<byte>, message: seq<byte>, x: seq<byte>, tail: seq<byte>)
    requires e.Valid() && |x0| == |x| == e.blockSize && Reaches(e, x0, message, x, tail) && |tail| == e.blockSize
    ensures Reaches(e, x0, message, Step(e, x, tail), [])
    decreases |message|
  {
    var s := e.blockSize;
    if message == tail && x == x0 {
      assert message[..s] == tail && message[s..] == [];
    } else {
      ReachesNext(e, Step(e, x0, message[..s]), message[s..], x, tail);
    }
  }

  /** The MAC can be completed from where the chaining has got to, unless the last block is gone. */
  lemma {:induction false} ReachesMac(e: BlockCipher, k1: seq<byte>, k2: seq<byte>, x0: seq<byte>, message: seq<byte>,
                                      x: seq<byte>, tail: seq<byte>)
    requires e.Valid() && |k1| == |k2| == |x0| == |x| == e.blockSize
    requires Reaches(e, x0, message, x, tail) && (message != [] ==> tail != [])
    ensures MacFrom(e, k1, k2, x0, message) == MacFrom(e, k1, k2, x, tail)
    decreases |message|
  {
    var s := e.blockSize;
    if !(message == tail && x == x0) {
      ReachesMac(e, k1, k2, Step(e, x0, message[..s]), message[s..], x, tail);
    }
  }

  // ---- The register ---------------------------------------------------------------------

  /** The register after a message: the chaining value, with the tail not yet enciphered added in. */
  ghost predicate Absorbed(e: BlockCipher, reg: seq<byte>, message: seq<byte>, x: seq<byte>, tail: seq<byte>)
    requires e.Valid()
  {
    && |x| == e.blockSize && |tail| <= e.blockSize
    && Reaches(e, Zeros(e.blockSize), message, x, tail)
    && reg == XorBytes(x, tail + Zeros(e.blockSize - |tail|))
  }

  lemma XorBytesZero(a: seq<byte>)
    ensures XorBytes(a, Zeros(|a|)) == a
  {
    forall i | 0 <= i < |a| ensures ByteXor(a[i], 0) == a[i] { XorZero(a[i]); }
  }

  lemma AbsorbedStart(e: BlockCipher)
    requires e.Valid()
    ensures Absorbed(e, Zeros(e.blockSize), [], Zeros(e.blockSize), [])
  {
    XorBytesZero(Zeros(e.blockSize));
    assert [] + Zeros(e.blockSize) == Zeros(e.blockSize);
  }

  /** The register with d added in from position count on. */
  function XorAt(reg: seq<byte>, count: nat, d: seq<byte>): (r: seq<byte>)
    requires count + |d| <= |reg|
    ensures |r| == |reg|
  {
    reg[..count] + XorBytes(reg[count..count + |d|], d) + reg[count + |d|..]
  }

  lemma ByteXorZero(b: byte)
    ensures ByteXor(b, 0) == b
  {
    XorZero(b);
  }

  lemma XorAtTail(x: seq<byte>, tail: seq<byte>, d: seq<byte>)
    requires |tail| + |d| <= |x|
    ensures XorAt(XorBytes(x, tail + Zeros(|x| - |tail|)), |tail|, d) == XorBytes(x, tail + d + Zeros(|x| - |tail| - |d|))
  {
    hide ByteXor;
    var n, count := |x|, |tail|;
    var before, after := tail + Zeros(n - count), tail + d + Zeros(n - count - |d|);
    var reg := XorBytes(x, before);
    var r := XorAt(reg, count, d);
    forall i | 0 <= i < n ensures r[i] == ByteXor(x[i], after[i]) {
      if count <= i < count + |d| {
        ByteXorZero(x[i]);
        assert before[i] == 0 && reg[i] == x[i];
        assert r[i] == ByteXor(reg[i], d[i - count]);
      } else {
        assert before[i] == after[i] && r[i] == reg[i];
      }
    }
  }

  lemma AbsorbTail(e: BlockCipher, reg: seq<byte>, message: seq<byte>, x: seq<byte>, tail: seq<byte>, d: seq<byte>)
    requires e.Valid() && Absorbed(e, reg, message, x, tail) && |tail| + |d| <= e.blockSize
    ensures |reg| == e.blockSize && Absorbed(e, XorAt(reg, |tail|, d), message + d, x, tail + d)
  {
    hide Reaches, XorBytes, XorAt;
    ReachesMore(e, Zeros(e.blockSize), message, x, tail, d);
    XorAtTail(x, tail, d);
  }

  lemma FlushBlock(e: BlockCipher, reg: seq<byte>, message: seq<byte>, x: seq<byte>, tail: seq<byte>)
    requires e.Valid() && Absorbed(e, reg, message, x, tail) && |tail| == e.blockSize
    ensures |reg| == |e.encrypt(reg)| == e.blockSize && Absorbed(e, e.encrypt(reg), message, e.encrypt(reg), [])
  {
    assert tail + Zeros(0) == tail;
    ReachesNext(e, Zeros(e.blockSize), message, x, tail);
    XorBytesZero(e.encrypt(reg));
    assert [] + Zeros(e.blockSize) == Zeros(e.blockSize);
  }

  /** Neither doubling throws: the block size is supported, or the top two bits of the pairs in the encryption of zero are clear. */
  ghost predicate HasSubkeys(e: BlockCipher) {
    var l := Paired(e.encrypt(Zeros(e.blockSize)));
    SupportedBlock(e.blockSize) || 4 * Value(l) < Pow2(8 * |l|)
  }

  /** Doubling twice is multiplication by four if nothing is shifted out. */
  lemma NothingShiftedOut(l: seq<byte>)
    requires 4 * Value(Paired(l)) < Pow2(8 * |Paired(l)|)
    ensures !ShiftedOut(l) && forall first :: Shifted(l, first, 0) ==> !ShiftedOut(first)
  {}

  /** The two calls of MulU. */
  method Subkeys(e: BlockCipher) returns (k1: seq<byte>, k2: seq<byte>)
    requires e.Valid() && HasSubkeys(e)
    ensures |k1| == |k2| == e.blockSize
    ensures IsDouble(Value(e.encrypt(Zeros(e.blockSize))), Value(k1), e.blockSize) <==> Doubles(e.encrypt(Zeros(e.blockSize)))
    ensures IsDouble(Value(k1), Value(k2), e.blockSize) <==> Doubles(k1)
  {
    var s := e.blockSize;
    var l := e.encrypt(Zeros(s));
    var key := new byte[s](i requires 0 <= i < s => l[i]);
    assert key[..] == l;
    hide Value, Pow2, IsDouble, IsDoubleModulo, Doubles, Shifted, ShiftedOut;
    if !SupportedBlock(s) { NothingShiftedOut(l); }
    var ok := MulU(key);
    k1 := key[..];
    ok := MulU(key);
    k2 := key[..];
  }

  class CMAC {
    const cipher: BlockCipher
    const reg: array<byte>
    var k1: seq<byte>
    var k2: seq<byte>
    var counter: nat
    ghost var message: seq<byte>
    ghost var chaining: seq<byte>
    ghost var tail: seq<byte>

    /** The register holds the message, of which the last counter bytes are not yet enciphered. */
    ghost predicate Holds()
      reads this, reg
    {
      && cipher.Valid() && reg.Length == |k1| == |k2| == cipher.blockSize
      && counter == |tail| <= cipher.blockSize && |chaining| == cipher.blockSize
      && Absorbed(cipher, reg[..], message, chaining, tail)
    }

    ghost predicate Valid()
      reads this, reg
    {
      Holds() && (message != [] ==> counter >= 1)
    }

    /** UncheckedSetKey: the subkeys are the doubled and twice doubled encryption of zero, as far as MulU doubles. */
    constructor (cipher: BlockCipher)
      requires cipher.Valid() && HasSubkeys(cipher)
      ensures Valid() && this.cipher == cipher && message == [] && fresh(reg)
      ensures IsDouble(Value(cipher.encrypt(Zeros(cipher.blockSize))), Value(k1), cipher.blockSize)
              <==> Doubles(cipher.encrypt(Zeros(cipher.blockSize)))
      ensures IsDouble(Value(k1), Value(k2), cipher.blockSize) <==> Doubles(k1)
    {
      var s := cipher.blockSize;
      this.cipher := cipher;
      hide Value, Pow2, IsDouble, Doubles, Absorbed;
      var first, second := Subkeys(cipher);
      k1, k2 := first, second;
      counter := 0;
      message, chaining, tail := [], Zeros(s), [];
      reg := new byte[s](_ => 0);
      new;
      AbsorbedStart(cipher);
      assert reg[..] == Zeros(s);
    }

    /** xorbuf into the register behind what is there. */
    method Append(d: seq<byte>)
      requires Holds() && counter + |d| <= cipher.blockSize
      modifies reg, this`counter, this`message, this`tail
      ensures Holds() && message == old(message) + d && counter == old(counter) + |d|
    {
      AbsorbTail(cipher, reg[..], message, chaining, tail, d);
      hide Absorbed, XorAt;
      XorInto(reg, counter, d);
      counter := counter + |d|;
      message, tail := message + d, tail + d;
    }

    /** ProcessBlock on a full register. */
    method Flush()
      requires Holds() && counter == cipher.blockSize
      modifies reg, this`counter, this`chaining, this`tail
      ensures Holds() && counter == 0
    {
      FlushBlock(cipher, reg[..], message, chaining, tail);
      hide Absorbed;
      var out := cipher.encrypt(reg[..]);
      forall i | 0 <= i < reg.Length { reg[i] := out[i]; }
      assert reg[..] == out;
      counter := 0;
      chaining, tail := out, [];
    }

    /** AdvancedProcessBlocks with BT_XorInput on the register: chain in all whole blocks of data. */
    method ChainBlocks(data: seq<byte>) returns (leftOver: nat)
      requires Holds() && counter == 0
      modifies reg, this`counter, this`chaining, this`tail, this`message
      ensures Holds() && counter == 0
      ensures leftOver < cipher.blockSize && leftOver <= |data|
      ensures message == old(message) + data[..|data| - leftOver]
    {
      hide Absorbed;
      var s := cipher.blockSize;
      var i := 0;
      assert message + data[..0] == message;
      while |data| - i >= s
        invariant 0 <= i <= |data|
        invariant Holds() && counter == 0
        invariant message == old(message) + data[..i]
      {
        Append(data[i..i + s]);
        Flush();
        assert data[..i] + data[i..i + s] == data[..i + s];
        i := i + s;
      }
      leftOver := |data| - i;
    }

    /** The first part of Update: fill up a partial block, and chain it in if more input follows. */
    method FillBlock(input: seq<byte>) returns (rest: seq<byte>)
      requires Valid() && input != []
      modifies reg, this`counter, this`chaining, this`tail, this`message
      ensures Holds() && message + rest == old(message) + input
      ensures rest != [] ==> counter == 0
      ensures rest == [] ==> counter >= 1
    {
      hide Absorbed;
      rest := input;
      if counter > 0 {
        var len := Min(cipher.blockSize - counter, |input|);
        rest := input[len..];
        Append(input[..len]);
        assert old(message) + input[..len] + rest == old(message) + input;
        if counter == cipher.blockSize && |rest| > 0 {
          Flush();
        }
      }
    }

    /** Any update leaves at least one byte, and at most a block, unenciphered. */
    method Update(input: seq<byte>)
      requires Valid()
      modifies this, reg
      ensures Valid() && message == old(message) + input
      ensures k1 == old(k1) && k2 == old(k2)
      ensures input != [] ==> 1 <= counter <= cipher.blockSize
    {
      if input == [] { assert message + [] == message; return; }
      hide Absorbed;
      var rest := FillBlock(input);
      ghost var target := message + rest;
      if |rest| > cipher.blockSize {
        var data := rest[..|rest| - 1];
        var leftOver := ChainBlocks(data);
        leftOver := leftOver + 1;
        rest := rest[|rest| - leftOver..];
        assert message + rest == target;
      }
      if |rest| > 0 {
        Append(rest);
      } else {
        assert message + rest == message;
      }
    }

    /** The MAC of everything since the last one, cut to size; then start over. */
    method TruncatedFinal(size: nat) returns (mac: seq<byte>)
      requires Valid() && size <= cipher.blockSize
      modifies this, reg
      ensures Valid() && message == [] && k1 == old(k1) && k2 == old(k2)
      ensures |Mac(cipher, k1, k2, old(message))| == cipher.blockSize
      ensures mac == Mac(cipher, k1, k2, old(message))[..size]
    {
      FinalBlock(cipher, reg[..], message, chaining, tail, k1, k2);
      hide Absorbed, Mac, XorAt, XorBytes;
      if counter < cipher.blockSize {
        XorInto(reg, counter, [0x80]);
        XorInto(reg, 0, k2);
      } else {
        XorInto(reg, 0, k1);
      }
      var out := cipher.encrypt(reg[..]);
      mac := out[..size];
      Restart();
    }

    method Restart()
      requires cipher.Valid() && reg.Length == |k1| == |k2| == cipher.blockSize
      modifies reg, this`counter, this`message, this`chaining, this`tail
      ensures Valid() && message == []
    {
      counter := 0;
      forall i | 0 <= i < reg.Length { reg[i] := 0; }
      assert reg[..] == Zeros(cipher.blockSize);
      AbsorbedStart(cipher);
      message, chaining, tail := [], Zeros(cipher.blockSize), [];
    }
  }

  lemma XorBytesAssoc(a: seq<byte>, b: seq<byte>, c: seq<byte>)
    requires |a| == |b| == |c|
    ensures XorBytes(XorBytes(a, b), c) == XorBytes(a, XorBytes(b, c))
  {
    forall i | 0 <= i < |a| ensures ByteXor(ByteXor(a[i], b[i]), c[i]) == ByteXor(a[i], ByteXor(b[i], c[i])) {
      XorAssoc(a[i], b[i], c[i]);
    }
  }

  lemma XorAtWhole(reg: seq<byte>, d: seq<byte>)
    requires |d| == |reg|
    ensures XorAt(reg, 0, d) == XorBytes(reg, d)
  {
  }

  /** The register, masked as TruncatedFinal masks it, enciphers to the MAC. */
  lemma FinalBlock(e: BlockCipher, reg: seq<byte>, message: seq<byte>, x: seq<byte>, tail: seq<byte>, k1: seq<byte>, k2: seq<byte>)
    requires e.Valid() && |k1| == |k2| == e.blockSize
    requires Absorbed(e, reg, message, x, tail) && (message != [] ==> tail != [])
    ensures |reg| == e.blockSize && |Mac(e, k1, k2, message)| == e.blockSize
    ensures |tail| < e.blockSize ==> e.encrypt(XorAt(XorAt(reg, |tail|, [0x80]), 0, k2)) == Mac(e, k1, k2, message)
    ensures |tail| == e.blockSize ==> e.encrypt(XorAt(reg, 0, k1)) == Mac(e, k1, k2, message)
  {
    var s := e.blockSize;
    ReachesMac(e, k1, k2, Zeros(s), message, x, tail);
    assert Mac(e, k1, k2, message) == Step(e, x, LastBlock(e, k1, k2, tail));
    MaskedRegister(e, x, tail, k1, k2);
  }

  lemma MaskedRegister(e: BlockCipher, x: seq<byte>, tail: seq<byte>, k1: seq<byte>, k2: seq<byte>)
    requires |x| == |k1| == |k2| == e.blockSize && |tail| <= e.blockSize
    ensures var reg := XorBytes(x, tail + Zeros(e.blockSize - |tail|));
            && (|tail| < e.blockSize ==> XorAt(XorAt(reg, |tail|, [0x80]), 0, k2) == XorBytes(x, LastBlock(e, k1, k2, tail)))
            && (|tail| == e.blockSize ==> XorAt(reg, 0, k1) == XorBytes(x, LastBlock(e, k1, k2, tail)))
  {
    var reg := XorBytes(x, tail + Zeros(e.blockSize - |tail|));
    hide XorBytes, XorAt;
    if |tail| < e.blockSize {
      XorAtTail(x, tail, [0x80]);
      XorAtWhole(XorAt(reg, |tail|, [0x80]), k2);
      XorBytesAssoc(x, tail + [0x80] + Zeros(e.blockSize - |tail| - 1), k2);
    } else {
      assert tail + Zeros(0) == tail;
      XorAtWhole(reg, k1);
      XorBytesAssoc(x, tail, k1);
    }
  }

  /** xorbuf. */
  method XorInto(a: array<byte>, at: nat, d: seq<byte>)
    requires at + |d| <= a.Length
    modifies a
    ensures a[..] == XorAt(old(a[..]), at, d)
  {
    ghost var s := a[..];
    for i := 0 to |d|
      invariant forall j :: 0 <= j < a.Length && !(at <= j < at + i) ==> a[j] == s[j]
      invariant forall j :: at <= j < at + i ==> a[j] == ByteXor(s[j], d[j - at])
    {
      a[at + i] := ByteXor(a[at + i], d[i]);
    }
  }
}
