/** The default modulus x^32 + x^7 + x^3 + x^2 + 1 of gf2_32.h is irreducible, so that it defines a field. */
module Gf2Irreducible {
  import opened Arithmetic
  import opened Gf2Polynomials
  import opened GF2_32

  const DEFAULT_MODULUS: Word32 := 0x8D

  // ---- A functional that vanishes on multiples of the modulus ---------------------------------------

  /** The values at 1, x, ..., x^62. */
  function Word(k: nat): bv32
    requires k < 63
  {
    match k
    case 0 => 0x54fd1264 case 1 => 0xc26fcd64 case 2 => 0xc26fcd66 case 3 => 0x238a7462
    case 4 => 0xc26fcd62 case 5 => 0x973bccaa case 6 => 0x238a746a case 7 => 0x77766712
    case 8 => 0xc26fcd72 case 9 => 0xc1bdd556 case 10 => 0x973bcc8a case 11 => 0x572a094c
    case 12 => 0x238a742a case 13 => 0xb693be84 case 14 => 0x77766792 case 15 => 0x9555c03e
    case 16 => 0xc26fcc72 case 17 => 0x568419f8 case 18 => 0xc1bdd756 case 19 => 0x96c3d2ca
    case 20 => 0x973bc88a case 21 => 0x54861fdc case 22 => 0x572a014c case 23 => 0xb79badc4
    case 24 => 0x238a642a case 25 => 0xb9b99fe0 case 26 => 0xb6939e84 case 27 => 0xc519fa86
    case 28 => 0x77762792 case 29 => 0x00000000 case 30 => 0x9555403e case 31 => 0x377627ba
    case 32 => 0xc26ecc72 case 33 => 0xe1e5b916 case 34 => 0x568619f8 case 35 => 0x00000028
    case 36 => 0xc1b9d756 case 37 => 0x01a812e0 case 38 => 0x96cbd2ca case 39 => 0x5686195c
    case 40 => 0x972bc88a case 41 => 0x77726442 case 42 => 0x54a61fdc case 43 => 0x5772070c
    case 44 => 0x576a014c case 45 => 0x76927a42 case 46 => 0xb71badc4 case 47 => 0x55460fdc
    case 48 => 0x228a642a case 49 => 0x74f66792 case 50 => 0xbbb99fe0 case 51 => 0x23fc52de
    case 52 => 0xb2939e84 case 53 => 0xb7e1f1a0 case 54 => 0xcd19fa86 case 55 => 0x2de4ec9e
    case 56 => 0x67762792 case 57 => 0xc9b88e86 case 58 => 0x20000000 case 59 => 0x06caa340
    case 60 => 0xd555403e case 61 => 0x34a13c9e case _ => 0xb77627ba
  }


  function Sum(a: bv32, b: bv32): bv32 { a ^ b }

  function Twice(a: bv32): bv32 { a << 1 }

  /** The value at x^2k + x^k. */
  function Diff(k: nat): bv32
    requires k < 32
  {
    Sum(Word(2 * k), Word(k))
  }

  /** x^32 = x^7 + x^3 + x^2 + 1, and the values at x^2k + x^k are 2, 4, 8, ... */
  ghost predicate Row(k: nat)
    requires k < 31
  {
    && Word(k + 32) == Sum(Sum(Sum(Word(k), Word(k + 2)), Word(k + 3)), Word(k + 7))
    && (k >= 1 ==> Diff(k + 1) == Twice(Diff(k)))
  }

  lemma RowsTo6(k: nat)
    requires k < 6
    ensures Row(k)
  {}

  lemma RowsTo12(k: nat)
    requires 6 <= k < 12
    ensures Row(k)
  {}

  lemma RowsTo18(k: nat)
    requires 12 <= k < 18
    ensures Row(k)
  {}

  lemma RowsTo24(k: nat)
    requires 18 <= k < 24
    ensures Row(k)
  {}

  lemma RowsTo28(k: nat)
    requires 24 <= k < 28
    ensures Row(k)
  {}

  lemma RowsTo31(k: nat)
    requires 28 <= k < 31
    ensures Row(k)
  {}

  lemma Rows(k: nat)
    requires k < 31
    ensures Row(k)
  {
    hide Row;
    if k < 6 { RowsTo6(k); } else if k < 12 { RowsTo12(k); } else if k < 18 { RowsTo18(k); }
    else if k < 24 { RowsTo24(k); } else if k < 28 { RowsTo28(k); } else { RowsTo31(k); }
  }

  // ---- Bits of words ------------------------------------------------------------------------------

  predicate OneBit(u: bv32) { u != 0 && u & (u - 1) == 0 }

  predicate Bit(w: bv32, u: bv32) { w & u != 0 }

  lemma BitOfSum(a: bv32, b: bv32, u: bv32)
    requires OneBit(u)
    ensures Bit(Sum(a, b), u) == (Bit(a, u) != Bit(b, u))
  {
    MaskedSum(a, b, u);
  }

  lemma MaskedSum(a: bv32, b: bv32, u: bv32)
    requires u != 0 && u & (u - 1) == 0
    ensures ((a ^ b) & u != 0) == ((a & u != 0) != (b & u != 0))
  {}

  lemma BitOfFour(a: bv32, b: bv32, c: bv32, d: bv32, u: bv32)
    requires OneBit(u)
    ensures Bit(Sum(Sum(Sum(a, b), c), d), u) == (Bit(a, u) != (Bit(b, u) != (Bit(c, u) != Bit(d, u))))
  {
    hide OneBit, Bit, Sum;
    BitOfSum(a, b, u);
    BitOfSum(Sum(a, b), c, u);
    BitOfSum(Sum(Sum(a, b), c), d, u);
  }

  lemma {:induction false} DiffNonzero(k: nat)
    requires 1 <= k < 32
    ensures Diff(k) != 0
    decreases 32 - k
  {
    if k < 31 {
      Rows(k);
      DiffNonzero(k + 1);
      hide Diff;
    }
  }

  lemma {:induction false} DiffIsOneBit(k: nat)
    requires 1 <= k < 32
    ensures OneBit(Diff(k))
  {
    DiffNonzero(k);
    if k > 1 {
      Rows(k - 1);
      DiffIsOneBit(k - 1);
      hide Diff;
    }
  }

  /** No bit of w is at u or below. */
  predicate Above(w: bv32, u: bv32) { w & (2 * u - 1) == 0 }

  lemma AboveNext(u: bv32)
    requires OneBit(u)
    ensures Above(Twice(u), u)
  {}

  lemma AboveShifted(w: bv32, u: bv32)
    requires OneBit(u) && Above(w, u)
    ensures Above(Twice(w), u)
  {}

  lemma AboveHasNot(w: bv32, u: bv32)
    requires OneBit(u) && Above(w, u)
    ensures !Bit(w, u)
  {}

  lemma DiffTwice(k: nat)
    requires 1 <= k < 31
    ensures Diff(k + 1) == Twice(Diff(k))
  {
    hide Diff, Twice, Word;
    Rows(k);
  }

  lemma {:induction false} DiffsAbove(j: nat, k: nat)
    requires 1 <= j < k < 32
    ensures Above(Diff(k), Diff(j))
    decreases k
  {
    hide *;
    DiffTwice(k - 1);
    DiffIsOneBit(j);
    if k == j + 1 {
      AboveNext(Diff(j));
    } else {
      DiffsAbove(j, k - 1);
      AboveShifted(Diff(k - 1), Diff(j));
    }
  }

  // ---- The value at a polynomial, bit by bit --------------------------------------------------------

  /** Bit u of the value at x^k. */
  function AtPower(u: bv32, k: nat): bool {
    if k < 63 then Bit(Word(k), u)
    else AtPower(u, k - 32) != (AtPower(u, k - 30) != (AtPower(u, k - 29) != AtPower(u, k - 25)))
  }

  lemma Reduces(u: bv32, k: nat)
    requires OneBit(u)
    ensures AtPower(u, k + 32) == (AtPower(u, k) != (AtPower(u, k + 2) != (AtPower(u, k + 3) != AtPower(u, k + 7))))
  {
    hide Word, Bit, OneBit, Sum;
    if k < 31 {
      Rows(k);
      BitOfFour(Word(k), Word(k + 2), Word(k + 3), Word(k + 7), u);
    }
  }

  /** Bit u of the value at x^k times e. */
  function At(u: bv32, k: nat, e: nat): bool
    decreases e
  {
    e != 0 && (e % 2 == 1 && AtPower(u, k)) != At(u, k + 1, e / 2)
  }

  lemma {:induction false} AtXor(u: bv32, k: nat, a: nat, b: nat)
    ensures At(u, k, Xor(a, b)) == (At(u, k, a) != At(u, k, b))
    decreases a + b
  {
    if a > 0 && b > 0 {
      hide AtPower;
      XorHalves(a, b);
      AtXor(u, k + 1, a / 2, b / 2);
    }
  }

  lemma AtDouble(u: bv32, k: nat, e: nat)
    ensures At(u, k, 2 * e) == At(u, k + 1, e)
  {
    hide AtPower;
  }

  lemma {:induction false} AtShl(u: bv32, k: nat, e: nat, j: nat)
    ensures At(u, k, Shl(e, j)) == At(u, k + j, e)
    decreases j
  {
    hide AtPower, At;
    if j > 0 {
      AtDouble(u, k, Shl(e, j - 1));
      AtShl(u, k + 1, e, j - 1);
    }
  }

  lemma AtOne(u: bv32, k: nat)
    ensures At(u, k, 1) == AtPower(u, k) && !At(u, k, 0)
  {
    hide AtPower;
  }

  lemma AtOdd(u: bv32, k: nat, e: nat)
    ensures At(u, k, 2 * e + 1) == (AtPower(u, k) != At(u, k + 1, e))
  {
    hide AtPower;
  }

  lemma AtLowTerms(u: bv32, k: nat)
    ensures At(u, k, 0x8D) == (AtPower(u, k) != (AtPower(u, k + 2) != (AtPower(u, k + 3) != AtPower(u, k + 7))))
  {
    hide AtPower, At;
    AtOdd(u, k, 70);
    AtDouble(u, k + 1, 35);
    AtOdd(u, k + 2, 17);
    AtOdd(u, k + 3, 8);
    AtDouble(u, k + 4, 4);
    AtDouble(u, k + 5, 2);
    AtDouble(u, k + 6, 1);
    AtOne(u, k + 7);
  }

  lemma AtModulus(u: bv32, k: nat)
    requires OneBit(u)
    ensures !At(u, k, Modulus(DEFAULT_MODULUS))
  {
    hide AtPower, At, OneBit;
    TopBit(DEFAULT_MODULUS);
    Pow2Values();
    ShlOne(32);
    AtXor(u, k, WORD_SIZE, DEFAULT_MODULUS);
    AtShl(u, k, 1, 32);
    AtOne(u, k + 32);
    AtLowTerms(u, k);
    Reduces(u, k);
  }

  /** The functional vanishes on the multiples of the modulus. */
  lemma {:induction false} AtMultiple(u: bv32, k: nat, q: nat)
    requires OneBit(u)
    ensures !At(u, k, Clmul(q, Modulus(DEFAULT_MODULUS)))
    decreases q
  {
    hide At, AtPower, Clmul, Modulus, OneBit;
    var p := Modulus(DEFAULT_MODULUS);
    AtOne(u, k);
    ClmulComm(0, p);
    ClmulZero(p);
    if q > 0 {
      ClmulStep(q, p);
      AtXor(u, k, LowTerm(q, p), 2 * Clmul(q / 2, p));
      AtModulus(u, k);
      AtDouble(u, k, Clmul(q / 2, p));
      AtMultiple(u, k + 1, q / 2);
    }
  }

  // ---- Squares ------------------------------------------------------------------------------------

  /** Squaring spreads the coefficients: the mixed terms cancel. */
  lemma SquareStep(e: nat)
    ensures Clmul(e, e) == Xor(e % 2, 2 * (2 * Clmul(e / 2, e / 2)))
  {
    hide Clmul, Xor;
    var h := e / 2;
    var s := 2 * Clmul(h, h);
    ClmulStep(e, e);
    ClmulComm(h, e);
    ClmulStep(e, h);
    XorZero(s);
    XorZero(2 * s);
    if e % 2 == 1 {
      XorDouble(h, s);
      SplitLow(e);
      XorAssoc(1, 2 * h, Xor(2 * h, 2 * s));
      XorCancel(2 * h, 2 * s);
    }
  }

  /** Bit u of the sum of the values at x^2j + x^j, over the terms x^j of x^k e. */
  function Diffs(u: bv32, k: nat, e: nat): bool
    requires k + BitCount(e) <= 32
    decreases e
  {
    e != 0 && (e % 2 == 1 && Bit(Diff(k), u)) != Diffs(u, k + 1, e / 2)
  }

  lemma BitOfDiff(u: bv32, k: nat)
    requires OneBit(u) && k < 32
    ensures Bit(Diff(k), u) == (AtPower(u, 2 * k) != AtPower(u, k))
  {
    hide Word, Bit, OneBit, Sum;
    BitOfSum(Word(2 * k), Word(k), u);
  }

  lemma AtSquareStep(u: bv32, k: nat, e: nat)
    ensures At(u, 2 * k, Clmul(e, e)) == ((e % 2 == 1 && AtPower(u, 2 * k)) != At(u, 2 * (k + 1), Clmul(e / 2, e / 2)))
  {
    hide At, AtPower, Clmul, Xor;
    var s := Clmul(e / 2, e / 2);
    SquareStep(e);
    AtXor(u, 2 * k, e % 2, 2 * (2 * s));
    AtDouble(u, 2 * k, 2 * s);
    AtDouble(u, 2 * k + 1, s);
    AtOne(u, 2 * k);
  }

  lemma {:induction false} AtSquare(u: bv32, k: nat, e: nat)
    requires OneBit(u) && k + BitCount(e) <= 32
    ensures (At(u, 2 * k, Clmul(e, e)) != At(u, k, e)) == Diffs(u, k, e)
    decreases e
  {
    hide AtPower, Clmul, Diff, OneBit, Bit;
    if e > 0 {
      AtSquareStep(u, k, e);
      AtSquare(u, k + 1, e / 2);
      BitOfDiff(u, k);
    } else {
      ClmulZero(0);
    }
  }

  lemma {:induction false} NoneBelow(j: nat, k: nat, e: nat)
    requires 1 <= j < k && k + BitCount(e) <= 32
    ensures !Diffs(Diff(j), k, e)
    decreases e
  {
    hide Diff, OneBit, Above, Bit;
    if e > 0 {
      DiffIsOneBit(j);
      DiffsAbove(j, k);
      AboveHasNot(Diff(k), Diff(j));
      NoneBelow(j, k + 1, e / 2);
    }
  }

  /** The lowest term shows. */
  lemma {:induction false} LowestShows(k: nat, e: nat) returns (j: nat)
    requires 1 <= k && 0 < e && k + BitCount(e) <= 32
    ensures k <= j < 32 && Diffs(Diff(j), k, e)
    decreases e
  {
    if e % 2 == 1 {
      j := k;
      DiffNonzero(k);
      HasItself(Diff(k));
      NoneBelow(k, k + 1, e / 2);
      hide Diff, Bit;
    } else {
      hide Diff, Bit;
      j := LowestShows(k + 1, e / 2);
    }
  }

  lemma HasItself(u: bv32)
    requires u != 0
    ensures Bit(u, u)
  {}

  lemma ZeroDiff(u: bv32, r: nat)
    requires 0 < r && BitCount(r) <= 32
    ensures Diffs(u, 0, r) == Diffs(u, 1, r / 2)
  {
    assert Diff(0) == 0;
    assert !Bit(0, u);
    hide Bit, Diff;
  }

  /** The only residues that are their own squares are 0 and 1. */
  lemma Idempotents(r: Word32)
    requires Congruent(Clmul(r, r), r, Modulus(DEFAULT_MODULUS))
    ensures r <= 1
  {
    hide At, Clmul, Diff, Xor, Modulus, OneBit;
    if r > 1 {
      WordBits(r);
      var j := LowestShows(1, r / 2);
      DiffIsOneBit(j);
      ZeroDiff(Diff(j), r);
      AtSquare(Diff(j), 0, r);
      var q: nat :| Clmul(q, Modulus(DEFAULT_MODULUS)) == Xor(Clmul(r, r), r);
      AtMultiple(Diff(j), 0, q);
      AtXor(Diff(j), 0, Clmul(r, r), r);
    }
  }

  // ---- Common divisors ------------------------------------------------------------------------------

  /** u a + v b = g divides a and b. */
  ghost predicate IsGcd(a: nat, b: nat, u: nat, v: nat, g: nat) {
    Xor(Clmul(u, a), Clmul(v, b)) == g && Divides(g, a) && Divides(g, b)
  }

  lemma {:induction false} Bezout(a: nat, b: nat) returns (u: nat, v: nat, g: nat)
    ensures IsGcd(a, b, u, v, g)
    decreases BitCount(a) + BitCount(b), BitCount(b)
  {
    hide Clmul, Xor, BitCount, Shl;
    if b == 0 {
      u, v, g := 1, 0, a;
      ClmulOne(a);
      ClmulZero(0);
      XorZero(a);
      DividesSelf(a);
    } else if BitCount(a) < BitCount(b) {
      v, u, g := Bezout(b, a);
      XorComm(Clmul(v, b), Clmul(u, a));
    } else {
      BitsPositive(b);
      var k := BitCount(a) - BitCount(b);
      var c := Shl(b, k);
      ShlBits(b, k);
      BitsPositive(a);
      BitsXor(a, c);
      var w: nat;
      u, w, g := Bezout(Xor(a, c), b);
      v := Xor(Clmul(u, Shl(1, k)), w);
      BezoutBack(a, b, u, w, g, k);
    }
  }

  lemma ShlIsClmul(b: nat, k: nat)
    ensures Clmul(Shl(1, k), b) == Shl(b, k)
  {
    if k == 0 {
      ClmulOne(b);
    } else {
      ShlIsClmul(b, k - 1);
      ClmulDoubleLeft(Shl(1, k - 1), b);
    }
  }

  lemma BezoutBack(a: nat, b: nat, u: nat, w: nat, g: nat, k: nat)
    requires IsGcd(Xor(a, Shl(b, k)), b, u, w, g)
    ensures IsGcd(a, b, u, Xor(Clmul(u, Shl(1, k)), w), g)
  {
    hide Clmul, Xor, Shl, Divides;
    var c := Shl(b, k);
    DividesShl(g, b, k);
    DividesXor(g, Xor(a, c), c);
    XorCancel(c, a);
    ShlIsClmul(b, k);
    ClmulAssoc(u, Shl(1, k), b);
    ClmulDistributesLeft(Clmul(u, Shl(1, k)), w, b);
    ClmulDistributesRight(u, a, c);
    XorAssoc(Clmul(u, a), Clmul(u, c), Clmul(w, b));
  }

  /** Every polynomial has a residue of lower degree. */
  lemma {:induction false} Residue(a: nat, p: nat) returns (r: nat)
    requires p > 0
    ensures Congruent(a, r, p) && BitCount(r) < BitCount(p)
    decreases BitCount(a)
  {
    hide Clmul, Xor, BitCount, Shl, Congruent, Divides;
    if BitCount(a) < BitCount(p) {
      r := a;
      CongruentRefl(a, p);
    } else {
      BitsPositive(p);
      BitsPositive(a);
      var k := BitCount(a) - BitCount(p);
      var c := Shl(p, k);
      ShlBits(p, k);
      BitsXor(a, c);
      r := Residue(Xor(a, c), p);
      AddMultiple(a, p, k);
      CongruentTrans(a, Xor(a, c), r, p);
    }
  }

  lemma AddMultiple(a: nat, p: nat, k: nat)
    ensures Congruent(a, Xor(a, Shl(p, k)), p)
  {
    DividesSelf(p);
    DividesShl(p, p, k);
    XorCancel(a, Shl(p, k));
  }

  lemma DividesOne(d: nat)
    requires Divides(d, 1)
    ensures d == 1
  {
    var q: nat :| Clmul(q, d) == 1;
    ClmulZero(q);
    assert BitCount(1) == 1;
    if q > 0 && d > 0 {
      ClmulBits(q, d);
      BitsPositive(q);
      BitsPositive(d);
      assert BitCount(d) == 1;
      assert d / 2 == 0;
    }
  }

  lemma DividesTimes(d: nat, a: nat, b: nat)
    requires Divides(d, a)
    ensures Divides(d, Clmul(b, a)) && Divides(d, Clmul(a, b))
  {
    var q: nat :| Clmul(q, d) == a;
    ClmulAssoc(b, q, d);
    ClmulComm(a, b);
    assert Clmul(Clmul(b, q), d) == Clmul(b, a);
  }

  lemma DividesTrans(d: nat, a: nat, b: nat)
    requires Divides(d, a) && Divides(a, b)
    ensures Divides(d, b)
  {
    var q: nat :| Clmul(q, a) == b;
    DividesTimes(d, a, q);
  }

  // ---- Coprime factors make an idempotent -----------------------------------------------------------

  /** e = u c and f = v d with e + f = 1: then e (e + 1) = u v c d is a multiple of the modulus. */
  lemma ProjectionIsIdempotent(c: nat, d: nat, u: nat, v: nat)
    requires Xor(Clmul(u, c), Clmul(v, d)) == 1
    ensures Congruent(Clmul(Clmul(u, c), Clmul(u, c)), Clmul(u, c), Clmul(c, d))
  {
    hide Clmul, Xor;
    var e, f, p := Clmul(u, c), Clmul(v, d), Clmul(c, d);
    XorCancel(e, f);
    ClmulOne(e);
    ClmulDistributesRight(e, e, 1);
    assert Xor(e, 1) == f;
    assert Clmul(e, f) == Xor(Clmul(e, e), e);
    ClmulAssoc(u, c, f);
    ClmulComm(v, d);
    ClmulAssoc(c, d, v);
    ClmulComm(p, v);
    ClmulAssoc(u, v, p);
    assert Clmul(Clmul(u, v), p) == Clmul(e, f);
  }

  lemma CongruentSquare(a: nat, b: nat, p: nat)
    requires Congruent(a, b, p)
    ensures Congruent(Clmul(a, a), Clmul(b, b), p)
  {
    hide Clmul, Congruent;
    CongruentClmul(a, b, a, p);
    CongruentClmul(a, b, b, p);
    ClmulComm(a, b);
    CongruentTrans(Clmul(a, a), Clmul(a, b), Clmul(b, b), p);
  }

  lemma DivisorOfSum(d: nat, e: nat, f: nat)
    requires Xor(e, f) == 1 && Divides(d, e) && Divides(d, f)
    ensures d == 1
  {
    DividesXor(d, e, f);
    DividesOne(d);
  }

  lemma FactorsDivide(c: nat, d: nat)
    ensures Divides(c, Clmul(c, d)) && Divides(d, Clmul(c, d))
  {
    ClmulComm(c, d);
  }

  lemma CoprimeFactors(c: nat, d: nat, u: nat, v: nat)
    requires Clmul(c, d) == Modulus(DEFAULT_MODULUS) && Xor(Clmul(u, c), Clmul(v, d)) == 1
    ensures c == 1 || d == 1
  {
    hide Clmul, Xor, Congruent, Divides;
    var p, e, f := Modulus(DEFAULT_MODULUS), Clmul(u, c), Clmul(v, d);
    ProjectionIsIdempotent(c, d, u, v);
    var r := Residue(e, p);
    CongruentSquare(e, r, p);
    CongruentSym(Clmul(e, e), Clmul(r, r), p);
    CongruentTrans(Clmul(r, r), Clmul(e, e), e, p);
    CongruentTrans(Clmul(r, r), e, r, p);
    ModulusBits();
    WordBits(r);
    Idempotents(r);
    FactorsDivide(c, d);
    FactorsDivide(u, c);
    FactorsDivide(v, d);
    OneVanishes(e, f, r, p);
    if r == 0 {
      DividesTrans(d, p, e);
      DivisorOfSum(d, e, f);
    } else {
      DividesTrans(c, p, f);
      DivisorOfSum(c, e, f);
    }
  }

  lemma ModulusBits()
    ensures BitCount(Modulus(DEFAULT_MODULUS)) == 33
  {
    Pow2Values();
    BitCountBound(Modulus(DEFAULT_MODULUS), 32);
    BitCountBound(Modulus(DEFAULT_MODULUS), 33);
  }

  lemma OneVanishes(e: nat, f: nat, r: nat, p: nat)
    requires Congruent(e, r, p) && r <= 1 && Xor(e, f) == 1
    ensures if r == 0 then Divides(p, e) else Divides(p, f)
  {
    hide Xor, Divides;
    XorZero(e);
    XorCancel(e, f);
    XorCancel(f, e);
    XorComm(e, f);
  }

  // ---- No square divides the modulus ------------------------------------------------------------------

  /** The polynomial of the even coefficients. */
  function Even(a: nat): nat {
    if a == 0 then 0 else a % 2 + 2 * Even(a / 2 / 2)
  }

  lemma {:induction false} EvenXor(a: nat, b: nat)
    ensures Even(Xor(a, b)) == Xor(Even(a), Even(b))
    decreases a + b
  {
    hide Xor, Even;
    if a > 0 && b > 0 {
      XorHalves(a, b);
      XorHalves(a / 2, b / 2);
      EvenStep(a);
      EvenStep(b);
      EvenStep(Xor(a, b));
      EvenXor(a / 2 / 2, b / 2 / 2);
      XorStep(Even(a), Even(b));
    } else {
      XorZero(a);
      XorZero(b);
      EvenOfZero();
      XorZero(Even(a));
      XorZero(Even(b));
    }
  }

  lemma EvenOfZero()
    ensures Even(0) == 0
  {}

  lemma EvenStep(a: nat)
    ensures Even(a) == a % 2 + 2 * Even(a / 2 / 2)
  {}

  lemma EvenDoubles(a: nat)
    ensures Even(2 * (2 * a)) == 2 * Even(a)
  {}

  lemma {:induction false} EvenSquare(g: nat)
    ensures Even(Clmul(g, g)) == g && Even(2 * Clmul(g, g)) == 0
    decreases g
  {
    hide Xor, Clmul, Even;
    EvenOfZero();
    if g > 0 {
      var s := Clmul(g / 2, g / 2);
      SquareStep(g);
      EvenSquare(g / 2);
      EvenXor(g % 2, 2 * (2 * s));
      EvenDoubles(s);
      SplitLow(g);
      XorDouble(g % 2, 2 * (2 * s));
      EvenXor(2 * (g % 2), 2 * (2 * (2 * s)));
      EvenDoubles(2 * s);
      EvenOfBit(g % 2);
      XorZero(0);
    } else {
      ClmulZero(0);
    }
  }

  lemma EvenOfBit(b: nat)
    requires b <= 1
    ensures Even(b) == b && Even(2 * b) == 0
  {
    hide Even;
    EvenOfZero();
    EvenStep(b);
    EvenStep(2 * b);
  }

  lemma EvenLowTerm(h: nat, g: nat)
    ensures Even(LowTerm(h, Clmul(g, g))) == LowTerm(h, g) && Even(2 * LowTerm(h, Clmul(g, g))) == 0
  {
    hide Clmul, Even;
    EvenSquare(g);
    EvenOfZero();
  }

  /** A square factor stays a factor, once, of the even coefficients. */
  lemma {:induction false} EvenProduct(g: nat, h: nat)
    ensures Even(Clmul(Clmul(g, g), h)) == Clmul(g, Even(h))
    decreases h
  {
    hide Clmul, Even, Xor;
    var s, h2 := Clmul(g, g), h / 2 / 2;
    ClmulComm(s, h);
    ClmulComm(g, Even(h));
    if h == 0 {
      EvenOfZero();
      ClmulComm(0, s);
      ClmulZero(s);
      ClmulComm(0, g);
      ClmulZero(g);
    } else {
      ClmulStep(h, s);
      ClmulStep(h / 2, s);
      XorDouble(LowTerm(h / 2, s), 2 * Clmul(h2, s));
      EvenXor(LowTerm(h, s), Xor(2 * LowTerm(h / 2, s), 2 * (2 * Clmul(h2, s))));
      EvenXor(2 * LowTerm(h / 2, s), 2 * (2 * Clmul(h2, s)));
      EvenLowTerm(h, g);
      EvenLowTerm(h / 2, g);
      EvenDoubles(Clmul(h2, s));
      ClmulComm(h2, s);
      EvenProduct(g, h2);
      XorZero(2 * Clmul(g, Even(h2)));
      EvenStep(h);
      ClmulStep(Even(h), g);
      ClmulComm(g, Even(h2));
    }
  }

  lemma {:induction false} EvenPower(k: nat)
    ensures Even(Pow2(2 * k)) == Pow2(k) && Even(2 * Pow2(2 * k)) == 0
  {
    if k > 0 {
      EvenPower(k - 1);
      assert Pow2(2 * k) == 2 * (2 * Pow2(2 * (k - 1)));
      hide Pow2, Even;
      EvenDoubles(Pow2(2 * (k - 1)));
      EvenDoubles(2 * Pow2(2 * (k - 1)));
      Pow2Step(k - 1);
    }
  }

  lemma EvenOfLowTerms()
    ensures Even(0x8D) == 3 && Even(2 * 0x8D) == 0x14
  {
    hide Even;
    EvenOfZero();
    EvenStep(2);
    EvenStep(8);
    EvenStep(0x23);
    EvenStep(0x8D);
    EvenStep(1);
    EvenStep(4);
    EvenStep(0x11);
    EvenStep(0x46);
    EvenStep(0x11A);
  }

  /** The even coefficients of the modulus and of its double. */
  lemma EvenOfModulus()
    ensures Even(Modulus(DEFAULT_MODULUS)) == 0x10003 && Even(2 * Modulus(DEFAULT_MODULUS)) == 0x14
  {
    hide Even, Xor, Pow2, Shl;
    Pow2Values();
    TopBit(DEFAULT_MODULUS);
    EvenXor(WORD_SIZE, DEFAULT_MODULUS);
    XorDouble(WORD_SIZE, DEFAULT_MODULUS);
    EvenXor(2 * WORD_SIZE, 2 * DEFAULT_MODULUS);
    EvenPower(16);
    EvenOfLowTerms();
    ShlOne(16);
    XorDisjoint(1, 3, 16);
    XorZero(0x14);
  }

  /** x^4 = x^2 modulo g makes x^2k = x^2. */
  lemma {:induction false} FoldPowers(g: nat, k: nat)
    requires Congruent(16, 4, g) && k >= 1
    ensures Congruent(Pow2(2 * k), 4, g)
  {
    hide Congruent, Pow2;
    Pow2Values();
    if k == 1 {
      CongruentRefl(4, g);
    } else {
      var w := Pow2(2 * (k - 1));
      FoldPowers(g, k - 1);
      CongruentDouble(w, 4, g);
      CongruentDouble(2 * w, 8, g);
      Pow2Step(2 * k - 2);
      Pow2Step(2 * k - 1);
      CongruentTrans(4 * w, 16, 4, g);
    }
  }

  lemma SmallXors()
    ensures Xor(16, 4) == 0x14 && Xor(4, 3) == 7 && Clmul(7, 7) == 0x15 && Xor(0x14, 0x15) == 1
  {
    hide Xor, Clmul, Shl, Pow2;
    Pow2Values();
    ShlOne(4);
    XorDisjoint(1, 4, 4);
    ShlOne(2);
    XorDisjoint(1, 3, 2);
    SquareStep(7);
    SquareStep(3);
    ClmulOne(1);
    XorComm(1, 4);
    XorDisjoint(1, 1, 2);
    ShlIsMultiplication(5, 2);
    XorComm(1, 20);
    XorDisjoint(5, 1, 2);
    XorCancel(20, 1);
  }

  /** No polynomial but 1 divides both x^16 + x + 1 and x^4 + x^2. */
  lemma NoCommonDivisor(g: nat)
    requires Divides(g, 0x10003) && Divides(g, 0x14)
    ensures g == 1
  {
    SmallXors();
    hide Xor, Clmul, Divides, Pow2, Shl;
    Pow2Values();
    FoldPowers(g, 8);
    CongruentRefl(3, g);
    CongruentXor(0x10000, 4, 3, 3, g);
    ShlOne(16);
    XorDisjoint(1, 3, 16);
    DividesXor(g, 0x10003, Xor(0x10003, 7));
    XorCancel(0x10003, 7);
    DividesTimes(g, 7, 7);
    DividesXor(g, 0x14, 0x15);
    DividesOne(g);
  }

  lemma SquareFree(g: nat, h: nat)
    requires Clmul(Clmul(g, g), h) == Modulus(DEFAULT_MODULUS)
    ensures g == 1
  {
    hide Clmul, Even, Divides;
    EvenOfModulus();
    EvenProduct(g, h);
    ClmulDoubleRight(Clmul(g, g), h);
    EvenProduct(g, 2 * h);
    FactorsDivide(g, Even(h));
    FactorsDivide(g, Even(2 * h));
    NoCommonDivisor(g);
  }

  lemma CommonFactor(c: nat, d: nat, g: nat)
    requires Clmul(c, d) == Modulus(DEFAULT_MODULUS) && Divides(g, c) && Divides(g, d)
    ensures g == 1
  {
    hide Clmul;
    var c': nat :| Clmul(c', g) == c;
    var d': nat :| Clmul(d', g) == d;
    ClmulComm(c', g);
    ClmulComm(d', g);
    ClmulAssoc(g, c', d);
    ClmulComm(c', d);
    ClmulAssoc(g, d', c');
    ClmulAssoc(g, g, Clmul(d', c'));
    SquareFree(g, Clmul(d', c'));
  }

  /** The default modulus defines a field. */
  lemma DefaultModulusIsField()
    ensures IsField(DEFAULT_MODULUS)
  {
    hide Clmul, Xor, Divides;
    forall c: nat, d: nat | Clmul(c, d) == Modulus(DEFAULT_MODULUS) ensures c == 1 || d == 1 {
      var u, v, g := Bezout(c, d);
      CommonFactor(c, d, g);
      CoprimeFactors(c, d, u, v);
    }
  }

  /** MultiplicativeInverse of an object made with the default modulus: no condition is left. */
  method DefaultInverse(a: Word32) returns (r: Word32)
    ensures a != 0 ==> IsProduct(r, a, DEFAULT_MODULUS, 1) && IsProduct(a, r, DEFAULT_MODULUS, 1)
    ensures a == 0 ==> r == 0
  {
    DefaultModulusIsField();
    r := MultiplicativeInverse(DEFAULT_MODULUS, a);
  }
}
