/**
 Polynomials over GF(2), written as natural numbers: bit i of the number is the
 coefficient of x^i.  Addition is exclusive or, multiplication is the carry-less
 product.  Machine words are the polynomials below a power of two, so a word
 operation of the source is one of these functions followed by a truncation.
 */
module Gf2Polynomials {
  import opened Arithmetic

  /** The sum of the constant coefficients. */
  function BitXor(a: nat, b: nat): (r: nat)
    ensures r <= 1
  {
    if a % 2 == b % 2 then 0 else 1
  }

  function Xor(a: nat, b: nat): nat
    decreases a + b
  {
    if a == 0 then b
    else if b == 0 then a
    else 2 * Xor(a / 2, b / 2) + BitXor(a, b)
  }

  /** The contribution of the constant coefficient of a to the product of a and b. */
  function LowTerm(a: nat, b: nat): nat {
    if a % 2 == 1 then b else 0
  }

  function Clmul(a: nat, b: nat): nat
    decreases a
  {
    if a == 0 then 0
    else Xor(LowTerm(a, b), 2 * Clmul(a / 2, b))
  }

  ghost predicate Divides(d: nat, a: nat) {
    exists q: nat :: Clmul(q, d) == a
  }

  /** u and w are equal modulo p. */
  ghost predicate Congruent(u: nat, w: nat, p: nat) {
    Divides(p, Xor(u, w))
  }

  ghost predicate Irreducible(p: nat) {
    p > 1 && forall c: nat, d: nat :: Clmul(c, d) == p ==> c == 1 || d == 1
  }

  // ---- Exclusive or --------------------------------------------------------

  lemma XorStep(a: nat, b: nat)
    ensures Xor(a, b) == 2 * Xor(a / 2, b / 2) + BitXor(a, b)
  {
  }

  lemma XorHalves(a: nat, b: nat)
    ensures Xor(a, b) / 2 == Xor(a / 2, b / 2)
    ensures Xor(a, b) % 2 == BitXor(a, b)
  {
    XorStep(a, b);
  }

  lemma XorZero(a: nat)
    ensures Xor(a, 0) == a && Xor(0, a) == a
  {
  }

  lemma {:induction false} XorSelf(a: nat)
    ensures Xor(a, a) == 0
  {
    if a > 0 { XorSelf(a / 2); }
  }

  lemma {:induction false} XorComm(a: nat, b: nat)
    ensures Xor(a, b) == Xor(b, a)
    decreases a + b
  {
    if a > 0 && b > 0 { XorComm(a / 2, b / 2); }
  }

  lemma {:induction false} XorAssoc(a: nat, b: nat, c: nat)
    ensures Xor(Xor(a, b), c) == Xor(a, Xor(b, c))
    decreases a + b + c
  {
    if a == 0 || b == 0 || c == 0 {
    } else {
      XorAssoc(a / 2, b / 2, c / 2);
      XorHalves(a, b);
      XorHalves(b, c);
      var ab, bc := Xor(a, b), Xor(b, c);
      hide Xor;
      XorStep(ab, c);
      XorStep(a, bc);
      assert BitXor(ab, c) == BitXor(a, bc);
    }
  }

  /** a + (a + b) = b: adding twice cancels. */
  lemma XorCancel(a: nat, b: nat)
    ensures Xor(a, Xor(a, b)) == b
    ensures Xor(Xor(b, a), a) == b
  {
    XorAssoc(a, a, b);
    XorAssoc(b, a, a);
    XorSelf(a);
  }

  /** (a + b) + (c + d) = (a + c) + (b + d). */
  lemma XorSwapInner(a: nat, b: nat, c: nat, d: nat)
    ensures Xor(Xor(a, b), Xor(c, d)) == Xor(Xor(a, c), Xor(b, d))
  {
    XorAssoc(a, b, Xor(c, d));
    XorAssoc(b, c, d);
    XorComm(b, c);
    XorAssoc(c, b, d);
    XorAssoc(a, c, Xor(b, d));
  }

  lemma XorDouble(a: nat, b: nat)
    ensures Xor(2 * a, 2 * b) == 2 * Xor(a, b)
  {
    XorStep(2 * a, 2 * b);
  }

  lemma {:induction false} XorShl(a: nat, b: nat, k: nat)
    ensures Shl(Xor(a, b), k) == Xor(Shl(a, k), Shl(b, k))
  {
    if k > 0 {
      XorShl(a, b, k - 1);
      XorDouble(Shl(a, k - 1), Shl(b, k - 1));
    }
  }

  // ---- Size ----------------------------------------------------------------

  lemma {:induction false} BitsMonotone(a: nat, b: nat)
    requires a <= b
    ensures BitCount(a) <= BitCount(b)
  {
    if a > 0 { BitsMonotone(a / 2, b / 2); }
  }

  lemma {:induction false} BitsXor(a: nat, b: nat)
    ensures BitCount(a) > BitCount(b) ==> BitCount(Xor(a, b)) == BitCount(a)
    ensures BitCount(a) < BitCount(b) ==> BitCount(Xor(a, b)) == BitCount(b)
    ensures BitCount(a) == BitCount(b) && a > 0 ==> BitCount(Xor(a, b)) < BitCount(a)
    ensures BitCount(Xor(a, b)) <= BitCount(a) || BitCount(Xor(a, b)) <= BitCount(b)
    decreases a + b
  {
    if a > 0 && b > 0 {
      BitsXor(a / 2, b / 2);
      XorHalves(a, b);
    }
  }

  lemma XorBound(a: nat, b: nat, k: nat)
    requires a < Pow2(k) && b < Pow2(k)
    ensures Xor(a, b) < Pow2(k)
  {
    BitCountBound(a, k);
    BitCountBound(b, k);
    BitsXor(a, b);
    BitCountBound(Xor(a, b), k);
  }

  /** Adding a polynomial of degree below k to a multiple of x^k sets bits: there are no carries. */
  lemma {:induction false} XorDisjoint(a: nat, b: nat, k: nat)
    requires b < Pow2(k)
    ensures Xor(Shl(a, k), b) == Shl(a, k) + b
    decreases k
  {
    if k > 0 {
      XorDisjoint(a, b / 2, k - 1);
      XorStep(Shl(a, k), b);
    }
  }

  // ---- Carry-less product --------------------------------------------------

  lemma ClmulStep(a: nat, b: nat)
    ensures Clmul(a, b) == Xor(LowTerm(a, b), 2 * Clmul(a / 2, b))
  {
  }

  lemma LowTermXor(a: nat, b: nat, c: nat)
    ensures LowTerm(Xor(a, b), c) == Xor(LowTerm(a, c), LowTerm(b, c))
  {
    XorHalves(a, b);
    if a % 2 == 1 && b % 2 == 1 { XorSelf(c); }
    XorComm(c, 0);
  }

  lemma {:induction false} ClmulZero(a: nat)
    ensures Clmul(a, 0) == 0
  {
    if a > 0 { ClmulZero(a / 2); }
  }

  lemma {:induction false} ClmulOne(a: nat)
    ensures Clmul(a, 1) == a
    ensures Clmul(1, a) == a
  {
    if a > 0 {
      ClmulOne(a / 2);
      XorComm(1, 2 * (a / 2));
      XorStep(1, 2 * (a / 2));
      assert Clmul(0, a) == 0;
      XorComm(a, 0);
    } else {
      ClmulZero(1);
    }
  }

  lemma {:induction false} ClmulDistributesLeft(a: nat, b: nat, c: nat)
    ensures Clmul(Xor(a, b), c) == Xor(Clmul(a, c), Clmul(b, c))
    decreases a + b
  {
    if a == 0 || b == 0 {
    } else {
      var ca, cb := LowTerm(a, c), LowTerm(b, c);
      var ra, rb := Clmul(a / 2, c), Clmul(b / 2, c);
      calc {
        Clmul(Xor(a, b), c);
        { ClmulStep(Xor(a, b), c); XorHalves(a, b); }
        Xor(LowTerm(Xor(a, b), c), 2 * Clmul(Xor(a / 2, b / 2), c));
        { LowTermXor(a, b, c); ClmulDistributesLeft(a / 2, b / 2, c); }
        Xor(Xor(ca, cb), 2 * Xor(ra, rb));
        { XorDouble(ra, rb); XorSwapInner(ca, cb, 2 * ra, 2 * rb); }
        Xor(Xor(ca, 2 * ra), Xor(cb, 2 * rb));
      }
    }
  }

  lemma {:induction false} ClmulDistributesRight(a: nat, b: nat, c: nat)
    ensures Clmul(a, Xor(b, c)) == Xor(Clmul(a, b), Clmul(a, c))
    decreases a
  {
    if a > 0 {
      ClmulDistributesRight(a / 2, b, c);
      var rb, rc := Clmul(a / 2, b), Clmul(a / 2, c);
      XorDouble(rb, rc);
      if a % 2 == 1 {
        XorSwapInner(b, c, 2 * rb, 2 * rc);
      }
    }
  }

  lemma ClmulDoubleLeft(a: nat, b: nat)
    ensures Clmul(2 * a, b) == 2 * Clmul(a, b)
  {
    ClmulStep(2 * a, b);
  }

  lemma {:induction false} ClmulDoubleRight(a: nat, b: nat)
    ensures Clmul(a, 2 * b) == 2 * Clmul(a, b)
  {
    if a > 0 {
      ClmulDoubleRight(a / 2, b);
      XorDouble(LowTerm(a, b), 2 * Clmul(a / 2, b));
    }
  }

  lemma SplitLow(a: nat)
    ensures a == Xor(a % 2, 2 * (a / 2))
  {
    XorStep(a % 2, 2 * (a / 2));
  }

  lemma {:induction false} ClmulComm(a: nat, b: nat)
    ensures Clmul(a, b) == Clmul(b, a)
    decreases a
  {
    if a == 0 {
      ClmulZero(b);
    } else {
      SplitLow(a);
      calc {
        Clmul(b, a);
        { ClmulDistributesRight(b, a % 2, 2 * (a / 2)); }
        Xor(Clmul(b, a % 2), Clmul(b, 2 * (a / 2)));
        { ClmulOne(b); ClmulZero(b); ClmulDoubleRight(b, a / 2); }
        Xor(LowTerm(a, b), 2 * Clmul(b, a / 2));
        { ClmulComm(a / 2, b); }
        Clmul(a, b);
      }
    }
  }

  lemma {:induction false} ClmulAssoc(a: nat, b: nat, c: nat)
    ensures Clmul(Clmul(a, b), c) == Clmul(a, Clmul(b, c))
    decreases a
  {
    if a > 0 {
      ClmulAssoc(a / 2, b, c);
      var low := LowTerm(a, b);
      ClmulDistributesLeft(low, 2 * Clmul(a / 2, b), c);
      ClmulDoubleLeft(Clmul(a / 2, b), c);
    }
  }

  lemma BitsPositive(a: nat)
    ensures a > 0 <==> BitCount(a) > 0
  {}

  /** The degree of a product is the sum of the degrees. */
  lemma {:induction false} ClmulBits(a: nat, b: nat)
    requires a > 0 && b > 0
    ensures Clmul(a, b) > 0
    ensures BitCount(Clmul(a, b)) == BitCount(a) + BitCount(b) - 1
  {
    if a == 1 {
      ClmulOne(b);
    } else {
      ClmulBits(a / 2, b);
      var r := 2 * Clmul(a / 2, b);
      assert BitCount(r) == 1 + BitCount(Clmul(a / 2, b));
      assert BitCount(a) == 1 + BitCount(a / 2) && BitCount(0) == 0;
      assert Clmul(a, b) == Xor(LowTerm(a, b), r);
      BitsXor(LowTerm(a, b), r);
      BitsPositive(Clmul(a, b));
      hide BitCount, Clmul, Xor;
    }
  }

  // ---- Divisibility and congruence -----------------------------------------

  lemma DividesXor(d: nat, a: nat, b: nat)
    requires Divides(d, a) && Divides(d, b)
    ensures Divides(d, Xor(a, b))
  {
    var p: nat :| Clmul(p, d) == a;
    var q: nat :| Clmul(q, d) == b;
    ClmulDistributesLeft(p, q, d);
    assert Clmul(Xor(p, q), d) == Xor(a, b);
  }

  lemma DividesDouble(d: nat, a: nat)
    requires Divides(d, a)
    ensures Divides(d, 2 * a)
  {
    var p: nat :| Clmul(p, d) == a;
    ClmulDoubleLeft(p, d);
    assert Clmul(2 * p, d) == 2 * a;
  }

  lemma DividesSelf(d: nat)
    ensures Divides(d, d) && Divides(d, 0)
  {
    ClmulOne(d);
    assert Clmul(1, d) == d;
    assert Clmul(0, d) == 0;
  }

  lemma CongruentRefl(u: nat, p: nat)
    ensures Congruent(u, u, p)
  {
    XorSelf(u);
    DividesSelf(p);
  }

  lemma CongruentXor(u: nat, w: nat, u': nat, w': nat, p: nat)
    requires Congruent(u, w, p) && Congruent(u', w', p)
    ensures Congruent(Xor(u, u'), Xor(w, w'), p)
  {
    DividesXor(p, Xor(u, w), Xor(u', w'));
    XorSwapInner(u, w, u', w');
  }

  lemma CongruentDouble(u: nat, w: nat, p: nat)
    requires Congruent(u, w, p)
    ensures Congruent(2 * u, 2 * w, p)
  {
    DividesDouble(p, Xor(u, w));
    XorDouble(u, w);
  }

  lemma CongruentTrans(u: nat, v: nat, w: nat, p: nat)
    requires Congruent(u, v, p) && Congruent(v, w, p)
    ensures Congruent(u, w, p)
  {
    DividesXor(p, Xor(u, v), Xor(v, w));
    XorAssoc(u, v, Xor(v, w));
    XorCancel(v, w);
  }

  lemma CongruentSym(u: nat, w: nat, p: nat)
    requires Congruent(u, w, p)
    ensures Congruent(w, u, p)
  {
    XorComm(u, w);
  }

  /** Adding the modulus does not change the residue class. */
  lemma CongruentAddModulus(u: nat, p: nat)
    ensures Congruent(u, Xor(u, p), p)
  {
    XorCancel(u, p);
    DividesSelf(p);
  }

  /** Multiplying both sides of a congruence. */
  lemma CongruentClmul(u: nat, w: nat, c: nat, p: nat)
    requires Congruent(u, w, p)
    ensures Congruent(Clmul(c, u), Clmul(c, w), p)
  {
    var q: nat :| Clmul(q, p) == Xor(u, w);
    ClmulAssoc(c, q, p);
    ClmulDistributesRight(c, u, w);
    assert Clmul(Clmul(c, q), p) == Xor(Clmul(c, u), Clmul(c, w));
  }

  /** A residue class modulo p has only one member of lower degree than p. */
  lemma ResidueUnique(u: nat, w: nat, p: nat)
    requires Congruent(u, w, p)
    requires BitCount(u) < BitCount(p) && BitCount(w) < BitCount(p)
    ensures u == w
  {
    var q: nat :| Clmul(q, p) == Xor(u, w);
    BitsXor(u, w);
    if q > 0 {
      ClmulBits(q, p);
      assert false;
    }
    XorCancel(u, w);
    XorComm(u, 0);
  }
}
