/** The product of gcm.cpp is that of the field GF(2)[x] modulo x^128 + x^7 + x^2 + x + 1. */
module GcmField {
  import opened Arithmetic
  import opened Gf2Polynomials
  import opened Gcm

  /** The low n bits of v in the opposite order, which makes a block the polynomial it stands for. */
  function Reflect(v: nat, n: nat): nat {
    if n == 0 then 0 else Xor(Reflect(v / 2, n - 1), LowTerm(v, Pow2(n - 1)))
  }

  function Polynomial(b: Block): nat {
    Reflect(b, 128)
  }

  /** x^128 + x^7 + x^2 + x + 1. */
  function FieldModulus(): nat {
    0x1_0000_0000_0000_0000_0000_0000_0000_0087
  }

  // ---- Reflection -----------------------------------------------------------------------------

  lemma {:induction false} ReflectXor(a: nat, b: nat, n: nat)
    ensures Reflect(Xor(a, b), n) == Xor(Reflect(a, n), Reflect(b, n))
  {
    if n > 0 {
      var p := Pow2(n - 1);
      ReflectXor(a / 2, b / 2, n - 1);
      XorHalves(a, b);
      LowTermXor(a, b, p);
      XorSwapInner(Reflect(a / 2, n - 1), Reflect(b / 2, n - 1), LowTerm(a, p), LowTerm(b, p));
      UnfoldReflect(a, n);
      UnfoldReflect(b, n);
      UnfoldReflect(Xor(a, b), n);
      hide *;
    }
  }

  lemma UnfoldReflect(v: nat, n: nat)
    requires n > 0
    ensures Reflect(v, n) == Xor(Reflect(v / 2, n - 1), LowTerm(v, Pow2(n - 1)))
  {}

  lemma {:induction false} ReflectBound(v: nat, n: nat)
    ensures Reflect(v, n) < Pow2(n)
  {
    if n > 0 {
      ReflectBound(v / 2, n - 1);
      UnfoldReflect(v, n);
      hide Reflect, Xor;
      XorBound(Reflect(v / 2, n - 1), LowTerm(v, Pow2(n - 1)), n);
    }
  }

  /** A zero at the top becomes a zero at the bottom. */
  lemma {:induction false} ReflectShort(v: nat, n: nat)
    requires v < Pow2(n)
    ensures Reflect(v, n + 1) == 2 * Reflect(v, n)
  {
    if n == 0 {
      XorZero(0);
    } else {
      ReflectShort(v / 2, n - 1);
      UnfoldReflect(v, n);
      UnfoldReflect(v, n + 1);
      DoubleTerm(v, n - 1);
      hide Reflect, Xor, LowTerm, Pow2;
      XorDouble(Reflect(v / 2, n - 1), LowTerm(v, Pow2(n - 1)));
    }
  }

  lemma DoubleTerm(v: nat, n: nat)
    ensures LowTerm(v, Pow2(n + 1)) == 2 * LowTerm(v, Pow2(n))
  {}

  /** A zero at the bottom is dropped. */
  lemma {:induction false} ReflectShl(w: nat, k: nat, n: nat)
    ensures Reflect(Shl(w, k), n + k) == Reflect(w, n)
  {
    if k > 0 {
      ReflectShl(w, k - 1, n);
      UnfoldReflect(Shl(w, k), n + k);
      XorZero(Reflect(w, n));
      assert Shl(w, k) / 2 == Shl(w, k - 1) && LowTerm(Shl(w, k), Pow2(n + k - 1)) == 0;
      hide Reflect, Xor, LowTerm, Pow2;
    }
  }

  lemma {:induction false} ReflectZero(n: nat)
    ensures Reflect(0, n) == 0
  {
    if n > 0 {
      ReflectZero(n - 1);
      XorZero(0);
    }
  }

  /** Only zero reflects to zero. */
  lemma {:induction false} ReflectNonzero(v: nat, n: nat)
    requires v < Pow2(n) && Reflect(v, n) == 0
    ensures v == 0
  {
    if n > 0 {
      var low, high := Reflect(v / 2, n - 1), LowTerm(v, Pow2(n - 1));
      UnfoldReflect(v, n);
      XorComm(low, high);
      XorCancel(high, low);
      XorZero(high);
      ReflectBound(v / 2, n - 1);
      assert low == high;
      assert v % 2 == 0;
      ReflectNonzero(v / 2, n - 1);
    }
  }

  lemma ReflectInjective(a: Block, b: Block)
    requires Polynomial(a) == Polynomial(b)
    ensures a == b
  {
    ReflectXor(a, b, 128);
    XorSelf(Polynomial(a));
    BlockIs128Bits();
    XorBound(a, b, 128);
    hide Reflect, Xor;
    ReflectNonzero(Xor(a, b), 128);
    XorCancel(a, b);
    XorZero(a);
  }

  // ---- Multiplication by x ---------------------------------------------------------------------

  lemma ReflectR()
    ensures Reflect(R, 128) == 0x87
  {
    BlockIs128Bits();
    RIsShifted();
    ReflectShl(0xe1, 120, 8);
    SmallReflection();
    hide Reflect, Shl;
  }

  lemma ReflectSeven()
    ensures Reflect(7, 3) == 7
  {
    assert Reflect(1, 1) == 1;
    assert Reflect(3, 2) == 3;
  }

  lemma SmallReflection()
    ensures Reflect(0xe1, 8) == 0x87
  {
    Pow2Values();
    ReflectSeven();
    ShlOne(7);
    ShlIsMultiplication(7, 4);
    hide Reflect, Xor, Shl, Pow2;
    ReflectShl(7, 4, 3);
    XorDisjoint(1, 7, 7);
    XorComm(0x80, 7);
    UnfoldReflect(0xe1, 8);
  }

  /** x^128 = x^7 + x^2 + x + 1 in the field. */
  lemma TopPower()
    ensures Congruent(Pow2(128), 0x87, FieldModulus())
  {
    BlockIs128Bits();
    ShlOne(128);
    Pow2Values();
    Pow2Monotone(8, 128);
    hide Pow2, Xor, Shl;
    XorDisjoint(1, 0x87, 128);
    DividesSelf(FieldModulus());
  }

  lemma TimesXIsProduct(v: Block)
    ensures Congruent(2 * Polynomial(v), Polynomial(TimesX(v)), FieldModulus())
  {
    var u, m := v / 2, FieldModulus();
    BlockIs128Bits();
    hide Reflect, Xor, Congruent, FieldModulus, Pow2;
    UnfoldReflect(v, 128);
    DoubleTerm(v, 127);
    XorDouble(Reflect(u, 127), LowTerm(v, Pow2(127)));
    ReflectShort(u, 127);
    assert 2 * Polynomial(v) == Xor(Reflect(u, 128), LowTerm(v, Pow2(128)));
    CongruentRefl(Reflect(u, 128), m);
    if v % 2 == 1 {
      ReflectXor(u, R, 128);
      ReflectR();
      TopPower();
      CongruentXor(Reflect(u, 128), Reflect(u, 128), Pow2(128), 0x87, m);
    } else {
      XorZero(Reflect(u, 128));
      XorZero(u);
    }
  }

  lemma {:induction false} TimesXPowIsProduct(h: Block, k: nat)
    ensures Congruent(Shl(Polynomial(h), k), Polynomial(TimesXPow(h, k)), FieldModulus())
  {
    var m := FieldModulus();
    if k == 0 {
      CongruentRefl(Polynomial(h), m);
    } else {
      TimesXPowIsProduct(h, k - 1);
      var s, t := Shl(Polynomial(h), k - 1), TimesXPow(h, k - 1);
      assert Shl(Polynomial(h), k) == 2 * s && TimesXPow(h, k) == TimesX(t);
      hide *;
      CongruentDouble(s, Polynomial(t), m);
      TimesXIsProduct(t);
      CongruentTrans(2 * s, 2 * Polynomial(t), Polynomial(TimesX(t)), m);
    }
  }

  lemma {:induction false} ClmulPower(k: nat, b: nat)
    ensures Clmul(Pow2(k), b) == Shl(b, k)
  {
    if k == 0 {
      ClmulOne(b);
    } else {
      ClmulPower(k - 1, b);
      ClmulDoubleLeft(Pow2(k - 1), b);
    }
  }

  // ---- The product ---------------------------------------------------------------------------------

  /** The first n terms of the product. */
  lemma {:induction false} PartialIsProduct(h: Block, b: Block, n: nat)
    requires n <= 128
    ensures Congruent(Clmul(Reflect(Shr(b, 128 - n), n), Polynomial(h)), Polynomial(PartialProduct(h, b, n)), FieldModulus())
  {
    hide *;
    var m, p := FieldModulus(), Polynomial(h);
    if n == 0 {
      NoTerms(h, b);
      CongruentRefl(0, m);
    } else {
      PartialIsProduct(h, b, n - 1);
      var low, v := Reflect(Shr(b, 128 - (n - 1)), n - 1), Shr(b, 128 - n);
      var term, rest := Term(h, v, n - 1), PartialProduct(h, b, n - 1);
      UnfoldReflect(v, n);
      UnfoldPartial(h, b, n);
      OneTerm(h, v, n - 1);
      ClmulDistributesLeft(low, LowTerm(v, Pow2(n - 1)), p);
      PolynomialAdd(rest, term);
      CongruentXor(Clmul(low, p), Polynomial(rest), Clmul(LowTerm(v, Pow2(n - 1)), p), Polynomial(term), m);
    }
  }

  /** x^k h, if the lowest bit of v says so. */
  function Term(h: Block, v: nat, k: nat): Block {
    if v % 2 == 1 then TimesXPow(h, k) else 0
  }

  lemma NoTerms(h: Block, b: Block)
    ensures Clmul(Reflect(Shr(b, 128), 0), Polynomial(h)) == 0 && Polynomial(PartialProduct(h, b, 0)) == 0
  {
    ReflectZero(128);
  }

  lemma UnfoldPartial(h: Block, b: Block, n: nat)
    requires 1 <= n <= 128
    ensures Shr(b, 128 - (n - 1)) == Shr(b, 128 - n) / 2
    ensures PartialProduct(h, b, n) == Add(PartialProduct(h, b, n - 1), Term(h, Shr(b, 128 - n), n - 1))
  {}

  lemma PolynomialAdd(a: Block, b: Block)
    ensures Polynomial(Add(a, b)) == Xor(Polynomial(a), Polynomial(b))
  {
    ReflectXor(a, b, 128);
  }

  /** The term for one coefficient. */
  lemma OneTerm(h: Block, v: nat, k: nat)
    ensures Congruent(Clmul(LowTerm(v, Pow2(k)), Polynomial(h)), Polynomial(Term(h, v, k)), FieldModulus())
  {
    if v % 2 == 1 {
      ClmulPower(k, Polynomial(h));
      TimesXPowIsProduct(h, k);
    } else {
      ReflectZero(128);
      CongruentRefl(0, FieldModulus());
      assert Clmul(0, Polynomial(h)) == 0;
    }
  }

  /** Multiply is the carry-less product modulo x^128 + x^7 + x^2 + x + 1. */
  lemma MultiplyIsFieldProduct(h: Block, b: Block)
    ensures Congruent(Clmul(Polynomial(b), Polynomial(h)), Polynomial(Multiply(h, b)), FieldModulus())
  {
    PartialIsProduct(h, b, 128);
    assert Shr(b, 0) == b;
  }

  /** There is no other block with that property. */
  lemma FieldProductUnique(h: Block, b: Block, r: Block)
    requires Congruent(Clmul(Polynomial(b), Polynomial(h)), Polynomial(r), FieldModulus())
    ensures r == Multiply(h, b)
  {
    var c, m, q := Clmul(Polynomial(b), Polynomial(h)), FieldModulus(), Multiply(h, b);
    MultiplyIsFieldProduct(h, b);
    BlockIs128Bits();
    ModulusSize();
    ReflectBound(r, 128);
    ReflectBound(q, 128);
    hide Clmul, Multiply, Reflect, Congruent, BitCount, Pow2, FieldModulus;
    CongruentSym(c, Polynomial(r), m);
    CongruentTrans(Polynomial(r), c, Polynomial(q), m);
    BitCountBound(Polynomial(r), 128);
    BitCountBound(Polynomial(q), 128);
    ResidueUnique(Polynomial(r), Polynomial(q), m);
    ReflectInjective(r, q);
  }

  lemma ModulusSize()
    ensures BitCount(FieldModulus()) > 128
  {
    BlockIs128Bits();
    BitCountBound(FieldModulus(), 128);
    hide BitCount;
  }

  /** The two factors can be exchanged. */
  lemma MultiplyCommutes(h: Block, b: Block)
    ensures Multiply(h, b) == Multiply(b, h)
  {
    MultiplyIsFieldProduct(b, h);
    ClmulComm(Polynomial(b), Polynomial(h));
    hide Clmul, Multiply, Reflect, Congruent;
    FieldProductUnique(h, b, Multiply(b, h));
  }

  /** Products can be regrouped. */
  lemma MultiplyAssociates(a: Block, b: Block, c: Block)
    ensures Multiply(Multiply(a, b), c) == Multiply(a, Multiply(b, c))
  {
    hide *;
    var m, pa, pb, pc := FieldModulus(), Polynomial(a), Polynomial(b), Polynomial(c);
    var ab, bc, all := Multiply(a, b), Multiply(b, c), Multiply(Multiply(a, b), c);
    // pc (pb pa) = pc ab = all
    MultiplyIsFieldProduct(a, b);
    MultiplyIsFieldProduct(ab, c);
    CongruentClmul(Clmul(pb, pa), Polynomial(ab), pc, m);
    CongruentTrans(Clmul(pc, Clmul(pb, pa)), Clmul(pc, Polynomial(ab)), Polynomial(all), m);
    // bc pa = pa bc = pa (pc pb) = pc (pb pa)
    MultiplyIsFieldProduct(b, c);
    CongruentClmul(Clmul(pc, pb), Polynomial(bc), pa, m);
    CongruentSym(Clmul(pa, Clmul(pc, pb)), Clmul(pa, Polynomial(bc)), m);
    ClmulComm(pa, Polynomial(bc));
    ClmulComm(pa, Clmul(pc, pb));
    ClmulAssoc(pc, pb, pa);
    CongruentTrans(Clmul(Polynomial(bc), pa), Clmul(pc, Clmul(pb, pa)), Polynomial(all), m);
    FieldProductUnique(a, bc, all);
  }

  /** Products distribute over sums. */
  lemma MultiplyDistributes(h: Block, a: Block, b: Block)
    ensures Multiply(h, Add(a, b)) == Add(Multiply(h, a), Multiply(h, b))
  {
    hide *;
    var m, p := FieldModulus(), Polynomial(h);
    MultiplyIsFieldProduct(h, a);
    MultiplyIsFieldProduct(h, b);
    PolynomialAdd(a, b);
    PolynomialAdd(Multiply(h, a), Multiply(h, b));
    ClmulDistributesLeft(Polynomial(a), Polynomial(b), p);
    CongruentXor(Clmul(Polynomial(a), p), Polynomial(Multiply(h, a)), Clmul(Polynomial(b), p), Polynomial(Multiply(h, b)), m);
    FieldProductUnique(h, Add(a, b), Add(Multiply(h, a), Multiply(h, b)));
  }

  // ---- GHASH as a polynomial in the key -----------------------------------------------------------

  /** h multiplied by itself, n factors in all. */
  function Power(h: Block, n: nat): Block
    requires n >= 1
  {
    if n == 1 then h else Multiply(Power(h, n - 1), h)
  }

  /** d[0] h^n + d[1] h^(n-1) + ..., down to the last block. */
  function PowerSum(h: Block, d: seq<Block>, n: nat): Block
    requires |d| <= n
  {
    if d == [] then 0 else Add(Multiply(d[0], Power(h, n)), PowerSum(h, d[1..], n - 1))
  }

  lemma PowerSumLast(h: Block, d: seq<Block>, n: nat)
    requires d != [] && |d| <= n
    ensures var k := |d| - 1; PowerSum(h, d, n) == Add(PowerSum(h, d[..k], n), Multiply(d[k], Power(h, n - k)))
  {
    hide Multiply, Add, Power;
    var k := |d| - 1;
    if k == 0 {
      AddLaws(Multiply(d[0], Power(h, n)), 0, 0);
    } else {
      PowerSumLast(h, d[1..], n - 1);
      assert d[1..][..k - 1] == d[..k][1..];
      AddLaws(Multiply(d[0], Power(h, n)), PowerSum(h, d[..k][1..], n - 1), Multiply(d[k], Power(h, n - k)));
    }
  }

  lemma TimesPower(h: Block, b: Block, n: nat)
    requires n >= 1
    ensures Multiply(h, Multiply(b, Power(h, n))) == Multiply(b, Power(h, n + 1))
  {
    hide Multiply;
    MultiplyCommutes(h, Multiply(b, Power(h, n)));
    MultiplyAssociates(b, Power(h, n), h);
  }

  lemma {:induction false} TimesPowerSum(h: Block, d: seq<Block>, n: nat)
    requires |d| <= n
    ensures Multiply(h, PowerSum(h, d, n)) == PowerSum(h, d, n + 1)
  {
    hide Multiply, Add, Power;
    if d == [] {
      MultiplyZero(h);
    } else {
      MultiplyDistributes(h, Multiply(d[0], Power(h, n)), PowerSum(h, d[1..], n - 1));
      TimesPower(h, d[0], n);
      TimesPowerSum(h, d[1..], n - 1);
    }
  }

  lemma MultiplyZero(h: Block)
    ensures Multiply(h, 0) == 0
  {
    hide Multiply, Add;
    MultiplyDistributes(h, 0, 0);
    AddLaws(0, 0, 0);
    AddLaws(Multiply(h, 0), 0, 0);
  }

  /** GHASH of n blocks is x h^n + d[0] h^n + d[1] h^(n-1) + ... + d[n-1] h, section 6.4 of NIST SP 800-38D. */
  lemma {:induction false} GhashIsPowerSum(h: Block, x: Block, d: seq<Block>)
    requires d != []
    ensures Ghash(h, x, d) == Add(Multiply(x, Power(h, |d|)), PowerSum(h, d, |d|))
  {
    hide Multiply, Add, Power, PowerSum;
    var k := |d| - 1;
    var last := Multiply(d[k], h);
    PowerOne(h);
    MultiplyCommutes(h, d[k]);
    MultiplyDistributes(h, Ghash(h, x, d[..k]), d[k]);
    PowerSumLast(h, d, k + 1);
    if k == 0 {
      assert d[..0] == [];
      NoBlocks(h, 1);
      AddLaws(0, last, 0);
      AddLaws(last, 0, 0);
      MultiplyCommutes(h, x);
    } else {
      GhashIsPowerSum(h, x, d[..k]);
      var head, rest := Multiply(x, Power(h, k)), PowerSum(h, d[..k], k);
      MultiplyDistributes(h, head, rest);
      TimesPower(h, x, k);
      TimesPowerSum(h, d[..k], k);
      AddLaws(Multiply(x, Power(h, k + 1)), PowerSum(h, d[..k], k + 1), last);
    }
  }

  lemma PowerOne(h: Block)
    ensures Power(h, 1) == h
  {}

  lemma NoBlocks(h: Block, n: nat)
    ensures PowerSum(h, [], n) == 0
  {}
}
