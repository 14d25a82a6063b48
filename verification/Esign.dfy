/** The ESIGN trapdoor function of esign.cpp, with modulus n = p^2 q, and its randomized inverse. */
module Esign {
  import opened Arithmetic
  import opened NumberTheory
  import opened Wrappers

  /** InvertibleESIGNFunction. */
  datatype PrivateKey = PrivateKey(n: nat, e: nat, p: nat, q: nat) {
    /** What GenerateRandom produces and Validate checks, short of primality. */
    ghost predicate Valid() {
      p > 1 && q > 1 && n == p * p * q && e >= 1 && BitCount(n) % 3 == 0 && BitCount(n) >= 6
    }
  }

  function GetK(n: nat): nat
    requires BitCount(n) >= 3
  {
    BitCount(n) / 3 - 1
  }

  /** ApplyFunction: the top k bits of x^e mod n, where the very top ones are cut off. */
  function ApplyFunction(n: nat, e: nat, x: int): int
    requires n > 0 && BitCount(n) >= 3
  {
    var top := Shr(PowerMod(x, e, n), 2 * GetK(n) + 2);
    var maxImage := Pow2(GetK(n)) - 1;
    if top < maxImage then top else maxImage
  }

  /**
   * In inequalities: with k + 1 a third of the length of n, the image of x is the number that x^e mod n has above its
   * low 2k + 2 bits, unless that is 2^k or more, when it is 2^k - 1.
   */
  lemma ImageOfNumber(n: nat, e: nat, x: int, k: nat)
    requires n > 0 && BitCount(n) == 3 * (k + 1)
    ensures var y, v := Power(x, e) % n, ApplyFunction(n, e, x);
            && 0 <= v < Pow2(k)
            && (y < Pow2(3 * k + 2) ==> v * Pow2(2 * k + 2) <= y < (v + 1) * Pow2(2 * k + 2))
            && (y >= Pow2(3 * k + 2) ==> v == Pow2(k) - 1)
  {
    var y := PowerMod(x, e, n);
    assert GetK(n) == k && y == Power(x, e) % n;
    hide Power, PowerMod, BitCount, Shr, Pow2;
    ShrIsDivision(y, 2 * k + 2);
    Pow2Add(k, 2 * k + 2);
    Capped(y, Pow2(2 * k + 2), Pow2(k));
  }

  lemma Capped(y: nat, p: nat, bound: nat)
    requires p > 0 && bound > 0
    ensures var v := if y / p < bound - 1 then y / p else bound - 1;
            && 0 <= v < bound && (y < bound * p ==> v * p <= y < (v + 1) * p) && (y >= bound * p ==> v == bound - 1)
  {
    Quotient(y, p, bound);
  }

  lemma Quotient(y: nat, p: nat, bound: nat)
    requires p > 0
    ensures y / p * p <= y < (y / p + 1) * p && (y < bound * p <==> y / p < bound)
  {
    DivMod(y, p);
    var q := y / p;
    NextMultiple(q, p);
    if q < bound { MulMono(q + 1, bound, p); } else { MulMono(bound, q, p); }
  }

  lemma NextMultiple(q: int, p: int)
    ensures (q + 1) * p == q * p + p
  {}

  // ---- Powers of r + t m when n divides m^2 ------------------------------------------

  /** The derivative of x^e. */
  function Derivative(r: int, e: nat): int {
    if e == 0 then 0 else e * Power(r, e - 1)
  }

  lemma DerivativeSucc(r: int, e: nat)
    ensures Derivative(r, e + 1) == r * Derivative(r, e) + Power(r, e)
  {
    if e > 0 {
      var w := Power(r, e - 1);
      assert r * (e * w) == e * (r * w);
      assert (e + 1) * (r * w) == e * (r * w) + r * w;
    }
  }

  /** (r + t m)^e = r^e + e r^(e-1) t m modulo n. */
  lemma {:induction false} PowerOfSum(r: int, t: int, m: int, e: nat, n: int, c: int)
    requires n > 0 && m * m == c * n
    ensures Congruent(Power(r + t * m, e), Power(r, e) + Derivative(r, e) * (t * m), n)
  {
    if e > 0 {
      PowerOfSum(r, t, m, e - 1, n, c);
      var w, d := Power(r, e - 1), Derivative(r, e - 1);
      CongruentMul(r + t * m, r + t * m, Power(r + t * m, e - 1), w + d * (t * m), n);
      Expand(r, t, m, w, d, c, n);
      DerivativeSucc(r, e - 1);
      CongruentBy((r + t * m) * (w + d * (t * m)), Power(r, e) + Derivative(r, e) * (t * m), n, t * t * d * c);
    }
  }

  lemma Expand(r: int, t: int, m: int, w: int, d: int, c: int, n: int)
    requires m * m == c * n
    ensures (r + t * m) * (w + d * (t * m)) == r * w + (r * d + w) * (t * m) + (t * t * d * c) * n
  {
    ExpandSquare(r, t, m, w, d);
    assert (t * t * d) * (m * m) == (t * t * d) * (c * n);
    assert (t * t * d) * (c * n) == (t * t * d * c) * n;
  }

  lemma ExpandSquare(r: int, t: int, m: int, w: int, d: int)
    ensures (r + t * m) * (w + d * (t * m)) == r * w + (r * d + w) * (t * m) + (t * t * d) * (m * m)
  {
  }

  // ---- One attempt ---------------------------------------------------------------------

  /** The quotient and remainder the attempt with a computes: a = w0 pq - w1 with 0 <= w1 < pq. */
  function RoundUp(a: nat, pq: nat): (w: (nat, nat))
    requires pq > 0
    ensures a == w.0 * pq - w.1 && w.1 < pq
  {
    DivMod(a, pq);
    var w0, w1 := a / pq, a % pq;
    if w1 != 0 then
      RoundedUp(a, w0, w1, pq);
      (w0 + 1, pq - w1)
    else (w0, w1)
  }

  lemma RoundedUp(a: int, w0: int, w1: int, pq: int)
    requires a == w0 * pq + w1
    ensures a == (w0 + 1) * pq - (pq - w1)
  {
  }

  /** The t that makes the derivative term w0 modulo p. */
  lemma ChosenT(p: nat, e: nat, r: nat, re: nat, w0: nat, u: nat, t: nat)
    requires p > 1 && e >= 1 && Congruent(re, Power(r, e), p)
    requires Congruent(e * re % p * u, 1, p)
    requires t == w0 * r % p * u % p
    ensures Congruent(Derivative(r, e) * t, w0, p)
  {
    var w := Power(r, e - 1);
    var d := Derivative(r, e);
    CongruentMod(w0 * r % p * u, p);
    CongruentMod(w0 * r, p);
    CongruentMul(w0 * r % p, w0 * r, u, u, p);
    CongruentMul(d, d, t, w0 * r % p * u, p);
    CongruentMul(d, d, w0 * r % p * u, w0 * r * u, p);
    // d (w0 r u) = w0 (e r^e u)
    assert d * (w0 * r * u) == w0 * (e * (r * w) * u) by { Reorder(e, w, w0, r, u); }
    CongruentMul(e, e, re, Power(r, e), p);
    CongruentMod(e * re, p);
    CongruentMul(e * re % p, e * re, u, u, p);
    CongruentMul(e * re, e * Power(r, e), u, u, p);
    CongruentMul(w0, w0, e * (r * w) * u, 1, p);
  }

  lemma Reorder(e: int, w: int, w0: int, r: int, u: int)
    ensures (e * w) * (w0 * r * u) == w0 * (e * (r * w) * u)
  {
  }

  /** z + w1 stays below n: the top bits of the power are exactly x. */
  lemma ImageFits(n: nat, x: nat, w1: nat)
    requires n > 0 && BitCount(n) % 3 == 0 && BitCount(n) >= 6
    requires x < Pow2(GetK(n)) && w1 < Pow2(2 * GetK(n) + 1)
    ensures 0 <= Shl(x, 2 * GetK(n) + 2) + w1 < n
    ensures Shr(Shl(x, 2 * GetK(n) + 2) + w1, 2 * GetK(n) + 2) == x
  {
    var k := GetK(n);
    var P := Pow2(2 * k + 2);
    BitCountBound(n, BitCount(n) - 1);
    assert w1 < P;
    hide BitCount, Pow2, Shl, Shr;
    assert BitCount(n) - 1 == k + (2 * k + 2);
    Pow2Add(k, 2 * k + 2);
    ShlIsMultiplication(x, 2 * k + 2);
    assert x * P + P == (x + 1) * P;
    MulMono(x + 1, Pow2(k), P);
    MulMono(0, x, P);
    ShrIsDivision(x * P + w1, 2 * k + 2);
    DivModUnique(x * P + w1, P, x, w1);
  }

  lemma Factors(p: nat, q: nat, n: nat)
    requires n == p * p * q
    ensures p * (p * q) == n && (p * q) * (p * q) == q * n && (p * q) * p == n
  {
    assert p * (p * q) == p * p * q;
    assert (p * q) * (p * q) == q * (p * p * q);
  }

  lemma ModulusPositive(key: PrivateKey)
    requires key.Valid()
    ensures key.p * key.q > 0 && key.n > 0
  {
    MulMono(1, key.p, key.q);
    Factors(key.p, key.q, key.n);
    MulMono(1, key.p, key.p * key.q);
  }

  /** Reducing modulo n does not change the power modulo p. */
  lemma PowerModuloFactor(key: PrivateKey, r: nat)
    requires key.Valid() && key.n > 0
    ensures Congruent(PowerMod(r, key.e, key.n), Power(r, key.e), key.p)
  {
    hide Power, BitCount, Congruent;
    var p, n := key.p, key.n;
    var re, w := PowerMod(r, key.e, n), Power(r, key.e);
    CongruentMod(w, n);
    var j := CongruentDiffers(re, w, n);
    Factors(p, key.q, n);
    assert j * n == (j * (p * key.q)) * p;
    CongruentBy(re, w, p, j * (p * key.q));
  }

  /** e r^e is invertible modulo p, reduced or not. */
  lemma DivisorInvertible(key: PrivateKey, r: nat)
    requires key.Valid() && key.n > 0 && Gcd(r, key.p) == 1 && Gcd(key.e, key.p) == 1
    ensures var re := PowerMod(r, key.e, key.n);
            key.e * re % key.p >= 0 && Gcd(key.e * re % key.p, key.p) == 1
  {
    hide Power, Gcd, BitCount, Congruent, PowerMod;
    var p, e := key.p, key.e;
    var w, re := Power(r, e), PowerMod(r, e, key.n);
    PowerModuloFactor(key, r);
    CoprimePower(r, e, p);
    CoprimeProduct(e, w, p);
    CongruentSame(e, p);
    CongruentMul(e, e, re, w, p);
    MulMono(0, e, re);
    CoprimeCongruent(e * w, e * re, p);
    CongruentMod(e * re, p);
    CoprimeCongruent(e * re, e * re % p, p);
  }

  /** With that t, the e-th power of s = r + t pq is re + w0 pq modulo n. */
  lemma PowerOfS(key: PrivateKey, r: nat, t: nat, w0: nat)
    requires key.Valid() && key.n > 0 && Congruent(Derivative(r, key.e) * t, w0, key.p)
    ensures Congruent(Power(r + t * (key.p * key.q), key.e), PowerMod(r, key.e, key.n) + w0 * (key.p * key.q), key.n)
  {
    var p, q, n, e, m := key.p, key.q, key.n, key.e, key.p * key.q;
    Factors(p, q, n);
    PowerOfSum(r, t, m, e, n, q);
    var d := Derivative(r, e);
    var j := CongruentDiffers(d * t, w0, p);
    assert d * (t * m) == w0 * m + j * n by { Scale(d, t, m, w0, j, p, n); }
    CongruentBy(d * (t * m), w0 * m, n, j);
    CongruentMod(Power(r, e), n);
    CongruentAdd(Power(r, e), PowerMod(r, e, n), d * (t * m), w0 * m, n);
  }

  lemma Scale(d: int, t: int, m: int, w0: int, j: int, p: int, n: int)
    requires d * t == w0 + j * p && p * m == n
    ensures d * (t * m) == w0 * m + j * n
  {
    assert d * (t * m) == (d * t) * m;
    assert (w0 + j * p) * m == w0 * m + (j * p) * m;
    assert (j * p) * m == j * (p * m);
  }

  /** The t of s = r + t pq. */
  function Factor(key: PrivateKey, r: nat, w0: nat): (t: nat)
    requires key.p > 1 && key.n > 0
    ensures t < key.p
  {
    var re := PowerMod(r, key.e, key.n);
    MulMono(0, key.e, re);
    w0 * r % key.p * InverseMod(key.e * re % key.p, key.p) % key.p
  }

  /** The s computed from r. */
  function Candidate(key: PrivateKey, r: nat, w0: nat): (s: nat)
    requires key.Valid() && key.n > 0
  {
    MulMono(0, Factor(key, r, w0), key.p * key.q);
    r + Factor(key, r, w0) * (key.p * key.q)
  }

  /** The a computed from x and r. */
  function Difference(key: PrivateKey, x: nat, r: nat): (a: nat)
    requires key.n > 0 && BitCount(key.n) >= 3
  {
    (Shl(x, 2 * GetK(key.n) + 2) - PowerMod(r, key.e, key.n)) % key.n
  }

  /** The loop condition: w1 has no bit from position 2k+1 on. */
  predicate Accepted(key: PrivateKey, x: nat, r: nat)
    requires key.Valid()
  {
    ModulusPositive(key);
    Shr(RoundUp(Difference(key, x, r), key.p * key.q).1, 2 * GetK(key.n) + 1) == 0
  }

  /** w more than a is a multiple of m. */
  ghost predicate Completes(a: nat, w: nat, m: nat)
    requires m > 0
  {
    (a + w) % m == 0
  }

  /** r is accepted exactly if the next multiple of pq from x 2^(2k+2) - r^e mod n on is less than 2^(2k+1) away. */
  lemma AcceptedExactly(key: PrivateKey, x: nat, r: nat, k: nat)
    requires key.Valid() && key.n > 0 && key.p * key.q > 0 && BitCount(key.n) == 3 * (k + 1)
    ensures var a := (x * Pow2(2 * k + 2) - Power(r, key.e)) % key.n;
            Accepted(key, x, r) <==> exists w: nat :: w < Pow2(2 * k + 1) && w < key.p * key.q && Completes(a, w, key.p * key.q)
  {
    var n, m, a := key.n, key.p * key.q, Difference(key, x, r);
    assert GetK(n) == k;
    ShlIsMultiplication(x, 2 * k + 2);
    hide Power, BitCount, Shl, Shr, Pow2, RoundUp;
    ReducedSubtrahend(x * Pow2(2 * k + 2), Power(r, key.e), n);
    assert a == (x * Pow2(2 * k + 2) - Power(r, key.e)) % n;
    var (w0, w1) := RoundUp(a, m);
    RoundUpCompletes(a, w0, w1, m);
    ShiftIsZero(w1, 2 * k + 1);
    forall w: nat | w < m && Completes(a, w, m) ensures w == w1 {
      OnlyOne(a, w, w0, w1, m);
    }
  }

  lemma ReducedSubtrahend(z: int, w: int, n: int)
    requires n > 0
    ensures (z - w % n) % n == (z - w) % n
  {
    DivMod(w, n);
    ModAddMultiple(z - w, w / n, n);
  }

  lemma RoundUpCompletes(a: nat, w0: nat, w1: nat, m: nat)
    requires m > 0 && a == w0 * m - w1
    ensures Completes(a, w1, m)
  {
    DivModUnique(a + w1, m, w0, 0);
  }

  lemma OnlyOne(a: nat, w: nat, w0: nat, w1: nat, m: nat)
    requires m > 0 && w < m && w1 < m && a == w0 * m - w1 && Completes(a, w, m)
    ensures w == w1
  {
    var j := (a + w) / m;
    DivMod(a + w, m);
    if j < w0 { MulMono(j + 1, w0, m); } else if w0 < j { MulMono(w0 + 1, j, m); }
    assert (j + 1) * m == j * m + m && (w0 + 1) * m == w0 * m + m;
  }

  lemma ShiftIsZero(w: nat, k: nat)
    ensures Shr(w, k) == 0 <==> w < Pow2(k)
  {
    hide Shr, Pow2;
    ShrIsDivision(w, k);
    DivMod(w, Pow2(k));
    if w < Pow2(k) { DivModUnique(w, Pow2(k), 0, w); }
  }

  /** What is returned for an accepted r. */
  function Inverse(key: PrivateKey, x: nat, r: nat): (s: nat)
    requires key.Valid()
  {
    ModulusPositive(key);
    Candidate(key, r, RoundUp(Difference(key, x, r), key.p * key.q).0)
  }

  lemma CandidateBelowN(key: PrivateKey, r: nat, w0: nat)
    requires key.Valid() && key.n > 0 && r < key.p * key.q
    ensures Candidate(key, r, w0) < key.n
  {
    hide Factor, BitCount;
    Factors(key.p, key.q, key.n);
    SumBelow(r, Factor(key, r, w0), key.p * key.q, key.p);
  }

  lemma SumBelow(r: nat, t: nat, m: nat, p: nat)
    requires r < m && t < p
    ensures r + t * m < p * m
  {
    MulMono(t + 1, p, m);
  }

  lemma CandidatePower(key: PrivateKey, r: nat, w0: nat)
    requires key.Valid() && key.n > 0 && Gcd(r, key.p) == 1 && Gcd(key.e, key.p) == 1
    ensures Congruent(Power(Candidate(key, r, w0), key.e), PowerMod(r, key.e, key.n) + w0 * (key.p * key.q), key.n)
  {
    var p := key.p;
    var re := PowerMod(r, key.e, key.n);
    DivisorInvertible(key, r);
    PowerModuloFactor(key, r);
    var u := InverseMod(key.e * re % p, p);
    InverseModCorrect(key.e * re % p, p);
    MulMono(0, w0, r);
    var t := Factor(key, r, w0);
    ChosenT(p, key.e, r, re, w0, u, t);
    PowerOfS(key, r, t, w0);
  }

  /** Every accepted r that is coprime to p, as e must be, leads to a preimage of x. */
  lemma CoprimeIsPreimage(key: PrivateKey, x: nat, r: nat)
    requires key.Valid() && key.p * key.q > 0 && key.n > 0
    requires x < Pow2(GetK(key.n)) && Gcd(r, key.p) == 1 && Gcd(key.e, key.p) == 1 && Accepted(key, x, r)
    ensures ApplyFunction(key.n, key.e, Inverse(key, x, r)) == x
  {
    var n, m := key.n, key.p * key.q;
    var (w0, w1) := RoundUp(Difference(key, x, r), m);
    hide Candidate, Difference, BitCount, Shl, Gcd, Power;
    CandidatePower(key, r, w0);
    ZeroShift(w1, 2 * GetK(n) + 1);
    SumIsImage(key, x, r);
    ImageOf(n, key.e, Candidate(key, r, w0), PowerMod(r, key.e, n) + w0 * m, x, w1);
  }

  /** If e r^e is invertible modulo p, then e and r are coprime to p. */
  lemma InvertibleDivisor(key: PrivateKey, r: nat)
    requires key.Valid() && key.n > 0 && key.e * PowerMod(r, key.e, key.n) % key.p >= 0
    requires Gcd(key.e * PowerMod(r, key.e, key.n) % key.p, key.p) == 1
    ensures Gcd(r, key.p) == 1 && Gcd(key.e, key.p) == 1
  {
    var p, e, n := key.p, key.e, key.n;
    var re, w := PowerMod(r, e, n), Power(r, e - 1);
    var d := e * re % p;
    var u := InverseMod(d, p);
    assert Power(r, e) == r * w;
    PowerModuloFactor(key, r);
    hide Power, PowerMod, Gcd, Congruent, BitCount, InverseMod;
    // 1 = d u = e re u = e (r w) u modulo p
    InverseModCorrect(d, p);
    CongruentMod(e * re, p);
    CongruentSame(u, p);
    CongruentSame(e, p);
    CongruentMul(d, e * re, u, u, p);
    CongruentMul(e, e, re, r * w, p);
    CongruentMul(e * re, e * (r * w), u, u, p);
    Chain(d * u, 1, e * re * u, e * (r * w) * u, p);
    Regrouped(e, r, w, u);
    InvertibleIsCoprime(e, r * w * u, p);
    InvertibleIsCoprime(r, e * w * u, p);
  }

  lemma Regrouped(e: int, r: int, w: int, u: int)
    ensures e * (r * w) * u == e * (r * w * u) && e * (r * w) * u == r * (e * w * u)
  {}

  lemma Chain(a: int, b: int, c: int, d: int, n: int)
    requires n > 0 && Congruent(a, b, n) && Congruent(a, c, n) && Congruent(c, d, n)
    ensures Congruent(d, b, n)
  {}

  /** If r or e has a factor in common with p, then there is no inverse and t is zero. */
  lemma NoInverse(key: PrivateKey, r: nat, w0: nat)
    requires key.Valid() && key.n > 0 && (Gcd(r, key.p) != 1 || Gcd(key.e, key.p) != 1)
    ensures Candidate(key, r, w0) == r
  {
    var re := PowerMod(r, key.e, key.n);
    MulMono(0, key.e, re);
    MulMono(0, w0, r);
    var d := key.e * re % key.p;
    if Gcd(d, key.p) == 1 { InvertibleDivisor(key, r); }
    hide PowerMod, Gcd, BitCount;
    assert InverseMod(d, key.p) == 0;
    hide InverseMod;
    assert Factor(key, r, w0) == 0 by { ZeroFactor(w0 * r % key.p, key.p); }
  }

  lemma ZeroFactor(a: int, p: int)
    requires p > 0
    ensures a * 0 % p == 0
  {}

  lemma ImageBound(n: nat, e: nat, s: int)
    requires n > 0 && BitCount(n) >= 3
    ensures ApplyFunction(n, e, s) < Pow2(GetK(n))
  {
    hide BitCount, PowerMod, Shr;
  }

  /**
   What an accepted r leads to: a number below n which is a preimage of x exactly if r and e are coprime to p,
   or r is a preimage already.
   */
  lemma AcceptedIsPreimage(key: PrivateKey, x: nat, r: nat)
    requires key.Valid() && key.n > 0 && r <= key.p * key.q && Accepted(key, x, r)
    ensures Inverse(key, x, r) < key.n && exists t: nat :: t < key.p && Inverse(key, x, r) == r + t * (key.p * key.q)
    ensures ApplyFunction(key.n, key.e, Inverse(key, x, r)) == x
            <==> x < Pow2(GetK(key.n)) && ((Gcd(r, key.p) == 1 && Gcd(key.e, key.p) == 1) || ApplyFunction(key.n, key.e, r) == x)
  {
    ModulusPositive(key);
    var n, m := key.n, key.p * key.q;
    var w0 := RoundUp(Difference(key, x, r), m).0;
    ImageBound(n, key.e, Inverse(key, x, r));
    var coprime := Gcd(r, key.p) == 1 && Gcd(key.e, key.p) == 1;
    if coprime {
      assert r < m by { if r == m { MultipleNotCoprime(key.p, key.q); } }
      CandidateBelowN(key, r, w0);
      if x < Pow2(GetK(n)) { CoprimeIsPreimage(key, x, r); }
    } else {
      NoInverse(key, r, w0);
      Factors(key.p, key.q, n);
      MulMono(2, key.p, m);
    }
    hide *;
  }

  /** re + w0 pq = re + a + w1 = z + w1 modulo n. */
  lemma SumIsImage(key: PrivateKey, x: nat, r: nat)
    requires key.n > 0 && BitCount(key.n) >= 3 && key.p * key.q > 0
    ensures var (w0, w1) := RoundUp(Difference(key, x, r), key.p * key.q);
            Congruent(PowerMod(r, key.e, key.n) + w0 * (key.p * key.q), Shl(x, 2 * GetK(key.n) + 2) + w1, key.n)
  {
    var n, m, a := key.n, key.p * key.q, Difference(key, x, r);
    var (w0, w1) := RoundUp(a, m);
    var z, re := Shl(x, 2 * GetK(n) + 2), PowerMod(r, key.e, n);
    assert a == (z - re) % n;
    hide Difference, BitCount, Shl, PowerMod, Congruent, RoundUp;
    CongruentMod(z - re, n);
    CongruentSame(re + w1, n);
    CongruentAdd(a, z - re, re + w1, re + w1, n);
  }

  lemma CongruentSame(a: int, n: int)
    requires n > 0
    ensures Congruent(a, a, n)
  {}

  /** A number whose e-th power is z + w1 modulo n is a preimage of x. */
  lemma ImageOf(n: nat, e: nat, s: nat, power: int, x: nat, w1: nat)
    requires n > 0 && BitCount(n) % 3 == 0 && BitCount(n) >= 6
    requires x < Pow2(GetK(n)) && w1 < Pow2(2 * GetK(n) + 1)
    requires Congruent(Power(s, e), power, n) && Congruent(power, Shl(x, 2 * GetK(n) + 2) + w1, n)
    ensures ApplyFunction(n, e, s) == x
  {
    ImageFits(n, x, w1);
    hide BitCount, Shl, Shr, Power, Pow2;
    var image := Shl(x, 2 * GetK(n) + 2) + w1;
    DivModUnique(image, n, 0, image);
  }

  lemma ZeroShift(w: nat, k: nat)
    requires Shr(w, k) == 0
    ensures w < Pow2(k)
  {
    ShrSplits(w, k);
    ShlIsMultiplication(0, k);
  }

  lemma MultipleNotCoprime(p: nat, q: nat)
    requires p > 1 && p * q >= 0
    ensures Gcd(p * q, p) != 1
  {
    assert p * q == q * p;
    DivModUnique(p * q, p, q, 0);
    assert Gcd(p * q, p) == Gcd(p, 0);
  }

  /**
   CalculateRandomizedInverse, on the random numbers it draws from 0 to pq: the first
   accepted one decides.  None stands for a loop that has not ended yet.
   */
  method CalculateRandomizedInverse(key: PrivateKey, x: nat, draws: seq<nat>) returns (s: Option<nat>, used: nat)
    requires key.Valid() && key.n > 0
    requires forall i :: 0 <= i < |draws| ==> draws[i] <= key.p * key.q
    ensures forall i :: 0 <= i < used ==> i < |draws| && !Accepted(key, x, draws[i])
    ensures s.None? ==> used == |draws|
    ensures s.Some? ==> used < |draws| && Accepted(key, x, draws[used]) && s.value < key.n
    ensures s.Some? ==> exists t: nat :: t < key.p && s.value == draws[used] + t * (key.p * key.q)
    ensures s.Some? ==>
              (ApplyFunction(key.n, key.e, s.value) == x
               <==> x < Pow2(GetK(key.n)) && ((Gcd(draws[used], key.p) == 1 && Gcd(key.e, key.p) == 1)
                                              || ApplyFunction(key.n, key.e, draws[used]) == x))
  {
    hide Accepted, Inverse, ApplyFunction, Gcd, Pow2, BitCount;
    used := 0;
    while used < |draws|
      invariant used <= |draws|
      invariant forall i :: 0 <= i < used ==> !Accepted(key, x, draws[i])
    {
      var r := draws[used];
      if Accepted(key, x, r) {
        AcceptedIsPreimage(key, x, r);
        return Some(Inverse(key, x, r)), used;
      }
      used := used + 1;
    }
    s := None;
  }

  // ---- The draw zero -------------------------------------------------------------------

  lemma {:induction false} PowerOfZero(e: nat)
    requires e >= 1
    ensures Power(0, e) == 0
  {}

  lemma ZeroImage(n: nat, e: nat)
    requires n > 0 && BitCount(n) >= 3 && e >= 1
    ensures ApplyFunction(n, e, 0) == 0
  {
    hide Power, BitCount, Shr, Pow2;
    PowerOfZero(e);
    ZeroMod(n);
    ShrZero(2 * GetK(n) + 2);
  }

  lemma {:induction false} ShrZero(k: nat)
    ensures Shr(0, k) == 0
  {
    if k > 0 { ShrZero(k - 1); }
  }

  lemma ZeroMod(n: nat)
    requires n > 0
    ensures 0 % n == 0
  {}

  /** For every key, if the draw r = 0 is accepted, then it is inverted exactly for x = 0. */
  lemma ZeroDraw(key: PrivateKey, x: nat)
    requires key.Valid() && key.n > 0 && Accepted(key, x, 0)
    ensures ApplyFunction(key.n, key.e, Inverse(key, x, 0)) == x <==> x == 0
  {
    ModulusPositive(key);
    AcceptedIsPreimage(key, x, 0);
    ZeroImage(key.n, key.e);
    ZeroNotCoprime(key.p);
    hide *;
  }

  lemma ZeroNotCoprime(p: nat)
    requires p > 1
    ensures Gcd(0, p) == p
  {
    ZeroMod(p);
  }

  lemma BitCount2197()
    ensures BitCount(2197) == 12
  {
    assert BitCount(4) == 3;
    assert BitCount(34) == 6;
    assert BitCount(274) == 9;
  }

  lemma ZeroDrawNumbers(key: PrivateKey)
    requires key == PrivateKey(2197, 8, 13, 13)
    ensures BitCount(2197) == 12 && Difference(key, 1, 0) == 256 && RoundUp(256, 169) == (2, 82) && Shr(82, 7) == 0
  {
    hide BitCount, Power, Shl, Shr, Pow2;
    BitCount2197();
    PowerOfZero(8);
    ShlOne(8);
    Pow2Values();
    ShrIsDivision(82, 7);
    assert GetK(2197) == 3 && PowerMod(0, 8, 2197) == 0;
  }

  /** The draw r = 0 does get accepted with other x: this key and x = 1. */
  lemma ZeroDrawFails(key: PrivateKey)
    requires key == PrivateKey(2197, 8, 13, 13)
    ensures key.Valid() && 1 < Pow2(GetK(key.n)) && Accepted(key, 1, 0)
    ensures ApplyFunction(key.n, key.e, Inverse(key, 1, 0)) != 1
  {
    ZeroDrawNumbers(key);
    Pow2Values();
    hide BitCount, Shl, Power, Gcd, Candidate, ApplyFunction, Shr, Difference, RoundUp, Inverse;
    assert GetK(2197) == 3;
    assert Accepted(key, 1, 0);
    ZeroDraw(key, 1);
  }
}
