/** Powers and remainders, for the number-theoretic inversions. */
module NumberTheory {
  import opened Arithmetic

  function Power(b: int, e: nat): int {
    if e == 0 then 1 else b * Power(b, e - 1)
  }

  lemma {:induction false} PowerAdd(b: int, i: nat, j: nat)
    ensures Power(b, i + j) == Power(b, i) * Power(b, j)
  {
    if i > 0 {
      PowerAdd(b, i - 1, j);
      assert b * (Power(b, i - 1) * Power(b, j)) == (b * Power(b, i - 1)) * Power(b, j);
    }
  }

  lemma {:induction false} PowerMul(b: int, i: nat, j: nat)
    ensures Power(b, i * j) == Power(Power(b, i), j)
  {
    if j > 0 {
      PowerMul(b, i, j - 1);
      assert i * j == i + i * (j - 1);
      PowerAdd(b, i, i * (j - 1));
    }
  }

  lemma {:induction false} PowerOne(e: nat)
    ensures Power(1, e) == 1
  {
    if e > 0 { PowerOne(e - 1); }
  }

  lemma {:induction false} PowerNonNegative(b: nat, e: nat)
    ensures Power(b, e) >= 0
  {
    if e > 0 {
      PowerNonNegative(b, e - 1);
      MulMono(0, b, Power(b, e - 1));
    }
  }

  /** a and b leave the same remainder. */
  ghost predicate Congruent(a: int, b: int, n: int) requires n > 0 {
    a % n == b % n
  }

  lemma CongruentBy(a: int, b: int, n: int, k: int)
    requires n > 0 && a == b + k * n
    ensures Congruent(a, b, n)
  {
    ModAddMultiple(b, k, n);
  }

  /** The multiple by which congruent numbers differ. */
  lemma CongruentDiffers(a: int, b: int, n: int) returns (k: int)
    requires n > 0 && Congruent(a, b, n)
    ensures a == b + k * n
  {
    DivMod(a, n);
    DivMod(b, n);
    k := a / n - b / n;
    assert (a / n - b / n) * n == a / n * n - b / n * n;
  }

  lemma CongruentAdd(a: int, b: int, c: int, d: int, n: int)
    requires n > 0 && Congruent(a, b, n) && Congruent(c, d, n)
    ensures Congruent(a + c, b + d, n)
  {
    var k := CongruentDiffers(a, b, n);
    var l := CongruentDiffers(c, d, n);
    assert (k + l) * n == k * n + l * n;
    CongruentBy(a + c, b + d, n, k + l);
  }

  lemma CongruentMul(a: int, b: int, c: int, d: int, n: int)
    requires n > 0 && Congruent(a, b, n) && Congruent(c, d, n)
    ensures Congruent(a * c, b * d, n)
  {
    var k := CongruentDiffers(a, b, n);
    var l := CongruentDiffers(c, d, n);
    CrossTerms(b, k, d, l, n);
    CongruentBy(a * c, b * d, n, b * l + k * d + k * (l * n));
  }

  lemma CrossTerms(b: int, k: int, d: int, l: int, n: int)
    ensures (b + k * n) * (d + l * n) == b * d + (b * l + k * d + k * (l * n)) * n
  {
  }

  lemma CongruentMod(a: int, n: int)
    requires n > 0
    ensures Congruent(a % n, a, n)
  {
    DivMod(a, n);
    DivModUnique(a % n, n, 0, a % n);
  }

  lemma {:induction false} CongruentPower(a: int, b: int, e: nat, n: int)
    requires n > 0 && Congruent(a, b, n)
    ensures Congruent(Power(a, e), Power(b, e), n)
  {
    if e > 0 {
      CongruentPower(a, b, e - 1, n);
      CongruentMul(a, b, Power(a, e - 1), Power(b, e - 1), n);
    }
  }

  /** a_exp_b_mod_c, and ModularArithmetic::Exponentiate. */
  function PowerMod(b: int, e: nat, n: int): (r: int)
    requires n > 0
    ensures 0 <= r < n
  {
    Power(b, e) % n
  }

  // ---- Greatest common divisors ------------------------------------------------------

  function Gcd(a: nat, b: nat): nat
    decreases b
  {
    if b == 0 then a else Gcd(b, a % b)
  }

  /** Coefficients of the greatest common divisor: the extended Euclidean algorithm. */
  function Bezout(a: nat, b: nat): (c: (int, int))
    decreases b
  {
    if b == 0 then (1, 0)
    else var (x, y) := Bezout(b, a % b); (y, x - a / b * y)
  }

  lemma {:induction false} BezoutCorrect(a: nat, b: nat)
    ensures a * Bezout(a, b).0 + b * Bezout(a, b).1 == Gcd(a, b)
    decreases b
  {
    if b > 0 {
      var r, q := a % b, a / b;
      BezoutCorrect(b, r);
      var (x, y) := Bezout(b, r);
      DivMod(a, b);
      BezoutStep(b, r, q, x, y);
    }
  }

  lemma BezoutStep(b: int, r: int, q: int, x: int, y: int)
    ensures (q * b + r) * y + b * (x - q * y) == b * x + r * y
  {
  }

  lemma {:induction false} GcdDivides(a: nat, b: nat) returns (k: nat, l: nat)
    ensures a == k * Gcd(a, b) && b == l * Gcd(a, b)
    decreases b
  {
    if b == 0 {
      k, l := 1, 0;
    } else {
      var m, n := GcdDivides(b, a % b);
      var g := Gcd(a, b);
      DivMod(a, b);
      k, l := a / b * m + n, m;
      assert (a / b * m + n) * g == a / b * (m * g) + n * g by {
        assert (a / b * m) * g == a / b * (m * g);
      }
    }
  }

  /** A number with an inverse modulo m has no factor in common with m. */
  lemma InvertibleIsCoprime(a: nat, u: int, m: nat)
    requires m > 1 && Congruent(a * u, 1, m)
    ensures Gcd(a, m) == 1
  {
    var k, l := GcdDivides(a, m);
    var g := Gcd(a, m);
    var j := CongruentDiffers(a * u, 1, m);
    var c := k * u - j * l;
    CommonFactor(k, l, u, j, g);
    DividesOne(c, g);
  }

  lemma CommonFactor(k: int, l: int, u: int, j: int, g: int)
    ensures (k * u - j * l) * g == (k * g) * u - j * (l * g)
  {
  }

  lemma DividesOne(c: int, g: nat)
    requires c * g == 1
    ensures g == 1
  {
    if g >= 2 {
      if c <= 0 { MulMono(c, 0, g); } else { MulMono(1, c, g); }
    }
  }

  /** Integer::InverseMod: the inverse where there is one, otherwise 0. */
  function InverseMod(a: nat, m: nat): (u: nat)
    requires m > 1
    ensures u < m
  {
    if Gcd(a, m) == 1 then Bezout(a, m).0 % m else 0
  }

  lemma InverseModCorrect(a: nat, m: nat)
    requires m > 1 && Gcd(a, m) == 1
    ensures Congruent(a * InverseMod(a, m), 1, m)
  {
    var (x, y) := Bezout(a, m);
    BezoutCorrect(a, m);
    hide Gcd, Bezout, Congruent;
    CongruentMod(x, m);
    CongruentBy(a, a, m, 0);
    CongruentMul(a, a, x % m, x, m);
    NegatedFactor(m, y);
    CongruentBy(a * x, 1, m, -y);
    CongruentChain(a * (x % m), a * x, 1, m);
  }

  lemma NegatedFactor(m: int, y: int)
    ensures (-y) * m == -(m * y)
  {}

  lemma CongruentChain(a: int, b: int, c: int, n: int)
    requires n > 0 && Congruent(a, b, n) && Congruent(b, c, n)
    ensures Congruent(a, c, n)
  {}

  /** Products and powers of numbers coprime to m are coprime to m. */
  lemma CoprimeProduct(a: nat, b: nat, m: nat)
    requires m > 1 && Gcd(a, m) == 1 && Gcd(b, m) == 1
    ensures a * b >= 0 && Gcd(a * b, m) == 1
  {
    var u, v := InverseMod(a, m), InverseMod(b, m);
    InverseModCorrect(a, m);
    InverseModCorrect(b, m);
    CongruentMul(a * u, 1, b * v, 1, m);
    assert (a * u) * (b * v) == (a * b) * (u * v);
    MulMono(0, a, b);
    InvertibleIsCoprime(a * b, u * v, m);
  }

  lemma {:induction false} CoprimePower(a: nat, e: nat, m: nat)
    requires m > 1 && Gcd(a, m) == 1
    ensures Power(a, e) >= 0 && Gcd(Power(a, e), m) == 1
  {
    if e == 0 {
      CongruentBy(1 * 1, 1, m, 0);
      InvertibleIsCoprime(1, 1, m);
    } else {
      CoprimePower(a, e - 1, m);
      CoprimeProduct(a, Power(a, e - 1), m);
    }
  }

  lemma CoprimeCongruent(a: nat, b: nat, m: nat)
    requires m > 1 && Congruent(a, b, m) && Gcd(a, m) == 1
    ensures Gcd(b, m) == 1
  {
    var u := InverseMod(a, m);
    InverseModCorrect(a, m);
    CongruentMul(a, b, u, u, m);
    InvertibleIsCoprime(b, u, m);
  }
}
