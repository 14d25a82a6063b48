/** Facts about division, remainders and powers of two that the solver needs spelled out. */
module Arithmetic {

  lemma MulMono(x: int, y: int, d: int)
    requires x <= y && 0 <= d
    ensures x * d <= y * d
  {
  }

  lemma DivMod(b: int, d: int)
    requires d > 0
    ensures b == b / d * d + b % d && 0 <= b % d < d
  {
  }

  lemma DivModUnique(b: int, d: int, q: int, r: int)
    requires 0 <= r < d && b == q * d + r
    ensures b / d == q && b % d == r
  {
    DivMod(b, d);
    var q' := b / d;
    if q' < q {
      MulMono(q' + 1, q, d);
    } else if q < q' {
      MulMono(q + 1, q', d);
    }
  }

  lemma ModAddMultiple(b: int, k: int, d: int)
    requires d > 0
    ensures (b + k * d) % d == b % d
    ensures (b + k * d) / d == b / d + k
  {
    DivMod(b, d);
    assert (b / d + k) * d == b / d * d + k * d;
    DivModUnique(b + k * d, d, b / d + k, b % d);
  }

  lemma DivDiv(b: nat, c: nat, d: nat)
    requires c > 0 && d > 0
    ensures c * d > 0
    ensures b / (c * d) == b / c / d
    ensures b % (c * d) == b / c % d * c + b % c
  {
    var q, h, l := b / c / d, b / c % d, b % c;
    DivMod(b, c);
    DivMod(b / c, d);
    calc {
      b;
      (q * d + h) * c + l;
      { assert (q * d + h) * c == q * d * c + h * c; }
      q * d * c + (h * c + l);
      { assert q * d * c == q * (c * d); }
      q * (c * d) + (h * c + l);
    }
    MulMono(h + 1, d, c);
    assert (h + 1) * c == h * c + c;
    assert d * c == c * d;
    MulMono(0, h, c);
    MulMono(1, d, c);
    DivModUnique(b, c * d, q, h * c + l);
  }

  // ---- Powers of two -------------------------------------------------------

  function Pow2(k: nat): (r: nat)
    ensures r >= 1
  {
    if k == 0 then 1 else 2 * Pow2(k - 1)
  }

  lemma Pow2Step(k: nat)
    ensures Pow2(k + 1) == 2 * Pow2(k)
  {}

  lemma {:induction false} Pow2Add(j: nat, k: nat)
    ensures Pow2(j + k) == Pow2(j) * Pow2(k)
  {
    if j > 0 {
      Pow2Add(j - 1, k);
      assert 2 * (Pow2(j - 1) * Pow2(k)) == (2 * Pow2(j - 1)) * Pow2(k);
    }
  }

  lemma {:induction false} Pow2Monotone(j: nat, k: nat)
    requires j <= k
    ensures Pow2(j) <= Pow2(k)
  {
    if j < k { Pow2Monotone(j, k - 1); }
  }

  lemma Pow2Values()
    ensures Pow2(1) == 2 && Pow2(2) == 4 && Pow2(3) == 8 && Pow2(4) == 16
    ensures Pow2(5) == 32 && Pow2(6) == 64 && Pow2(7) == 128 && Pow2(8) == 256
    ensures Pow2(16) == 0x1_0000 && Pow2(31) == 0x8000_0000 && Pow2(32) == 0x1_0000_0000
  {
    assert Pow2(16) == Pow2(8) * Pow2(8) by { Pow2Add(8, 8); }
    assert Pow2(32) == Pow2(16) * Pow2(16) by { Pow2Add(16, 16); }
  }

  /** The number of significant bits: for a polynomial over GF(2), one more than the degree. */
  function BitCount(e: nat): nat {
    if e == 0 then 0 else 1 + BitCount(e / 2)
  }

  lemma {:induction false} BitCountBound(a: nat, k: nat)
    ensures BitCount(a) <= k <==> a < Pow2(k)
  {
    if a > 0 && k > 0 { BitCountBound(a / 2, k - 1); }
  }

  /** Shifting right by one bit at a time. */
  lemma DivPow2Succ(b: nat, k: nat)
    ensures b / Pow2(k + 1) == b / Pow2(k) / 2
  {
    DivDiv(b, Pow2(k), 2);
    assert Pow2(k) * 2 == Pow2(k + 1);
  }

  // ---- Shifts --------------------------------------------------------------

  /** x << k. */
  function Shl(x: int, k: nat): (r: int)
    ensures x >= 0 ==> r >= 0
  {
    if k == 0 then x else 2 * Shl(x, k - 1)
  }

  /** x >> k. */
  function Shr(x: nat, k: nat): nat {
    if k == 0 then x else Shr(x, k - 1) / 2
  }

  lemma {:induction false} ShlIsMultiplication(x: int, k: nat)
    ensures Shl(x, k) == x * Pow2(k)
  {
    if k > 0 { ShlIsMultiplication(x, k - 1); }
  }

  lemma ShlOne(k: nat)
    ensures Shl(1, k) == Pow2(k)
  {
    ShlIsMultiplication(1, k);
  }

  lemma {:induction false} ShrIsDivision(x: nat, k: nat)
    ensures Shr(x, k) == x / Pow2(k)
  {
    if k > 0 {
      ShrIsDivision(x, k - 1);
      DivPow2Succ(x, k - 1);
    }
  }

  lemma {:induction false} ShlAdd(x: int, y: int, k: nat)
    ensures Shl(x + y, k) == Shl(x, k) + Shl(y, k)
  {
    if k > 0 { ShlAdd(x, y, k - 1); }
  }

  lemma {:induction false} ShlShl(x: int, j: nat, k: nat)
    ensures Shl(Shl(x, j), k) == Shl(x, j + k)
  {
    if k > 0 { ShlShl(x, j, k - 1); }
  }

  lemma {:induction false} ShlDouble(x: int, k: nat)
    ensures Shl(2 * x, k) == 2 * Shl(x, k)
  {
    if k > 0 { ShlDouble(x, k - 1); }
  }

  lemma {:induction false} ShlMono(x: int, y: int, k: nat)
    requires x <= y
    ensures Shl(x, k) <= Shl(y, k)
  {
    if k > 0 { ShlMono(x, y, k - 1); }
  }

  lemma {:induction false} ShlGrows(x: nat, k: nat)
    ensures x <= Shl(x, k)
  {
    if k > 0 { ShlGrows(x, k - 1); }
  }

  /** A number is its high part, shifted back, plus its k low bits. */
  lemma ShrSplits(x: nat, k: nat)
    ensures x == Shl(Shr(x, k), k) + x % Pow2(k)
    ensures x % Pow2(k) < Pow2(k)
  {
    DivMod(x, Pow2(k));
    ShrIsDivision(x, k);
    ShlIsMultiplication(Shr(x, k), k);
  }
}
