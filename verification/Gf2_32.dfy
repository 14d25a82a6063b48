/**
 The field GF(2^32) of gf2_32.cpp, with m_modulus a parameter: an element is a
 word32, that is a polynomial of degree below 32, and the field is GF(2)[x]
 modulo x^32 + m_modulus.
 */
module GF2_32 {
  import opened Arithmetic
  import opened Gf2Polynomials

  const WORD_SIZE: nat := 0x1_0000_0000

  type Word32 = w: nat | w < WORD_SIZE

  /** w << 1 on a 32-bit word: the top bit is lost. */
  function Shl1(w: Word32): Word32 {
    (2 * w) % WORD_SIZE
  }

  /** The modulus x^32 + m, which does not fit in a word. */
  function Modulus(m: Word32): nat {
    WORD_SIZE + m
  }

  ghost predicate IsField(m: Word32) {
    Irreducible(Modulus(m))
  }

  /** r is the residue of the carry-less product of a and b modulo x^32 + m. */
  ghost predicate IsProduct(a: Word32, b: Word32, m: Word32, r: Word32) {
    Congruent(Clmul(a, b), r, Modulus(m))
  }

  lemma WordBits(w: nat)
    ensures w < WORD_SIZE <==> BitCount(w) <= 32
    ensures w < 0x8000_0000 <==> BitCount(w) <= 31
  {
    BitCountBound(w, 32);
    BitCountBound(w, 31);
    Pow2Values();
  }

  lemma XorWord(a: Word32, b: Word32)
    ensures Xor(a, b) < WORD_SIZE
  {
    WordBits(a);
    WordBits(b);
    BitsXor(a, b);
    WordBits(Xor(a, b));
  }

  // ---- Multiplication ------------------------------------------------------

  /** x * w, reduced: what shifting left and conditionally adding the modulus computes. */
  function TimesX(w: Word32, m: Word32): Word32 {
    XorWord(Shl1(w), m);
    Xor(Shl1(w), if w >= 0x8000_0000 then m else 0)
  }

  lemma TimesXCongruent(w: Word32, m: Word32)
    ensures Congruent(2 * w, TimesX(w, m), Modulus(m))
  {
    if w >= 0x8000_0000 {
      var low := Shl1(w);
      var p := Modulus(m);
      TopBit(low);
      TopBit(m);
      assert 2 * w == Xor(WORD_SIZE, low) && p == Xor(WORD_SIZE, m);
      hide Xor, Congruent;
      XorSwapInner(WORD_SIZE, low, WORD_SIZE, m);
      XorSelf(WORD_SIZE);
      XorZero(Xor(low, m));
      CongruentAddModulus(2 * w, p);
    } else {
      XorComm(Shl1(w), 0);
      CongruentRefl(2 * w, Modulus(m));
    }
  }

  lemma TopBit(w: Word32)
    ensures Xor(WORD_SIZE, w) == WORD_SIZE + w
  {
    Pow2Values();
    ShlOne(32);
    XorDisjoint(1, w, 32);
  }

  /** The four multiples the loop of Multiply adds: 0, m, x*a and x*a + m. */
  ghost predicate IsMultipleTable(table: seq<Word32>, a: Word32, m: Word32) {
    |table| == 4 && table[0] == 0 && table[1] == m
    && table[2] == TimesX(a, m) && table[3] == Xor(m, TimesX(a, m))
  }

  /** Bit 1 of w, in place: w & 2. */
  function And2(w: nat): (r: nat)
    ensures r == 0 || r == 2
  {
    if w / 2 % 2 == 1 then 2 else 0
  }

  lemma And2Selects(w: nat)
    ensures And2(w) == 2 * (w / 2 % 2)
  {
  }

  method BuildMultiples(m: Word32, a: Word32) returns (table: seq<Word32>)
    ensures IsMultipleTable(table, a, m)
  {
    XorWord(m, Shl1(a));
    if a >= 0x8000_0000 {
      table := [0, m, Xor(m, Shl1(a)), Shl1(a)];
      XorComm(m, Shl1(a));
      XorCancel(m, Shl1(a));
    } else {
      table := [0, m, Shl1(a), Xor(m, Shl1(a))];
      XorComm(Shl1(a), 0);
    }
  }

  method Multiply(m: Word32, a: Word32, b: Word32) returns (r: Word32)
    ensures IsProduct(a, b, m, r)
  {
    var table := BuildMultiples(m, a);
    var result := table[And2(Shr(b, 30))];
    MultiplyStart(a, b, m, table);
    var i := 29;
    while i >= 0
      invariant -1 <= i <= 29
      invariant Accumulated(a, Shr(b, i + 2), m, result)
    {
      var entry := table[And2(Shr(b, i)) + result / 0x8000_0000];
      MultiplyRound(a, b, m, table, result, i);
      result := NextAccumulator(result, entry);
      i := i - 1;
    }
    assert Shr(b, 1) == Shr(b, 0) / 2;
    MultiplyEnd(a, b, m, result);
    if b % 2 == 1 {
      XorWord(result, a);
      r := Xor(result, a);
    } else {
      r := result;
    }
  }

  // ---- The same, rotating b ------------------------------------------------

  /** rotrFixed(w, y): what is shifted out on the right comes in on the left. */
  function RotateRight(w: Word32, y: nat): nat
    requires y <= 32
  {
    Shr(w, y) + Shl(w, 32 - y) % WORD_SIZE
  }

  /** rotlFixed(w, 1). */
  function RotateLeft1(w: Word32): nat {
    Shl1(w) + w / 0x8000_0000
  }

  /** w is h 2^y + l: then h comes to stand on the right, l on the left. */
  lemma RotateParts(w: Word32, y: nat, h: nat, l: nat)
    requires y <= 32 && l < Pow2(y) && w == h * Pow2(y) + l
    ensures RotateRight(w, y) == h + l * Pow2(32 - y) < WORD_SIZE && Shr(w, y) == h < Pow2(32 - y)
  {
    hide Shl, Shr, Pow2;
    ShrIsDivision(w, y);
    DivModUnique(w, Pow2(y), h, l);
    ShlIsMultiplication(w, 32 - y);
    Pow2Values();
    Pow2Add(y, 32 - y);
    PartsFit(w, Pow2(y), Pow2(32 - y), h, l);
  }

  lemma PartsFit(w: nat, p: nat, c: nat, h: nat, l: nat)
    requires p * c == WORD_SIZE && l < p && w == h * p + l < WORD_SIZE
    ensures (w * c) % WORD_SIZE == l * c && h < c && h + l * c < WORD_SIZE
  {
    PartsTimes(p, c, h, l);
    if h >= c { MulMono(c, h, p); }
    MulMono(l + 1, p, c);
    DivModUnique(w * c, WORD_SIZE, h, l * c);
  }

  lemma PartsTimes(p: nat, c: nat, h: nat, l: nat)
    ensures (h * p + l) * c == h * (p * c) + l * c && (l + 1) * c == l * c + c
  {
    assert (h * p + l) * c == (h * p) * c + l * c;
    assert (h * p) * c == h * (p * c);
  }

  lemma Parts(w: nat, y: nat) returns (h: nat, l: nat)
    ensures w == h * Pow2(y) + l && l < Pow2(y)
  {
    hide Pow2, Shl, Shr;
    h, l := Shr(w, y), w % Pow2(y);
    ShrSplits(w, y);
    ShlIsMultiplication(h, y);
  }

  /** Rotating left takes back one step of rotating right. */
  lemma RotateBack(b: Word32, i: nat)
    requires i < 32
    ensures RotateRight(b, i + 1) < WORD_SIZE && RotateLeft1(RotateRight(b, i + 1)) == RotateRight(b, i)
  {
    hide RotateRight, RotateLeft1, Shr, Pow2;
    var h, s := Parts(b, i);
    RotateParts(b, i, h, s);
    Pow2Step(31 - i);
    Pow2Step(i);
    Pow2Values();
    Pow2Add(i, 31 - i);
    RotateBackParts(b, i, h, s, Pow2(i), Pow2(31 - i));
  }

  lemma RotateBackParts(b: Word32, i: nat, h: nat, s: nat, p: nat, c: nat)
    requires i < 32 && s < p && b == h * p + s && p * c == 0x8000_0000 && h + s * (2 * c) < WORD_SIZE
    requires Pow2(i + 1) == 2 * p && Pow2(32 - (i + 1)) == c
    ensures RotateRight(b, i + 1) < WORD_SIZE && RotateLeft1(RotateRight(b, i + 1)) == h + s * (2 * c)
  {
    hide RotateRight, RotateLeft1, Pow2;
    var q, t := h / 2, h % 2;
    HalfParts(h, q, t, s, p, c);
    RotateOn(b, i + 1, q, t * p + s, t, q + s * c);
  }

  lemma RotateOn(b: Word32, y: nat, h: nat, l: nat, t: nat, low: nat)
    requires y <= 32 && l < Pow2(y) && b == h * Pow2(y) + l
    requires h + l * Pow2(32 - y) == t * 0x8000_0000 + low && t <= 1 && low < 0x8000_0000
    ensures RotateRight(b, y) < WORD_SIZE && RotateLeft1(RotateRight(b, y)) == 2 * low + t
  {
    hide RotateRight, RotateLeft1, Pow2;
    RotateParts(b, y, h, l);
    RotateLeftParts(h + l * Pow2(32 - y), t, low);
  }

  lemma HalfParts(h: nat, q: nat, t: nat, s: nat, p: nat, c: nat)
    requires h == 2 * q + t && t <= 1 && s < p && p * c == 0x8000_0000 && h + s * (2 * c) < WORD_SIZE
    ensures h * p + s == q * (2 * p) + (t * p + s) && t * p + s < 2 * p
    ensures q + (t * p + s) * c == t * 0x8000_0000 + (q + s * c) && q + s * c < 0x8000_0000
    ensures s * (2 * c) == 2 * (s * c)
  {
    assert (2 * q + t) * p == q * (2 * p) + t * p;
    assert (t * p + s) * c == t * (p * c) + s * c;
  }

  lemma RotateLeftParts(w: nat, t: nat, low: nat)
    requires t <= 1 && low < 0x8000_0000 && w == t * 0x8000_0000 + low
    ensures w < WORD_SIZE && RotateLeft1(w) == 2 * low + t
  {}

  /** The bit looked at is not touched by what has come in on the left. */
  lemma RotatedBit(b: Word32, i: nat)
    requires i <= 30
    ensures And2(RotateRight(b, i)) == And2(Shr(b, i))
  {
    hide RotateRight, Shr, Pow2;
    var h, l := Parts(b, i);
    RotateParts(b, i, h, l);
    Pow2Step(31 - i);
    Pow2Step(30 - i);
    HighPart(h, l, Pow2(30 - i));
  }

  lemma HighPart(h: nat, l: nat, c: nat)
    ensures And2(h + l * (2 * (2 * c))) == And2(h)
  {
    assert l * (2 * (2 * c)) == 4 * (l * c);
  }

  lemma NotRotated(b: Word32)
    ensures RotateRight(b, 0) == b
  {
    RotateParts(b, 0, b, 0);
  }

  /** The branch for processors with a fast rotation. */
  method MultiplyRotating(m: Word32, a: Word32, b: Word32) returns (r: Word32)
    ensures IsProduct(a, b, m, r)
  {
    hide RotateRight, Shr, IsMultipleTable;
    var table := BuildMultiples(m, a);
    TableSize(table, a, m);
    RotateBack(b, 29);
    var w: Word32 := RotateRight(b, 30);
    RotatedBit(b, 30);
    var result := table[And2(w)];
    MultiplyStart(a, b, m, table);
    var i := 29;
    while i >= 0
      invariant -1 <= i <= 29 && w == RotateRight(b, i + 1)
      invariant Accumulated(a, Shr(b, i + 2), m, result)
    {
      RotateBack(b, i);
      if i > 0 { RotateBack(b, i - 1); } else { NotRotated(b); }
      w := RotateLeft1(w);
      RotatedBit(b, i);
      var entry := table[And2(w) + result / 0x8000_0000];
      MultiplyRound(a, b, m, table, result, i);
      result := NextAccumulator(result, entry);
      i := i - 1;
    }
    NotRotated(b);
    ShrOne(b);
    MultiplyEnd(a, b, m, result);
    if w % 2 == 1 {
      XorWord(result, a);
      r := Xor(result, a);
    } else {
      r := result;
    }
  }

  lemma TableSize(table: seq<Word32>, a: Word32, m: Word32)
    requires IsMultipleTable(table, a, m)
    ensures |table| == 4
  {}

  lemma ShrOne(b: nat)
    ensures Shr(b, 1) == b / 2
  {}

  // ---- What the loops keep --------------------------------------------------

  /** The loop variable holds x * a * h, where h is the part of b already read. */
  ghost predicate Accumulated(a: Word32, h: nat, m: Word32, result: Word32) {
    Congruent(2 * Clmul(a, h), result, Modulus(m))
  }

  function NextAccumulator(result: Word32, entry: Word32): Word32 {
    XorWord(Shl1(result), entry);
    Xor(Shl1(result), entry)
  }

  lemma MultiplyStart(a: Word32, b: Word32, m: Word32, table: seq<Word32>)
    requires IsMultipleTable(table, a, m)
    ensures Accumulated(a, Shr(b, 31), m, table[And2(Shr(b, 30))])
  {
    var h := Shr(b, 31);
    ShrIsDivision(b, 31);
    Pow2Values();
    assert h <= 1;
    And2Selects(Shr(b, 30));
    if h == 1 {
      ClmulOne(a);
      TimesXCongruent(a, m);
    } else {
      ClmulZero(a);
      CongruentRefl(0, Modulus(m));
    }
  }

  lemma MultiplyRound(a: Word32, b: Word32, m: Word32, table: seq<Word32>, result: Word32, i: nat)
    requires IsMultipleTable(table, a, m)
    requires Accumulated(a, Shr(b, i + 2), m, result)
    ensures Accumulated(a, Shr(b, i + 1), m, NextAccumulator(result, table[And2(Shr(b, i)) + result / 0x8000_0000]))
  {
    And2Selects(Shr(b, i));
    var entry := table[And2(Shr(b, i)) + result / 0x8000_0000];
    XorComm(m, 0);
    MultiplyStep(a, Shr(b, i + 2), Shr(b, i + 1), m, result, entry);
  }

  lemma MultiplyStep(a: Word32, h: nat, h': nat, m: Word32, result: Word32, entry: Word32)
    requires h' / 2 == h
    requires Accumulated(a, h, m, result)
    requires entry == Xor(if result >= 0x8000_0000 then m else 0,
                          if h' % 2 == 1 then TimesX(a, m) else 0)
    ensures Accumulated(a, h', m, NextAccumulator(result, entry))
  {
    var p := Modulus(m);
    var low := if h' % 2 == 1 then TimesX(a, m) else 0;
    var c := Clmul(a, h);
    // h' = 2 h + bit, so 2 a h' = x (2 a h) + bit (2 a)
    assert 2 * Clmul(a, h') == Xor(2 * (2 * c), 2 * LowTerm(h', a)) by {
      ClmulComm(a, h');
      ClmulComm(a, h);
      ClmulStep(h', a);
      XorDouble(LowTerm(h', a), 2 * c);
      XorComm(2 * LowTerm(h', a), 2 * (2 * c));
    }
    assert Congruent(2 * LowTerm(h', a), low, p) by {
      if h' % 2 == 1 { TimesXCongruent(a, m); } else { CongruentRefl(0, p); }
    }
    assert Congruent(2 * (2 * c), TimesX(result, m), p) by {
      CongruentDouble(2 * c, result, p);
      TimesXCongruent(result, m);
      CongruentTrans(2 * (2 * c), 2 * result, TimesX(result, m), p);
    }
    CongruentXor(2 * (2 * c), TimesX(result, m), 2 * LowTerm(h', a), low, p);
    XorAssoc(Shl1(result), if result >= 0x8000_0000 then m else 0, low);
  }

  lemma MultiplyEnd(a: Word32, b: Word32, m: Word32, result: Word32)
    requires Accumulated(a, b / 2, m, result)
    ensures Congruent(Clmul(a, b), Xor(result, LowTerm(b, a)), Modulus(m))
    ensures Xor(result, 0) == result
  {
    var p := Modulus(m);
    ClmulComm(a, b);
    ClmulComm(a, b / 2);
    ClmulStep(b, a);
    XorComm(LowTerm(b, a), 2 * Clmul(b / 2, a));
    CongruentRefl(LowTerm(b, a), p);
    CongruentXor(2 * Clmul(a, b / 2), result, LowTerm(b, a), LowTerm(b, a), p);
    XorComm(result, 0);
  }

  /** The product is a function of a and b: no other word has the same residue. */
  lemma ProductUnique(a: Word32, b: Word32, m: Word32, r: Word32, r': Word32)
    requires IsProduct(a, b, m, r) && IsProduct(a, b, m, r')
    ensures r == r'
  {
    CongruentSym(Clmul(a, b), r, Modulus(m));
    CongruentTrans(r, Clmul(a, b), r', Modulus(m));
    WordBits(r);
    WordBits(r');
    WordBits(Modulus(m));
    ResidueUnique(r, r', Modulus(m));
  }

  // ---- Inversion -----------------------------------------------------------

  /** v * a is g in the quotient ring. */
  ghost predicate Represents(v: nat, g: nat, a: Word32, m: Word32) {
    Congruent(Clmul(v, a), g, Modulus(m))
  }

  ghost predicate CommonDivisorsDivide(g0: nat, g1: nat, p: nat) {
    forall d: nat :: Divides(d, g0) && Divides(d, g1) ==> Divides(d, p)
  }

  /**
   What the main loop of MultiplicativeInverse keeps.  The two size bounds are
   symmetric in the pairs (g0, v0) and (g1, v1), so exchanging the pairs keeps
   them, and with g1 at least 2 they hold every cofactor inside a word.
   */
  ghost predicate EuclidState(g0: nat, v0: nat, g1: nat, v1: nat, a: Word32, m: Word32) {
    && Represents(v0, g0, a, m) && Represents(v1, g1, a, m)
    && CommonDivisorsDivide(g0, g1, Modulus(m))
    && BitCount(v0) + BitCount(g1) <= 34
    && BitCount(v1) + BitCount(g0) <= 34
    && 1 <= g0 && BitCount(g0) <= 32
    && 2 <= g1 && BitCount(g1) <= 32
  }

  lemma {:induction false} ShlBits(g: nat, k: nat)
    ensures g > 0 ==> Shl(g, k) > 0 && BitCount(Shl(g, k)) == BitCount(g) + k
    ensures g == 0 ==> Shl(g, k) == 0
  {
    if k > 0 { ShlBits(g, k - 1); }
  }

  lemma {:induction false} RepresentsShl(v: nat, g: nat, a: Word32, m: Word32, k: nat)
    requires Represents(v, g, a, m)
    ensures Represents(Shl(v, k), Shl(g, k), a, m)
  {
    if k > 0 {
      RepresentsShl(v, g, a, m, k - 1);
      ClmulDoubleLeft(Shl(v, k - 1), a);
      CongruentDouble(Clmul(Shl(v, k - 1), a), Shl(g, k - 1), Modulus(m));
    }
  }

  lemma {:induction false} DividesShl(d: nat, g: nat, k: nat)
    requires Divides(d, g)
    ensures Divides(d, Shl(g, k))
  {
    if k > 0 {
      DividesShl(d, g, k - 1);
      DividesDouble(d, Shl(g, k - 1));
    }
  }

  lemma RepresentsXor(v: nat, g: nat, v': nat, g': nat, a: Word32, m: Word32)
    requires Represents(v, g, a, m) && Represents(v', g', a, m)
    ensures Represents(Xor(v, v'), Xor(g, g'), a, m)
  {
    ClmulDistributesLeft(v, v', a);
    CongruentXor(Clmul(v, a), g, Clmul(v', a), g', Modulus(m));
  }

  /** Replacing g0 by g0 + x^k g1 does not gain common divisors. */
  lemma CommonDivisorsKept(g0: nat, g1: nat, k: nat, p: nat)
    requires CommonDivisorsDivide(g0, g1, p)
    ensures CommonDivisorsDivide(Xor(g0, Shl(g1, k)), g1, p)
  {
    forall d: nat | Divides(d, Xor(g0, Shl(g1, k))) && Divides(d, g1)
      ensures Divides(d, p)
    {
      DividesShl(d, g1, k);
      DividesXor(d, Xor(g0, Shl(g1, k)), Shl(g1, k));
      XorCancel(Shl(g1, k), g0);
    }
  }

  /** In a field the running remainder never vanishes: g1 would then divide the modulus. */
  lemma RemainderNonzero(g0: nat, g1: nat, m: Word32)
    requires IsField(m)
    requires CommonDivisorsDivide(g0, g1, Modulus(m))
    requires 2 <= g1 && BitCount(g1) <= 32
    ensures g0 != 0
  {
    if g0 == 0 {
      DividesSelf(g1);
      var q: nat :| Clmul(q, g1) == Modulus(m);
      assert q == 1;
      ClmulOne(g1);
      WordBits(g1);
      assert false;
    }
  }

  /** One division step, with the two subtracted words already aligned on their leading bits. */
  lemma EuclidStep(g0: nat, v0: nat, g1: nat, v1: nat, a: Word32, m: Word32, k: nat)
    requires IsField(m)
    requires EuclidState(g0, v0, g1, v1, a, m)
    requires BitCount(g1) + k == BitCount(g0)
    ensures EuclidState(Xor(g0, Shl(g1, k)), Xor(v0, Shl(v1, k)), g1, v1, a, m)
    ensures BitCount(Xor(g0, Shl(g1, k))) < BitCount(g0)
  {
    RepresentsShl(v1, g1, a, m, k);
    RepresentsXor(v0, g0, Shl(v1, k), Shl(g1, k), a, m);
    CommonDivisorsKept(g0, g1, k, Modulus(m));
    ShlBits(g1, k);
    ShlBits(v1, k);
    BitsXor(g0, Shl(g1, k));
    BitsXor(v0, Shl(v1, k));
    RemainderNonzero(Xor(g0, Shl(g1, k)), g1, m);
  }

  /** The comparison of the source decides which word has the higher degree. */
  lemma ComparisonDecides(g0: nat, g1: nat)
    requires g0 > 0 && g1 > 0
    ensures (g1 < g0 || (Xor(g0, g1) < g0 && Xor(g0, g1) < g1)) <==> BitCount(g1) <= BitCount(g0)
  {
    BitsXor(g0, g1);
    if g1 <= g0 { BitsMonotone(g1, g0); } else { BitsMonotone(g0, g1); }
    if g0 <= Xor(g0, g1) { BitsMonotone(g0, Xor(g0, g1)); }
    if g1 <= Xor(g0, g1) { BitsMonotone(g1, Xor(g0, g1)); }
    if Xor(g0, g1) <= g0 { BitsMonotone(Xor(g0, g1), g0); }
  }

  /** The inner loop stops exactly when the shifted word is aligned with g0. */
  lemma AlignmentTest(g0: nat, g2: nat)
    requires g2 > 0 && BitCount(g2) <= BitCount(g0)
    ensures Xor(g0, g2) >= g2 <==> BitCount(g2) < BitCount(g0)
  {
    BitsXor(g0, g2);
    if Xor(g0, g2) <= g2 { BitsMonotone(Xor(g0, g2), g2); } else { BitsMonotone(g2, Xor(g0, g2)); }
  }

  lemma StartSizes(a: Word32, m: Word32, k: nat, low: Word32)
    requires BitCount(a) + k == 33
    ensures BitCount(Shl(1, k)) + BitCount(a) == 34 && BitCount(1) == 1
    ensures BitCount(Xor(m, low)) <= 32 && BitCount(a) <= 32
  {
    ShlBits(1, k);
    XorWord(m, low);
    WordBits(Xor(m, low));
    WordBits(a);
  }

  /** The state after the leading term x^32, which no word holds, has been cancelled by hand. */
  lemma EuclidStart(a: Word32, m: Word32, k: nat, low: Word32)
    requires IsField(m) && 2 <= a
    requires BitCount(a) + k == 33
    requires Shl(a, k) == WORD_SIZE + low
    ensures EuclidState(Xor(m, low), Shl(1, k), a, 1, a, m)
  {
    hide Clmul, Shl, BitCount;
    var p := Modulus(m);
    var g0 := Xor(m, low);
    // p + x^k a = g0
    assert Xor(p, Shl(a, k)) == g0 by {
      TopBit(m);
      TopBit(low);
      XorSwapInner(WORD_SIZE, m, WORD_SIZE, low);
      XorSelf(WORD_SIZE);
    }
    ClmulOne(a);
    CongruentRefl(a, p);
    assert Represents(1, a, a, m);
    assert Represents(Shl(1, k), g0, a, m) by {
      RepresentsShl(1, a, a, m, k);
      CongruentAddModulus(Shl(a, k), p);
      XorComm(Shl(a, k), p);
      CongruentTrans(Clmul(Shl(1, k), a), Shl(a, k), g0, p);
    }
    assert CommonDivisorsDivide(g0, a, p) by {
      forall d: nat | Divides(d, p) && Divides(d, a) ensures Divides(d, p) {}
      assert CommonDivisorsDivide(p, a, p);
      CommonDivisorsKept(p, a, k, p);
    }
    StartSizes(a, m, k, low);
    RemainderNonzero(g0, a, m);
  }

  /**
   The extended Euclidean algorithm on words.  For a field, every nonzero a gets
   its inverse and 0 is mapped to 0; the loops terminate, no division step makes
   g0 zero, and no shift of a cofactor loses its top bit.
   */
  method MultiplicativeInverse(m: Word32, a: Word32) returns (r: Word32)
    requires IsField(m)
    ensures a != 0 ==> IsProduct(r, a, m, 1) && IsProduct(a, r, m, 1)
    ensures a == 0 ==> r == 0
  {
    if a <= 1 {
      ClmulOne(1);
      CongruentRefl(1, Modulus(m));
      return a;
    }

    var g0: Word32, g1: Word32, v0: Word32, v1: Word32 := FirstDivision(m, a);

    while g0 != 1
      invariant EuclidState(g0, v0, g1, v1, a, m)
      decreases BitCount(g0) + BitCount(g1)
    {
      ComparisonDecides(g0, g1);
      if g1 < g0 || (Xor(g0, g1) < g0 && Xor(g0, g1) < g1) {
        assert BitCount(g1) <= BitCount(g0);
      } else {
        assert BitCount(g1) > BitCount(g0);
        CommonDivisorsSwap(g0, g1, Modulus(m));
        g0, g1 := g1, g0;
        v0, v1 := v1, v0;
      }
      g0, v0 := Divide(g0, v0, g1, v1, a, m);
    }
    ClmulComm(v0, a);
    return v0;
  }

  /** One pass of the main loop after the exchange: align, then add. */
  method Divide(g0: Word32, v0: Word32, g1: Word32, v1: Word32, ghost a: Word32, ghost m: Word32)
    returns (g: Word32, v: Word32)
    requires IsField(m)
    requires EuclidState(g0, v0, g1, v1, a, m)
    requires BitCount(g1) <= BitCount(g0)
    ensures EuclidState(g, v, g1, v1, a, m)
    ensures BitCount(g) < BitCount(g0)
  {
    assert BitCount(g1) >= 2 by { assert BitCount(2) == 2; BitsMonotone(2, g1); }
    var g2, v2 := Align(g0, g1, v1);
    EuclidStep(g0, v0, g1, v1, a, m, BitCount(g0) - BitCount(g1));
    WordOfState(Xor(g0, g2), Xor(v0, v2), g1);
    g := Xor(g0, g2);
    v := Xor(v0, v2);
  }

  lemma CommonDivisorsSwap(g0: nat, g1: nat, p: nat)
    requires CommonDivisorsDivide(g0, g1, p)
    ensures CommonDivisorsDivide(g1, g0, p)
  {
    forall d: nat | Divides(d, g1) && Divides(d, g0) ensures Divides(d, p) {}
  }

  lemma WordOfState(g: nat, v: nat, g1: nat)
    requires BitCount(g) <= 32 && BitCount(v) + BitCount(g1) <= 34 && 2 <= g1
    ensures g < WORD_SIZE && v < WORD_SIZE
  {
    assert BitCount(g1) >= 2 by { assert BitCount(2) == 2; BitsMonotone(2, g1); }
    WordBits(g);
    WordBits(v);
  }

  /** A shift that loses no bit: the doubled word is still a word. */
  lemma ShiftInWord(g: nat, k: nat)
    requires BitCount(g) + k < 32
    ensures Shl(g, k) < WORD_SIZE && Shl(g, k + 1) < WORD_SIZE && Shl1(Shl(g, k)) == Shl(g, k + 1)
  {
    ShlBits(g, k);
    WordBits(Shl(g, k));
  }

  /** The one shift that drops x^32. */
  lemma ShiftOutOfWord(g: nat, k: nat)
    requires g > 0 && BitCount(g) + k == 32
    ensures Shl(g, k) < WORD_SIZE && Shl(g, k + 1) == WORD_SIZE + Shl1(Shl(g, k))
  {
    ShlBits(g, k);
    WordBits(Shl(g, k));
  }

  lemma TopBitTest(g: nat, k: nat)
    requires g > 0
    ensures Shl(g, k) < 0x8000_0000 <==> BitCount(g) + k < 32
  {
    ShlBits(g, k);
    WordBits(Shl(g, k));
  }

  /** The loop before the main loop: shift a up to bit 31, then once more, and add m_modulus. */
  method FirstDivision(m: Word32, a: Word32) returns (g0: Word32, g1: Word32, v0: Word32, v1: Word32)
    requires IsField(m) && 2 <= a
    ensures g1 == a && v1 == 1
    ensures EuclidState(g0, v0, g1, v1, a, m)
  {
    g0, g1, v0, v1 := m, a, 0, 1;
    var g2: Word32, v2: Word32 := a, 1;
    ghost var k := 0;
    WordBits(a);
    assert BitCount(a) >= 2 by { assert BitCount(2) == 2; BitsMonotone(2, a); }
    TopBitTest(a, k);
    while g2 < 0x8000_0000
      invariant g2 == Shl(a, k) && v2 == Shl(1, k)
      invariant BitCount(a) + k <= 32
      invariant g2 < 0x8000_0000 <==> BitCount(a) + k < 32
      decreases 32 - k
    {
      ShiftInWord(a, k);
      ShiftInWord(1, k);
      g2 := Shl1(g2);
      v2 := Shl1(v2);
      k := k + 1;
      TopBitTest(a, k);
    }
    ShiftInWord(1, k);
    ShiftOutOfWord(a, k);
    g2 := Shl1(g2);
    v2 := Shl1(v2);
    EuclidStart(a, m, k + 1, g2);
    XorWord(g0, g2);
    g0 := Xor(g0, g2);
    v0 := Xor(v0, v2);
  }

  lemma NotShifted(x: nat)
    ensures Shl(x, 0) == x
  {}

  /** Shift the pair (g1, v1) up until its leading bit is that of g0. */
  method Align(g0: Word32, g1: Word32, v1: Word32) returns (g2: Word32, v2: Word32)
    requires 0 < g1 && BitCount(g1) <= BitCount(g0) && BitCount(v1) + BitCount(g0) - BitCount(g1) <= 32
    ensures g2 == Shl(g1, BitCount(g0) - BitCount(g1))
    ensures v2 == Shl(v1, BitCount(g0) - BitCount(g1))
  {
    hide Xor, Shl, BitCount;
    g2, v2 := g1, v1;
    ghost var k := 0;
    WordBits(g0);
    NotShifted(g1);
    NotShifted(v1);
    AlignmentTest(g0, g2);
    while Xor(g0, g2) >= g2
      invariant BitCount(g1) + k <= BitCount(g0)
      invariant g2 == Shl(g1, k) && v2 == Shl(v1, k)
      invariant Xor(g0, g2) >= g2 <==> BitCount(g1) + k < BitCount(g0)
      decreases BitCount(g0) - BitCount(g1) - k
    {
      ShiftInWord(g1, k);
      ShiftInWord(v1, k);
      g2 := Shl1(g2);
      v2 := Shl1(v2);
      k := k + 1;
      ShlBits(g1, k);
      AlignmentTest(g0, g2);
    }
  }
}
