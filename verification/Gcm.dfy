/**
 GHASH in gcm.cpp.  A 16-byte block is the number its bytes spell, most significant
 first, so bit 127 of the number is the coefficient of x^0 and the last byte holds
 x^120 to x^127; the field is that of section 6.3 of NIST SP 800-38D.
 */
module Gcm {
  import opened Arithmetic
  import opened Bytes
  import opened Gf2Polynomials

  type Block = b: nat | b < 0x1_0000_0000_0000_0000_0000_0000_0000_0000

  /** 1 + x + x^2 + x^7, the reduction of x^128. */
  const R: Block := 0xe100_0000_0000_0000_0000_0000_0000_0000

  lemma BlockIs128Bits()
    ensures Pow2(128) == 0x1_0000_0000_0000_0000_0000_0000_0000_0000
    ensures Pow2(127) == 0x8000_0000_0000_0000_0000_0000_0000_0000
  {
    Pow2Values();
    assert Pow2(64) == 0x1_0000_0000_0000_0000 by { Pow2Add(32, 32); }
    assert Pow2(128) == Pow2(64) * Pow2(64) by { Pow2Add(64, 64); }
    assert Pow2(128) == 2 * Pow2(127);
  }

  lemma RIsShifted()
    ensures Shl(0xe1, 120) == R
  {
    hide Shl;
    ShlIsMultiplication(0xe1, 120);
    BlockIs128Bits();
    Pow2Values();
    Pow2Add(8, 120);
  }

  function Add(a: Block, b: Block): Block {
    BlockIs128Bits();
    XorBound(a, b, 128);
    Xor(a, b)
  }

  lemma AddLaws(a: Block, b: Block, c: Block)
    ensures Add(a, b) == Add(b, a)
    ensures Add(Add(a, b), c) == Add(a, Add(b, c))
    ensures Add(a, 0) == a && Add(0, a) == a && Add(a, a) == 0
  {
    XorComm(a, b);
    XorAssoc(a, b, c);
    XorZero(a);
    XorSelf(a);
  }

  lemma AddSwapInner(a: Block, b: Block, c: Block, d: Block)
    ensures Add(Add(a, b), Add(c, d)) == Add(Add(a, c), Add(b, d))
  {
    XorSwapInner(a, b, c, d);
  }

  /** Multiplication by x: one bit towards the end, reducing what falls off. */
  function TimesX(v: Block): Block {
    Add(v / 2, if v % 2 == 1 then R else 0)
  }

  // ---- Blocks as two words ------------------------------------------------------------

  type Word64 = w: nat | w < 0x1_0000_0000_0000_0000

  /** The block whose first word is v0 and whose second is v1. */
  function FromWords(v0: Word64, v1: Word64): Block {
    v0 * 0x1_0000_0000_0000_0000 + v1
  }

  function WordXor(a: Word64, b: Word64): Word64 {
    WordIs64Bits();
    XorBound(a, b, 64);
    Xor(a, b)
  }

  lemma WordIs64Bits()
    ensures Pow2(64) == 0x1_0000_0000_0000_0000
  {
    Pow2Values();
    Pow2Add(32, 32);
  }

  /** Exclusive or, word by word. */
  lemma AddOnWords(a0: Word64, a1: Word64, b0: Word64, b1: Word64)
    ensures Add(FromWords(a0, a1), FromWords(b0, b1)) == FromWords(WordXor(a0, b0), WordXor(a1, b1))
  {
    hide Xor, Shl;
    WordsDisjoint(a0, a1);
    WordsDisjoint(b0, b1);
    WordsDisjoint(WordXor(a0, b0), WordXor(a1, b1));
    XorShl(a0, b0, 64);
    XorSwapInner(Shl(a0, 64), a1, Shl(b0, 64), b1);
  }

  lemma WordsDisjoint(a0: Word64, a1: Word64)
    ensures FromWords(a0, a1) == Xor(Shl(a0, 64), a1)
  {
    hide Xor, Shl, Pow2;
    WordIs64Bits();
    ShlIsMultiplication(a0, 64);
    XorDisjoint(a0, a1, 64);
  }

  lemma HalfOfWords(v0: Word64, v1: Word64)
    ensures var w0, w1 := v0 / 2, v1 / 2 + v0 % 2 * 0x8000_0000_0000_0000;
            && w1 < 0x1_0000_0000_0000_0000 && FromWords(v0, v1) / 2 == FromWords(w0, w1) && FromWords(v0, v1) % 2 == v1 % 2
            && v0 * 0x8000_0000_0000_0000 % 0x1_0000_0000_0000_0000 == v0 % 2 * 0x8000_0000_0000_0000
  {
    var h := v0 / 2;
    assert v0 == 2 * h + v0 % 2;
  }

  /** One step of V, as the source takes it; the two halves of the new second word share no bit. */
  method ShiftWords(v0: Word64, v1: Word64) returns (w0: Word64, w1: Word64)
    ensures FromWords(w0, w1) == TimesX(FromWords(v0, v1))
  {
    HalfOfWords(v0, v1);
    var x := v1 % 2;
    w1 := v1 / 2 + v0 * 0x8000_0000_0000_0000 % 0x1_0000_0000_0000_0000;
    var e1: Word64 := if x == 1 then 0xe100_0000_0000_0000 else 0;
    w0 := WordXor(v0 / 2, e1);
    hide Xor, WordXor;
    XorZeroWord(w1);
    AddOnWords(v0 / 2, w1, e1, 0);
  }

  lemma XorZeroWord(w: Word64)
    ensures WordXor(w, 0) == w
  {
    XorZero(w);
  }

  lemma TimesXAdd(a: Block, b: Block)
    ensures TimesX(Add(a, b)) == Add(TimesX(a), TimesX(b))
  {
    var ra: Block, rb: Block := if a % 2 == 1 then R else 0, if b % 2 == 1 then R else 0;
    XorHalves(a, b);
    AddSwapInner(a / 2, ra, b / 2, rb);
    AddLaws(R, 0, 0);
    AddLaws(0, 0, 0);
  }

  /** x^n * v. */
  function TimesXPow(v: Block, n: nat): Block {
    if n == 0 then v else TimesX(TimesXPow(v, n - 1))
  }

  lemma {:induction false} TimesXPowAdd(a: Block, b: Block, n: nat)
    ensures TimesXPow(Add(a, b), n) == Add(TimesXPow(a, n), TimesXPow(b, n))
  {
    if n > 0 {
      TimesXPowAdd(a, b, n - 1);
      TimesXAdd(TimesXPow(a, n - 1), TimesXPow(b, n - 1));
    }
  }

  lemma {:induction false} TimesXPowPow(v: Block, m: nat, n: nat)
    ensures TimesXPow(TimesXPow(v, m), n) == TimesXPow(v, m + n)
  {
    if n > 0 { TimesXPowPow(v, m, n - 1); }
  }

  /** Coefficient n of the block: bit n counted from the front. */
  function Coefficient(b: Block, n: nat): bool requires n < 128 {
    Shr(b, 127 - n) % 2 == 1
  }

  /** The first n terms of the product h * b: the loop of gcm_gf_mult after n bits. */
  function PartialProduct(h: Block, b: Block, n: nat): Block requires n <= 128 {
    if n == 0 then 0
    else Add(PartialProduct(h, b, n - 1), if Coefficient(b, n - 1) then TimesXPow(h, n - 1) else 0)
  }

  /** Multiplication in GF(2^128), section 6.3 of NIST SP 800-38D. */
  function Multiply(h: Block, b: Block): Block {
    PartialProduct(h, b, 128)
  }

  /** GHASH over whole blocks, section 6.4 of NIST SP 800-38D, continuing from a hash value. */
  function Ghash(h: Block, x: Block, data: seq<Block>): Block {
    if data == [] then x
    else Multiply(h, Add(Ghash(h, x, data[..|data| - 1]), data[|data| - 1]))
  }

  function ByteAt(b: Block, i: nat): byte requires i < 16 {
    Shr(b, 8 * (15 - i)) % 256
  }

  /** The bit-by-bit multiplication the source keeps for testing. */
  method GfMult(a: Block, b: Block) returns (z: Block)
    ensures z == Multiply(a, b)
  {
    var z0: Word64, z1: Word64 := 0, 0;
    var v0, v1 := ToWords(a);
    NothingAdded(a, b);
    hide *;
    for i := 0 to 16
      invariant Multiplied(a, b, 8 * i, z0, z1, v0, v1)
    {
      for j := 0 to 8
        invariant Multiplied(a, b, 8 * i + j, z0, z1, v0, v1)
      {
        BitOfByte(b, i, j);
        z0, z1, v0, v1 := MultiplyBit(Shr(ByteAt(b, i), 7 - j) % 2 == 1, z0, z1, v0, v1, a, b, 8 * i + j);
      }
    }
    AllAdded(a, b, z0, z1, v0, v1);
    z := FromWords(z0, z1);
  }

  /** The state of gcm_gf_mult after n bits. */
  ghost predicate Multiplied(a: Block, b: Block, n: nat, z0: Word64, z1: Word64, v0: Word64, v1: Word64) {
    n <= 128 && FromWords(z0, z1) == PartialProduct(a, b, n) && FromWords(v0, v1) == TimesXPow(a, n)
  }

  lemma NothingAdded(a: Block, b: Block)
    ensures forall v0: Word64, v1: Word64 :: FromWords(v0, v1) == a ==> Multiplied(a, b, 0, 0, 0, v0, v1)
  {}

  lemma AllAdded(a: Block, b: Block, z0: Word64, z1: Word64, v0: Word64, v1: Word64)
    requires Multiplied(a, b, 128, z0, z1, v0, v1)
    ensures FromWords(z0, z1) == Multiply(a, b)
  {}

  /** One bit of b. */
  method MultiplyBit(bit: bool, z0: Word64, z1: Word64, v0: Word64, v1: Word64, ghost a: Block, ghost b: Block, ghost n: nat)
      returns (y0: Word64, y1: Word64, w0: Word64, w1: Word64)
    requires n < 128 && Multiplied(a, b, n, z0, z1, v0, v1) && bit == Coefficient(b, n)
    ensures Multiplied(a, b, n + 1, y0, y1, w0, w1)
  {
    NextTerm(a, b, n);
    AddOnWords(z0, z1, v0, v1);
    AddLaws(FromWords(z0, z1), 0, 0);
    hide Xor, Add, WordXor, FromWords, TimesX, TimesXPow, PartialProduct, Coefficient;
    y0, y1 := z0, z1;
    if bit {
      y0, y1 := WordXor(z0, v0), WordXor(z1, v1);
    }
    w0, w1 := ShiftWords(v0, v1);
  }

  lemma NextTerm(a: Block, b: Block, n: nat)
    requires n < 128
    ensures PartialProduct(a, b, n + 1) == Add(PartialProduct(a, b, n), if Coefficient(b, n) then TimesXPow(a, n) else 0)
    ensures TimesXPow(a, n + 1) == TimesX(TimesXPow(a, n))
  {}

  /** Block::Get. */
  method ToWords(b: Block) returns (v0: Word64, v1: Word64)
    ensures FromWords(v0, v1) == b
  {
    v0, v1 := b / 0x1_0000_0000_0000_0000, b % 0x1_0000_0000_0000_0000;
  }

  lemma {:induction false} ShrShr(x: nat, j: nat, k: nat)
    ensures Shr(Shr(x, j), k) == Shr(x, j + k)
  {
    if k > 0 { ShrShr(x, j, k - 1); }
  }

  lemma ShrMod(u: nat, t: nat, m: nat)
    requires t < m
    ensures Shr(u % Pow2(m), t) % 2 == Shr(u, t) % 2
  {
    ShrSplits(u, m);
    ShrLow(u % Pow2(m), Shr(u, m), t, m);
  }

  lemma ShrLow(low: nat, q: nat, t: nat, m: nat)
    requires t < m
    ensures Shr(low, t) % 2 == Shr(Shl(q, m) + low, t) % 2
  {
    ShlShl(q, m - t, t);
    ShrAddShl(low, Shl(q, m - t), t);
    EvenAdd(Shl(q, m - t - 1), Shr(low, t));
  }

  lemma EvenAdd(h: nat, n: nat)
    ensures (2 * h + n) % 2 == n % 2
  {
  }

  lemma {:induction false} ShrAddShl(x: nat, y: nat, t: nat)
    ensures Shr(Shl(y, t) + x, t) == y + Shr(x, t)
    decreases t
  {
    if t > 0 {
      ShlDouble(y, t - 1);
      ShrAddShl(x, 2 * y, t - 1);
    }
  }

  lemma BitOfByte(b: Block, i: nat, k: nat)
    requires i < 16 && k < 8
    ensures Shr(ByteAt(b, i), 7 - k) % 2 == 1 <==> Coefficient(b, 8 * i + k)
  {
    Pow2Values();
    ShrMod(Shr(b, 8 * (15 - i)), 7 - k, 8);
    ShrShr(b, 8 * (15 - i), 7 - k);
    assert 8 * (15 - i) + (7 - k) == 127 - (8 * i + k);
  }

  // ---- Sums selected by the bits of a number -------------------------------------

  /** The sum of the basis elements, from index t on, that the bits of v select. */
  function Selected(basis: seq<Block>, v: nat, t: nat): Block
    decreases |basis| - t
  {
    if t >= |basis| then 0
    else Add(if v % 2 == 1 then basis[t] else 0, Selected(basis, v / 2, t + 1))
  }

  lemma {:induction false} SelectedZero(basis: seq<Block>, t: nat)
    ensures Selected(basis, 0, t) == 0
    decreases |basis| - t
  {
    if t < |basis| {
      SelectedZero(basis, t + 1);
      AddLaws(0, 0, 0);
    }
  }

  /** Setting one more bit, above all those set, adds its basis element. */
  lemma {:induction false} SelectedTop(basis: seq<Block>, e: nat, k: nat, t: nat)
    requires k < Pow2(e) && t + e < |basis|
    ensures Selected(basis, Pow2(e) + k, t) == Add(basis[t + e], Selected(basis, k, t))
    decreases e
  {
    if e == 0 {
      SelectedZero(basis, t + 1);
      AddLaws(0, 0, 0);
    } else {
      SelectedTop(basis, e - 1, k / 2, t + 1);
      var low: Block := if k % 2 == 1 then basis[t] else 0;
      var rest := Selected(basis, k / 2, t + 1);
      AddLaws(low, basis[t + e], rest);
      AddLaws(basis[t + e], low, rest);
    }
  }

  /** The multiples of h a byte at position i selects: bit t of the byte stands for x^(8i + 7 - t). */
  function ByteBasis(h: Block, i: nat): (s: seq<Block>)
    ensures |s| == 8
  {
    seq(8, t requires 0 <= t < 8 => TimesXPow(h, 8 * i + 7 - t))
  }

  /** The contribution of byte v at position i to the product. */
  function ByteProduct(h: Block, i: nat, v: nat): Block {
    Selected(ByteBasis(h, i), v, 0)
  }

  /** Reading the bits of a byte from the top adds up the same elements. */
  lemma {:induction false} ProductOfBits(h: Block, b: Block, i: nat, k: nat)
    requires i < 16 && k <= 8
    ensures PartialProduct(h, b, 8 * i + k)
            == Add(PartialProduct(h, b, 8 * i), Selected(ByteBasis(h, i), Shr(ByteAt(b, i), 8 - k), 8 - k))
    decreases k
  {
    var basis := ByteBasis(h, i);
    var start := PartialProduct(h, b, 8 * i);
    if k == 0 {
      assert Selected(basis, Shr(ByteAt(b, i), 8), 8) == 0;
      AddLaws(start, 0, 0);
    } else {
      ProductOfBits(h, b, i, k - 1);
      BitOfByte(b, i, k - 1);
      var v := Shr(ByteAt(b, i), 8 - k);
      var bit: Block := if v % 2 == 1 then basis[8 - k] else 0;
      var rest := Selected(basis, v / 2, 8 - k + 1);
      assert Shr(ByteAt(b, i), 8 - k + 1) == v / 2;
      AddLaws(start, rest, bit);
      AddLaws(rest, bit, 0);
    }
  }

  /** The sum of the byte products of the first n bytes. */
  function ByteSum(h: Block, b: Block, n: nat): Block requires n <= 16 {
    if n == 0 then 0 else Add(ByteSum(h, b, n - 1), ByteProduct(h, n - 1, ByteAt(b, n - 1)))
  }

  lemma {:induction false} ByteSumIsProduct(h: Block, b: Block, n: nat)
    requires n <= 16
    ensures ByteSum(h, b, n) == PartialProduct(h, b, 8 * n)
  {
    if n > 0 {
      ByteSumIsProduct(h, b, n - 1);
      ProductOfBits(h, b, n - 1, 8);
    }
  }

  // ---- 64K tables ---------------------------------------------------------------

  ghost predicate RowReady(h: Block, table: array2<Block>, i: nat)
    requires table.Length0 == 16 && table.Length1 == 256 && i < 16
    reads table
  {
    forall v :: 0 <= v < 256 ==> table[i, v] == ByteProduct(h, i, v)
  }

  ghost predicate BitReady(h: Block, table: array2<Block>, i: nat, t: nat)
    requires table.Length0 == 16 && table.Length1 == 256 && i < 16 && t < 8
    reads table
  {
    table[i, BitValue(t)] == ByteBasis(h, i)[t]
  }

  /** 1 << t. */
  function BitValue(t: nat): (v: nat)
    requires t < 8
    ensures v == Pow2(t) && 1 <= v <= 128
  {
    Pow2Values();
    if t == 0 then 1 else if t == 1 then 2 else if t == 2 then 4 else if t == 3 then 8
    else if t == 4 then 16 else if t == 5 then 32 else if t == 6 then 64 else 128
  }

  lemma BitValuesDiffer(t: nat, t': nat)
    requires t < 8 && t' < 8
    ensures t != t' ==> BitValue(t) != BitValue(t')
  {
  }

  /** The entries with a single bit set, in the order in which V runs through the multiples of h. */
  method FillSingleBits(h: Block, table: array2<Block>)
    requires table.Length0 == 16 && table.Length1 == 256
    modifies table
    ensures forall i, t :: 0 <= i < 16 && 0 <= t < 8 ==> BitReady(h, table, i, t)
  {
    hide TimesX, FromWords;
    var v0, v1 := ToWords(h);
    for n := 0 to 128
      invariant FromWords(v0, v1) == TimesXPow(h, n)
      invariant forall i, t :: 0 <= i < 16 && 0 <= t < 8 && 8 * i + 7 - t < n ==> BitReady(h, table, i, t)
    {
      var k := n % 8;
      label before:
      table[n / 8, BitValue(7 - k)] := FromWords(v0, v1);
      v0, v1 := ShiftWords(v0, v1);
      forall i, t | 0 <= i < 16 && 0 <= t < 8 && 8 * i + 7 - t < n + 1
        ensures BitReady(h, table, i, t)
      {
        if 8 * i + 7 - t < n {
          assert old@before(BitReady(h, table, i, t));
          BitValuesDiffer(t, 7 - k);
        } else {
          assert i == n / 8 && t == 7 - k;
        }
      }
    }
  }

  /** The other entries of a row, each from two smaller ones. */
  method FillRow(h: Block, table: array2<Block>, i: nat)
    requires table.Length0 == 16 && table.Length1 == 256 && i < 16
    requires forall t :: 0 <= t < 8 ==> BitReady(h, table, i, t)
    modifies table
    ensures RowReady(h, table, i)
    ensures forall i', v :: 0 <= i' < 16 && 0 <= v < 256 && i' != i ==> table[i', v] == old(table[i', v])
  {
    hide TimesXPow, Selected, ByteBasis, Add, Pow2;
    table[i, 0] := 0;
    FirstEntries(h, i);
    forall t | 0 <= t < 8 ensures BitReady(h, table, i, t) { assert old(BitReady(h, table, i, t)); }
    assert BitReady(h, table, i, 0) && BitValue(0) == 1;
    Pow2Values();
    var j := 2;
    ghost var e := 1;
    while j <= 0x80
      invariant 1 <= e <= 8 && j == Pow2(e) && j <= 256
      invariant forall v :: 0 <= v < j ==> table[i, v] == ByteProduct(h, i, v)
      invariant forall t :: e <= t < 8 ==> BitReady(h, table, i, t)
      invariant forall i', v :: 0 <= i' < 16 && 0 <= v < 256 && i' != i ==> table[i', v] == old(table[i', v])
      decreases 8 - e
    {
      assert e < 8;
      assert BitReady(h, table, i, e) && BitValue(e) == j;
      label before:
      FillAbove(table, i, ByteBasis(h, i), j, e);
      forall t | e < t < 8 ensures BitReady(h, table, i, t) {
        assert old@before(BitReady(h, table, i, t));
        LaterBit(e, t);
      }
      Pow2Step(e);
      j := 2 * j;
      e := e + 1;
    }
  }

  lemma LaterBit(e: nat, t: nat)
    requires e < t < 8
    ensures BitValue(t) >= 2 * Pow2(e)
  {
    Pow2Monotone(e + 1, t);
  }

  lemma FirstEntries(h: Block, i: nat)
    ensures ByteProduct(h, i, 0) == 0 && ByteProduct(h, i, 1) == ByteBasis(h, i)[0]
  {
    SelectedZero(ByteBasis(h, i), 0);
    SelectedTop(ByteBasis(h, i), 0, 0, 0);
    AddLaws(ByteBasis(h, i)[0], 0, 0);
  }

  /** From the entries below j and entry j itself, those up to 2j. */
  method FillAbove(table: array2<Block>, i: nat, ghost basis: seq<Block>, j: nat, ghost e: nat)
    requires i < table.Length0 && 2 * j <= table.Length1
    requires e < |basis| && j == Pow2(e) && table[i, j] == basis[e]
    requires forall v :: 0 <= v < j ==> table[i, v] == Selected(basis, v, 0)
    modifies table
    ensures forall v :: 0 <= v < 2 * j ==> table[i, v] == Selected(basis, v, 0)
    ensures forall i', v :: 0 <= i' < table.Length0 && 0 <= v < table.Length1 && (i' != i || v >= 2 * j) ==>
              table[i', v] == old(table[i', v])
  {
    SelectedTop(basis, e, 0, 0);
    SelectedZero(basis, 0);
    AddLaws(basis[e], 0, 0);
    hide Selected, Add, Pow2;
    var k := 1;
    while k < j
      invariant 1 <= k <= j
      invariant forall v :: 0 <= v < j + k ==> table[i, v] == Selected(basis, v, 0)
      invariant forall i', v :: 0 <= i' < table.Length0 && 0 <= v < table.Length1 && (i' != i || v >= j + k) ==>
                  table[i', v] == old(table[i', v])
    {
      SelectedTop(basis, e, k, 0);
      table[i, j + k] := Add(table[i, j], table[i, k]);
      k := k + 1;
    }
  }

  method SetTables64K(h: Block) returns (table: array2<Block>)
    ensures fresh(table) && table.Length0 == 16 && table.Length1 == 256
    ensures forall i :: 0 <= i < 16 ==> RowReady(h, table, i)
  {
    table := new Block[16, 256];
    FillSingleBits(h, table);
    for i := 0 to 16
      invariant forall r :: 0 <= r < i ==> RowReady(h, table, r)
      invariant forall r, t :: i <= r < 16 && 0 <= t < 8 ==> BitReady(h, table, r, t)
    {
      label before:
      FillRow(h, table, i);
      forall r | 0 <= r < i + 1 ensures RowReady(h, table, r) {
        if r < i { assert old@before(RowReady(h, table, r)); }
      }
      forall r, t | i + 1 <= r < 16 && 0 <= t < 8 ensures BitReady(h, table, r, t) {
        assert old@before(BitReady(h, table, r, t));
      }
    }
  }

  /** AuthenticateBlocks with 64K tables: one lookup per byte, no reduction. */
  method AuthenticateBlocks64K(ghost h: Block, table: array2<Block>, hash: Block, data: seq<Block>) returns (x: Block)
    requires table.Length0 == 16 && table.Length1 == 256
    requires forall i :: 0 <= i < 16 ==> RowReady(h, table, i)
    ensures x == Ghash(h, hash, data)
  {
    x := hash;
    assert data[..0] == [];
    for n := 0 to |data|
      invariant x == Ghash(h, hash, data[..n])
    {
      assert data[..n + 1][..n] == data[..n];
      var y := Add(x, data[n]);
      var a: Block := 0;
      for i := 0 to 16
        invariant a == ByteSum(h, y, i)
      {
        assert RowReady(h, table, i);
        a := Add(a, table[i, ByteAt(y, i)]);
      }
      ByteSumIsProduct(h, y, 16);
      x := a;
    }
    assert data[..|data|] == data;
  }
}
