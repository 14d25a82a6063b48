/**
 GHASH with 2K tables: products of nibbles at every fourth byte only, one running
 sum per byte of a 32-bit group, and a reduction that is collected in one word.
 */
module Gcm2K {
  import opened Arithmetic
  import opened Bytes
  import opened Gf2Polynomials
  import opened Gcm

  // ---- Multiplication by x^8 ------------------------------------------------------

  lemma {:induction false} TimesXPowOfShl(q: nat, n: nat, m: nat)
    requires m <= n && Shl(q, n) < 0x1_0000_0000_0000_0000_0000_0000_0000_0000
    ensures 0 <= Shl(q, n - m) <= Shl(q, n) && TimesXPow(Shl(q, n), m) == Shl(q, n - m)
  {
    if m > 0 {
      TimesXPowOfShl(q, n, m - 1);
      var w := Shl(q, n - m);
      assert Shl(q, n - (m - 1)) == 2 * w;
      AddLaws(w, 0, 0);
    }
  }

  lemma ShlIsBlock(w: nat, n: nat, bits: nat)
    requires w < Pow2(bits) && bits + n <= 128
    ensures Shl(w, n) < 0x1_0000_0000_0000_0000_0000_0000_0000_0000
  {
    BlockIs128Bits();
    ShlIsMultiplication(w, n);
    MulMono(w + 1, Pow2(bits), Pow2(n));
    assert (w + 1) * Pow2(n) == w * Pow2(n) + Pow2(n);
    Pow2Add(bits, n);
    Pow2Monotone(bits + n, 128);
  }

  /** x^8 * v is v one byte on, plus the reduction of the byte that falls off. */
  lemma TimesX8(v: Block)
    ensures TimesXPow(v, 8) == Add(v / 256, TimesXPow(v % 256, 8))
  {
    Pow2Values();
    var q, low := v / 256, v % 256;
    ShlIsMultiplication(q, 8);
    assert Shl(q, 8) == v - low;
    XorDisjoint(q, low, 8);
    TimesXPowAdd(Shl(q, 8), low, 8);
    TimesXPowOfShl(q, 8, 8);
  }

  /** The reduction of a single bit of the last byte: 0x01c2 shifted, at the front of the block. */
  lemma ReductionOfBit(t: nat)
    requires t < 8
    ensures Shl(0x1c2, t) < 0x1_0000 && Pow2(t) < 256
    ensures Shl(Shl(0x1c2, t), 112) < 0x1_0000_0000_0000_0000_0000_0000_0000_0000
    ensures TimesXPow(Pow2(t), 8) == Shl(Shl(0x1c2, t), 112)
  {
    ReductionSize(t);
    hide Xor, TimesX, Shl, TimesXPow, Pow2;
    TimesXPowPow(Pow2(t), t + 1, 7 - t);
    BitFallsOff(t);
    RIsShifted();
    TimesXPowOfShl(0xe1, 120, 7 - t);
    ReductionShift(t);
  }

  lemma ReductionShift(t: nat)
    ensures Shl(0xe1, 1 + (t + 112)) == Shl(Shl(0x1c2, t), 112)
  {
    assert Shl(0xe1, 1) == 0x1c2;
    hide Shl;
    ShlShl(0xe1, 1, t + 112);
    ShlShl(0x1c2, t, 112);
  }

  lemma ReductionSize(t: nat)
    requires t < 8
    ensures Shl(0x1c2, t) < 0x1_0000 && Pow2(t) < 256
    ensures Shl(Shl(0x1c2, t), 112) < 0x1_0000_0000_0000_0000_0000_0000_0000_0000
    ensures Shl(0xe1, 120) < 0x1_0000_0000_0000_0000_0000_0000_0000_0000
  {
    Pow2Values();
    Pow2Monotone(t, 7);
    ShlIsMultiplication(0x1c2, t);
    MulMono(Pow2(t), 128, 0x1c2);
    ShlIsBlock(Shl(0x1c2, t), 112, 16);
    ShlIsBlock(0xe1, 120, 8);
  }

  /** Bit t of the last byte reaches the end after t steps and is reduced by the next. */
  lemma BitFallsOff(t: nat)
    requires t < 8 && Pow2(t) < 256
    ensures TimesXPow(Pow2(t), t + 1) == R
  {
    ShlOne(t);
    TimesXPowOfShl(1, t, t);
    assert TimesX(1) == R by { AddLaws(R, 0, 0); }
  }

  ghost predicate ReductionTable(red: seq<nat>, n: nat) requires n <= |red| {
    forall v :: 0 <= v < n ==> IsReduction(red[v], v)
  }

  /** The two bytes, put at the front of a block, that replace the byte v pushed off its end. */
  ghost predicate IsReduction(r: nat, v: nat) {
    v < 256 && r < 0x1_0000 && Shl(r, 112) == TimesXPow(v, 8)
  }

  lemma ReductionAdd(r: nat, r': nat, t: nat, j: nat)
    requires t < 8 && j < Pow2(t) && IsReduction(r, Pow2(t)) && IsReduction(r', j)
    ensures Pow2(t) + j < 256 && IsReduction(Xor(r, r'), Pow2(t) + j)
  {
    Pow2Values();
    Pow2Monotone(t, 7);
    ShlOne(t);
    XorDisjoint(1, j, t);
    TimesXPowAdd(Pow2(t), j, 8);
    XorShl(r, r', 112);
    XorBound(r, r', 16);
  }

  lemma ReductionZero()
    ensures IsReduction(0, 0)
  {
    ShlIsMultiplication(0, 112);
    TimesXPowOfShl(0, 8, 8);
    ShlIsMultiplication(0, 8);
    ShlIsMultiplication(0, 0);
  }

  /** The static table of reductions, built when the first 2K key is set. */
  method BuildReductionTable() returns (red: array<nat>)
    ensures fresh(red) && red.Length == 256 && ReductionTable(red[..], 256)
  {
    red := new nat[256];
    var x := 0x01c2;
    red[0], red[1] := 0, x;
    FirstReductions(red[..]);
    hide IsReduction, Shl;
    var i := 2;
    ghost var t := 1;
    while i <= 0x80
      invariant 1 <= t <= 8 && i == BitValues(t)
      invariant x == Shl(0x1c2, t - 1)
      invariant ReductionTable(red[..], i)
      decreases 8 - t
    {
      NextReduction(x, t);
      x := (2 * x) % 0x1_0000;
      FillReductions(red, x, i, t);
      i := 2 * i;
      t := t + 1;
    }
  }

  /** 1 << t, up to the size of the table. */
  ghost function BitValues(t: nat): (v: nat)
    requires t <= 8
    ensures v == Pow2(t) && (t < 8 ==> v <= 128) && (t == 8 ==> v == 256)
  {
    if t < 8 then BitValue(t) else Pow2Values(); 256
  }

  lemma ReductionOne()
    ensures IsReduction(0x1c2, 1) && Shl(0x1c2, 0) == 0x1c2
  {
    assert Shl(0x1c2, 0) == 0x1c2 && Pow2(0) == 1;
    hide Shl, Pow2, TimesXPow;
    ReductionOfBit(0);
  }

  lemma FirstReductions(red: seq<nat>)
    requires |red| == 256 && red[0] == 0 && red[1] == 0x1c2
    ensures ReductionTable(red, 2) && Shl(0x1c2, 0) == 0x1c2
  {
    hide IsReduction;
    ReductionZero();
    ReductionOne();
  }

  lemma SmallMod(x: nat)
    requires x < 0x1_0000
    ensures x % 0x1_0000 == x
  {}

  lemma NextReduction(x: nat, t: nat)
    requires 1 <= t < 8 && x == Shl(0x1c2, t - 1)
    ensures (2 * x) % 0x1_0000 == Shl(0x1c2, t) && IsReduction(Shl(0x1c2, t), Pow2(t))
  {
    assert Shl(0x1c2, t) == 2 * x;
    hide Shl, TimesXPow, Pow2;
    ReductionOfBit(t);
    SmallMod(2 * x);
  }

  method FillReductions(red: array<nat>, x: nat, i: nat, ghost t: nat)
    requires red.Length == 256 && 1 <= t < 8 && i == Pow2(t) && i <= 128
    requires IsReduction(x, i) && ReductionTable(red[..], i)
    modifies red
    ensures ReductionTable(red[..], 2 * i)
  {
    hide IsReduction, Xor, Pow2;
    red[i] := x;
    var j := 1;
    while j < i
      invariant 1 <= j <= i && red[i] == x
      invariant ReductionTable(red[..], i + j)
    {
      assert IsReduction(red[..][j], j);
      ReductionAdd(red[i], red[j], t, j);
      red[i + j] := Xor(red[i], red[j]);
      j := j + 1;
    }
  }

  // ---- Nibble tables --------------------------------------------------------------

  /** The multiples of h the low nibble of byte 4c selects, bit t standing for x^(32c + 7 - t). */
  function LowBasis(h: Block, c: nat): (s: seq<Block>)
    ensures |s| == 4
  {
    seq(4, t requires 0 <= t < 4 => TimesXPow(h, 32 * c + 7 - t))
  }

  /** The same for the high nibble. */
  function HighBasis(h: Block, c: nat): (s: seq<Block>)
    ensures |s| == 4
  {
    seq(4, t requires 0 <= t < 4 => TimesXPow(h, 32 * c + 3 - t))
  }

  /** Rows 0 to 3 are for low nibbles, rows 4 to 7, which start at byte 1024, for high ones. */
  function RowBasis(h: Block, row: nat): (s: seq<Block>)
    ensures |s| == 4
  {
    if row < 4 then LowBasis(h, row) else HighBasis(h, row - 4)
  }

  ghost predicate NibbleBit(h: Block, table: array2<Block>, row: nat, t: nat)
    requires table.Length0 == 8 && table.Length1 == 16 && row < 8 && t < 4
    reads table
  {
    table[row, BitValue(t)] == RowBasis(h, row)[t]
  }

  ghost predicate NibbleRow(h: Block, table: array2<Block>, row: nat)
    requires table.Length0 == 8 && table.Length1 == 16 && row < 8
    reads table
  {
    forall v :: 0 <= v < 16 ==> table[row, v] == Selected(RowBasis(h, row), v, 0)
  }

  /** The power of x that entry (row, 1 << t) holds. */
  function NibblePower(row: nat, t: nat): int requires row < 8 && t < 4 {
    if row < 4 then 32 * row + 7 - t else 32 * (row - 4) + 3 - t
  }

  method FillSingleNibbleBits(h: Block, table: array2<Block>)
    requires table.Length0 == 8 && table.Length1 == 16
    modifies table
    ensures forall row, t :: 0 <= row < 8 && 0 <= t < 4 ==> NibbleBit(h, table, row, t)
  {
    hide TimesX, FromWords;
    var v0, v1 := ToWords(h);
    for i := 0 to 104
      invariant FromWords(v0, v1) == TimesXPow(h, i)
      invariant forall row, t :: 0 <= row < 8 && 0 <= t < 4 && NibblePower(row, t) < i ==> NibbleBit(h, table, row, t)
    {
      var k := i % 32;
      label before:
      if k < 4 {
        table[4 + i / 32, BitValue(3 - k)] := FromWords(v0, v1);
      } else if k < 8 {
        table[i / 32, BitValue(7 - k)] := FromWords(v0, v1);
      }
      v0, v1 := ShiftWords(v0, v1);
      forall row, t | 0 <= row < 8 && 0 <= t < 4 && NibblePower(row, t) < i + 1
        ensures NibbleBit(h, table, row, t)
      {
        if NibblePower(row, t) < i {
          assert old@before(NibbleBit(h, table, row, t));
          if k < 4 { BitValuesDiffer(t, 3 - k); } else if k < 8 { BitValuesDiffer(t, 7 - k); }
        } else {
          PowerDetermines(row, t, i);
        }
      }
    }
  }

  lemma PowerDetermines(row: nat, t: nat, i: nat)
    requires row < 8 && t < 4 && NibblePower(row, t) == i
    ensures i % 32 < 4 ==> row == 4 + i / 32 && t == 3 - i % 32
    ensures 4 <= i % 32 < 8 ==> row == i / 32 && t == 7 - i % 32
    ensures i % 32 < 8
  {
  }

  method FillNibbleRow(h: Block, table: array2<Block>, row: nat)
    requires table.Length0 == 8 && table.Length1 == 16 && row < 8
    requires forall t :: 0 <= t < 4 ==> NibbleBit(h, table, row, t)
    modifies table
    ensures NibbleRow(h, table, row)
    ensures forall r, v :: 0 <= r < 8 && 0 <= v < 16 && r != row ==> table[r, v] == old(table[r, v])
  {
    ghost var basis := RowBasis(h, row);
    table[row, 0] := 0;
    SelectedZero(basis, 0);
    SelectedTop(basis, 0, 0, 0);
    AddLaws(basis[0], 0, 0);
    forall t | 0 <= t < 4 ensures NibbleBit(h, table, row, t) { assert old(NibbleBit(h, table, row, t)); }
    assert NibbleBit(h, table, row, 0) && BitValue(0) == 1;
    var j := 2;
    ghost var e := 1;
    while j <= 8
      invariant 1 <= e <= 4 && j == BitValue(e) && j <= 16
      invariant forall v :: 0 <= v < j ==> table[row, v] == Selected(basis, v, 0)
      invariant forall t :: e <= t < 4 ==> NibbleBit(h, table, row, t)
      invariant forall r, v :: 0 <= r < 8 && 0 <= v < 16 && r != row ==> table[r, v] == old(table[r, v])
      decreases 4 - e
    {
      assert NibbleBit(h, table, row, e) && e < 4;
      label before:
      FillAbove(table, row, basis, j, e);
      forall t | e < t < 4 ensures NibbleBit(h, table, row, t) {
        assert old@before(NibbleBit(h, table, row, t));
        Pow2Monotone(e + 1, t);
      }
      j := 2 * j;
      e := e + 1;
    }
  }

  method SetTables2K(h: Block) returns (table: array2<Block>)
    ensures fresh(table) && table.Length0 == 8 && table.Length1 == 16
    ensures forall row :: 0 <= row < 8 ==> NibbleRow(h, table, row)
  {
    table := new Block[8, 16];
    FillSingleNibbleBits(h, table);
    for row := 0 to 8
      invariant forall r :: 0 <= r < row ==> NibbleRow(h, table, r)
      invariant forall r, t :: row <= r < 8 && 0 <= t < 4 ==> NibbleBit(h, table, r, t)
    {
      label before:
      FillNibbleRow(h, table, row);
      forall r | 0 <= r < row + 1 ensures NibbleRow(h, table, r) {
        if r < row { assert old@before(NibbleRow(h, table, r)); }
      }
      forall r, t | row + 1 <= r < 8 && 0 <= t < 4 ensures NibbleBit(h, table, r, t) {
        assert old@before(NibbleBit(h, table, r, t));
      }
    }
  }

  // ---- Splitting a product into nibbles and byte columns --------------------------

  lemma HalfMod(v: nat, n: nat)
    requires n >= 1
    ensures v / 2 % Pow2(n - 1) == v % Pow2(n) / 2 && v % Pow2(n) % 2 == v % 2
  {
    var p := Pow2(n - 1);
    var q, r := v / Pow2(n), v % Pow2(n);
    DivMod(v, Pow2(n));
    assert v == 2 * (q * p) + r by { assert q * (2 * p) == 2 * (q * p); }
    DivModUnique(v / 2, p, q, r / 2);
  }

  /** Only as many bits of v count as there are basis elements left. */
  lemma {:induction false} SelectedLowBits(basis: seq<Block>, v: nat, t: nat)
    requires t <= |basis|
    ensures Selected(basis, v % Pow2(|basis| - t), t) == Selected(basis, v, t)
    decreases |basis| - t
  {
    if t < |basis| {
      HalfMod(v, |basis| - t);
      SelectedLowBits(basis, v / 2, t + 1);
    }
  }

  lemma {:induction false} SelectedSuffix(basis: seq<Block>, high: seq<Block>, k: nat, v: nat, t: nat)
    requires k <= |basis| && high == basis[k..]
    ensures Selected(basis, v, k + t) == Selected(high, v, t)
    decreases |basis| - t
  {
    if k + t < |basis| { SelectedSuffix(basis, high, k, v / 2, t + 1); }
  }

  lemma {:induction false} SelectedSplit(basis: seq<Block>, low: seq<Block>, high: seq<Block>, v: nat, t: nat)
    requires basis == low + high && t <= |low|
    ensures Selected(basis, v, t) == Add(Selected(low, v, t), Selected(high, Shr(v, |low| - t), 0))
    decreases |low| - t
  {
    var k := |low|;
    if t == k {
      SelectedSuffix(basis, high, k, v, 0);
      AddLaws(Selected(high, v, 0), 0, 0);
    } else {
      SelectedSplit(basis, low, high, v / 2, t + 1);
      ShrShr(v, 1, k - t - 1);
      assert Shr(v, 1) == v / 2;
      AddLaws(if v % 2 == 1 then low[t] else 0, Selected(low, v / 2, t + 1), Selected(high, Shr(v, k - t), 0));
    }
  }

  /** The two table entries for a byte in the first column of its group. */
  lemma NibblesMakeByte(h: Block, c: nat, v: nat)
    requires v < 256
    ensures Add(Selected(LowBasis(h, c), v % 16, 0), Selected(HighBasis(h, c), v / 16, 0)) == ByteProduct(h, 4 * c, v)
  {
    var basis, low, high := ByteBasis(h, 4 * c), LowBasis(h, c), HighBasis(h, c);
    assert basis == low + high && |low| == 4;
    hide Selected, Add, Shr, Pow2, ByteBasis, LowBasis, HighBasis;
    SelectedSplit(basis, low, high, v, 0);
    Pow2Values();
    SelectedLowBits(low, v, 0);
    ShrIsDivision(v, 4);
  }

  lemma {:induction false} SelectedScale(basis: seq<Block>, scaled: seq<Block>, v: nat, t: nat, n: nat)
    requires |scaled| == |basis| && forall k :: 0 <= k < |basis| ==> scaled[k] == TimesXPow(basis[k], n)
    ensures Selected(scaled, v, t) == TimesXPow(Selected(basis, v, t), n)
    decreases |basis| - t
  {
    ZeroTimesXPow(n);
    if t < |basis| {
      SelectedScale(basis, scaled, v / 2, t + 1, n);
      TimesXPowAdd(if v % 2 == 1 then basis[t] else 0, Selected(basis, v / 2, t + 1), n);
    }
  }

  lemma {:induction false} ZeroTimesXPow(n: nat)
    ensures TimesXPow(0, n) == 0
  {
    if n > 0 {
      ZeroTimesXPow(n - 1);
      AddLaws(0, 0, 0);
    }
  }

  /** A byte in column j of its group contributes x^(8j) times what it would in the first column. */
  lemma ByteInColumn(h: Block, c: nat, j: nat, v: nat)
    ensures ByteProduct(h, 4 * c + j, v) == TimesXPow(ByteProduct(h, 4 * c, v), 8 * j)
  {
    hide TimesXPow, Selected;
    var basis, scaled := ByteBasis(h, 4 * c), ByteBasis(h, 4 * c + j);
    forall t | 0 <= t < 8 ensures scaled[t] == TimesXPow(basis[t], 8 * j) {
      TimesXPowPow(h, 8 * (4 * c) + 7 - t, 8 * j);
    }
    SelectedScale(basis, scaled, v, 0, 8 * j);
  }

  // ---- Putting the columns together -----------------------------------------------

  /** a + x^8 b + x^16 c + x^24 d, by Horner's rule. */
  function Horner(a: Block, b: Block, c: Block, d: Block): Block {
    Behind(a, Behind(b, Behind(c, d)))
  }

  /** a + x^8 b. */
  function Behind(a: Block, b: Block): Block {
    Add(a, TimesXPow(b, 8))
  }

  lemma HornerStep(a: Block, a': Block, r: Block, r': Block)
    ensures Add(Add(a, a'), TimesXPow(Add(r, r'), 8)) == Add(Add(a, TimesXPow(r, 8)), Add(a', TimesXPow(r', 8)))
  {
    TimesXPowAdd(r, r', 8);
    AddSwapInner(a, a', TimesXPow(r, 8), TimesXPow(r', 8));
  }

  lemma HornerAdd(a: Block, b: Block, c: Block, d: Block, a': Block, b': Block, c': Block, d': Block)
    ensures Horner(Add(a, a'), Add(b, b'), Add(c, c'), Add(d, d')) == Add(Horner(a, b, c, d), Horner(a', b', c', d'))
  {
    HornerStep(c, c', d, d');
    HornerStep(b, b', Add(c, TimesXPow(d, 8)), Add(c', TimesXPow(d', 8)));
    HornerStep(a, a', Add(b, TimesXPow(Add(c, TimesXPow(d, 8)), 8)), Add(b', TimesXPow(Add(c', TimesXPow(d', 8)), 8)));
  }

  /** Horner's rule is the sum of the four columns. */
  lemma HornerExpanded(a: Block, b: Block, c: Block, d: Block)
    ensures Horner(a, b, c, d) == Add(Add(Add(a, TimesXPow(b, 8)), TimesXPow(c, 16)), TimesXPow(d, 24))
  {
    var x8d, x8c := TimesXPow(d, 8), TimesXPow(c, 8);
    TimesXPowAdd(c, x8d, 8);
    TimesXPowPow(d, 8, 8);
    TimesXPowAdd(b, Add(x8c, TimesXPow(d, 16)), 8);
    TimesXPowAdd(x8c, TimesXPow(d, 16), 8);
    TimesXPowPow(c, 8, 8);
    TimesXPowPow(d, 16, 8);
    var p, q, r := TimesXPow(b, 8), TimesXPow(c, 16), TimesXPow(d, 24);
    AddLaws(p, q, r);
    AddLaws(a, p, Add(q, r));
    AddLaws(Add(a, p), q, r);
  }

  // ---- AuthenticateBlocks with 2K tables --------------------------------------------

  method LookUp(ghost h: Block, table: array2<Block>, c: nat, v: byte) returns (q: Block)
    requires table.Length0 == 8 && table.Length1 == 16 && c < 4
    requires forall row :: 0 <= row < 8 ==> NibbleRow(h, table, row)
    ensures q == ByteProduct(h, 4 * c, v)
  {
    assert NibbleRow(h, table, c) && NibbleRow(h, table, 4 + c);
    NibblesMakeByte(h, c, v);
    q := Add(table[c, v % 16], table[4 + c, v / 16]);
  }

  lemma GroupSum(h: Block, x: Block, n: nat, q0: Block, q1: Block, q2: Block, q3: Block)
    requires n < 4
    requires q0 == ByteProduct(h, 4 * n, ByteAt(x, 4 * n)) && q1 == ByteProduct(h, 4 * n, ByteAt(x, 4 * n + 1))
    requires q2 == ByteProduct(h, 4 * n, ByteAt(x, 4 * n + 2)) && q3 == ByteProduct(h, 4 * n, ByteAt(x, 4 * n + 3))
    ensures ByteSum(h, x, 4 * (n + 1)) == Add(ByteSum(h, x, 4 * n), Horner(q0, q1, q2, q3))
  {
    hide ByteProduct, TimesXPow, Horner;
    var s := ByteSum(h, x, 4 * n);
    var p1, p2, p3 := TimesXPow(q1, 8), TimesXPow(q2, 16), TimesXPow(q3, 24);
    ByteInColumn(h, n, 1, ByteAt(x, 4 * n + 1));
    ByteInColumn(h, n, 2, ByteAt(x, 4 * n + 2));
    ByteInColumn(h, n, 3, ByteAt(x, 4 * n + 3));
    assert ByteSum(h, x, 4 * n + 1) == Add(s, q0);
    assert ByteSum(h, x, 4 * n + 2) == Add(Add(s, q0), p1);
    assert ByteSum(h, x, 4 * n + 3) == Add(Add(Add(s, q0), p1), p2);
    assert ByteSum(h, x, 4 * n + 4) == Add(Add(Add(Add(s, q0), p1), p2), p3);
    HornerExpanded(q0, q1, q2, q3);
    AddLaws(s, q0, p1);
    AddLaws(s, Add(q0, p1), p2);
    AddLaws(s, Add(Add(q0, p1), p2), p3);
  }

  /** The four running sums, one per byte column. */
  method SumColumns(ghost h: Block, table: array2<Block>, x: Block) returns (a: Block, b: Block, c: Block, d: Block)
    requires table.Length0 == 8 && table.Length1 == 16
    requires forall row :: 0 <= row < 8 ==> NibbleRow(h, table, row)
    ensures Horner(a, b, c, d) == Multiply(h, x)
  {
    a, b, c, d := 0, 0, 0, 0;
    HornerZero();
    hide Horner, ByteProduct, ByteSum, Multiply, Add, NibbleRow;
    for n := 0 to 4
      invariant Horner(a, b, c, d) == ByteSum(h, x, 4 * n)
    {
      var q0 := LookUp(h, table, n, ByteAt(x, 4 * n));
      var q1 := LookUp(h, table, n, ByteAt(x, 4 * n + 1));
      var q2 := LookUp(h, table, n, ByteAt(x, 4 * n + 2));
      var q3 := LookUp(h, table, n, ByteAt(x, 4 * n + 3));
      HornerAdd(a, b, c, d, q0, q1, q2, q3);
      GroupSum(h, x, n, q0, q1, q2, q3);
      a, b, c, d := Add(a, q0), Add(b, q1), Add(c, q2), Add(d, q3);
    }
    AllBytes(h, x);
  }

  lemma HornerZero()
    ensures Horner(0, 0, 0, 0) == 0
    ensures forall h, x :: ByteSum(h, x, 0) == 0
  {
    ZeroTimesXPow(8);
    AddLaws(0, 0, 0);
  }

  lemma AllBytes(h: Block, x: Block)
    ensures ByteSum(h, x, 16) == Multiply(h, x)
  {
    ByteSumIsProduct(h, x, 16);
  }

  /** x^8 times a block whose last byte has the given reduction. */
  lemma ShiftByte(v: Block, r: nat)
    requires IsReduction(r, LastByte(v))
    ensures 0 <= Shl(r, 112) < 0x1_0000_0000_0000_0000_0000_0000_0000_0000
    ensures TimesXPow(v, 8) == Add(OtherBytes(v), Shl(r, 112))
  {
    TimesX8(v);
  }

  /** Earlier reductions stay clear of the last byte: they only move on. */
  lemma ShiftReduction(r: nat, n: nat)
    requires r < 0x1_0000 && 8 <= n <= 112
    ensures 0 <= Shl(r, n) < 0x1_0000_0000_0000_0000_0000_0000_0000_0000
    ensures 0 <= Shl(r, n - 8) < 0x1_0000_0000_0000_0000_0000_0000_0000_0000
    ensures TimesXPow(Shl(r, n), 8) == Shl(r, n - 8)
  {
    Pow2Values();
    ShlIsBlock(r, n, 16);
    TimesXPowOfShl(r, n, 8);
  }

  /** The reduction word of the source: one 16-bit reduction per byte shifted out. */
  lemma ReductionWord(rd: nat, rc: nat, rb: nat)
    requires rd < 0x1_0000 && rc < 0x1_0000 && rb < 0x1_0000
    ensures var r := Xor(Xor(rd, Shl(rc, 8)), Shl(rb, 16));
            0 <= Shl(r, 96) < 0x1_0000_0000_0000_0000_0000_0000_0000_0000
            && Shl(r, 96) == Xor(Xor(Shl(rd, 96), Shl(rc, 104)), Shl(rb, 112))
  {
    XorShl(Xor(rd, Shl(rc, 8)), Shl(rb, 16), 96);
    XorShl(rd, Shl(rc, 8), 96);
    ShlShl(rc, 8, 96);
    ShlShl(rb, 16, 96);
    Pow2Values();
    ShlIsBlock(rd, 96, 16);
    ShlIsBlock(rc, 104, 16);
    ShlIsBlock(rb, 112, 16);
    BlockIs128Bits();
    XorBound(Shl(rd, 96), Shl(rc, 104), 128);
    XorBound(Xor(Shl(rd, 96), Shl(rc, 104)), Shl(rb, 112), 128);
  }

  /** GF_MOST_SIG_8BITS and what GF_SHIFT_8 leaves. */
  function LastByte(v: Block): nat { v % 256 }

  function OtherBytes(v: Block): Block { v / 256 }

  lemma LastByteBound(v: Block)
    ensures LastByte(v) < 256
  {}

  /** The reduction word in its place at the front of a block. */
  function WordInPlace(rd: nat, rc: nat, rb: nat): nat {
    Shl(Xor(Xor(rd, Shl(rc, 8)), Shl(rb, 16)), 96)
  }

  /** Horner's rule with the reductions of all three shifts collected in one word. */
  method Reduce(red: array<nat>, a: Block, b: Block, c: Block, d: Block) returns (x: Block)
    requires red.Length == 256 && ReductionTable(red[..], 256)
    ensures x == Horner(a, b, c, d)
  {
    hide TimesXPow, Xor, Shl, IsReduction, LastByte, OtherBytes, Add, Horner, WordInPlace;
    LastByteBound(d);
    var rd := red[LastByte(d)];
    assert IsReduction(red[..][LastByte(d)], LastByte(d));
    var c' := Add(c, OtherBytes(d));
    LastByteBound(c');
    var rc := red[LastByte(c')];
    assert IsReduction(red[..][LastByte(c')], LastByte(c'));
    var b' := Add(b, OtherBytes(c'));
    LastByteBound(b');
    var rb := red[LastByte(b')];
    assert IsReduction(red[..][LastByte(b')], LastByte(b'));
    var a' := Add(a, OtherBytes(b'));
    HornerReduced(a, b, c, d, c', b', a', rd, rc, rb);
    x := Add(a', WordInPlace(rd, rc, rb));
  }

  lemma HornerReduced(a: Block, b: Block, c: Block, d: Block, c': Block, b': Block, a': Block, rd: nat, rc: nat, rb: nat)
    requires c' == Add(c, OtherBytes(d)) && b' == Add(b, OtherBytes(c')) && a' == Add(a, OtherBytes(b'))
    requires IsReduction(rd, LastByte(d)) && IsReduction(rc, LastByte(c')) && IsReduction(rb, LastByte(b'))
    ensures var r := WordInPlace(rd, rc, rb);
            0 <= r < 0x1_0000_0000_0000_0000_0000_0000_0000_0000 && Add(a', r) == Horner(a, b, c, d)
  {
    hide Shl, TimesXPow, Xor, IsReduction, Horner, LastByte, OtherBytes, Add, WordInPlace;
    var d112, d104, d96 := ThreePlaces(d, rd);
    var c112, c104, _ := ThreePlaces(c', rc);
    var b112, _, _ := ThreePlaces(b', rb);
    CollectedWord(rd, rc, rb, d96, c104, b112);
    HornerCollected(a, b, c, d, c', b', a', OtherBytes(d), OtherBytes(c'), OtherBytes(b'), d112, d104, d96, c112, c104, b112);
  }

  /** A reduction where it arises, and one and two bytes further on. */
  lemma ThreePlaces(v: Block, r: nat) returns (r112: Block, r104: Block, r96: Block)
    requires IsReduction(r, LastByte(v))
    ensures r < 0x1_0000 && r112 == Shl(r, 112) && r104 == Shl(r, 104) && r96 == Shl(r, 96)
    ensures TimesXPow(v, 8) == Add(OtherBytes(v), r112) && TimesXPow(r112, 8) == r104 && TimesXPow(r104, 8) == r96
  {
    hide Shl, TimesXPow, Xor, IsReduction, LastByte, OtherBytes, Add;
    ReductionSizes(r, LastByte(v));
    ShiftByte(v, r);
    ShiftReduction(r, 112);
    ShiftReduction(r, 104);
    r112, r104, r96 := Shl(r, 112), Shl(r, 104), Shl(r, 96);
  }

  lemma CollectedWord(rd: nat, rc: nat, rb: nat, d96: Block, c104: Block, b112: Block)
    requires rd < 0x1_0000 && rc < 0x1_0000 && rb < 0x1_0000
    requires d96 == Shl(rd, 96) && c104 == Shl(rc, 104) && b112 == Shl(rb, 112)
    ensures 0 <= WordInPlace(rd, rc, rb) < 0x1_0000_0000_0000_0000_0000_0000_0000_0000
    ensures WordInPlace(rd, rc, rb) == Add(Add(d96, c104), b112)
  {
    hide Shl, Xor;
    ReductionWord(rd, rc, rb);
  }

  lemma ReductionSizes(r: nat, v: nat)
    requires IsReduction(r, v)
    ensures r < 0x1_0000
  {}

  lemma HornerCollected(a: Block, b: Block, c: Block, d: Block, c': Block, b': Block, a': Block, dq: Block, cq: Block, bq: Block,
                        d112: Block, d104: Block, d96: Block, c112: Block, c104: Block, b112: Block)
    requires c' == Add(c, dq) && b' == Add(b, cq) && a' == Add(a, bq)
    requires TimesXPow(d, 8) == Add(dq, d112) && TimesXPow(d112, 8) == d104 && TimesXPow(d104, 8) == d96
    requires TimesXPow(c', 8) == Add(cq, c112) && TimesXPow(c112, 8) == c104
    requires TimesXPow(b', 8) == Add(bq, b112)
    ensures Horner(a, b, c, d) == Add(a', Add(Add(d96, c104), b112))
  {
    hide TimesXPow, Add, Behind;
    ShiftIn(c, d, dq, d112);
    ShiftInSum(b, c', d112, cq, c112, d104);
    ShiftInSums(a, b', c112, d104, bq, b112, c104, d96);
    ThreeTurned(b112, c104, d96);
  }

  lemma ShiftInSums(a: Block, b: Block, s: Block, s': Block, q: Block, r: Block, t: Block, t': Block)
    requires TimesXPow(b, 8) == Add(q, r) && TimesXPow(s, 8) == t && TimesXPow(s', 8) == t'
    ensures Behind(a, Add(b, Add(s, s'))) == Add(Add(a, q), Add(r, Add(t, t')))
  {
    hide TimesXPow, Add, Behind;
    TimesXPowAdd(s, s', 8);
    ShiftInSum(a, b, Add(s, s'), q, r, Add(t, t'));
  }

  lemma ThreeTurned(a: Block, b: Block, c: Block)
    ensures Add(a, Add(b, c)) == Add(Add(c, b), a)
  {
    hide Add;
    AddLaws(b, c, 0);
    AddLaws(a, Add(b, c), 0);
  }

  lemma ShiftIn(c: Block, d: Block, q: Block, r: Block)
    requires TimesXPow(d, 8) == Add(q, r)
    ensures Behind(c, d) == Add(Add(c, q), r)
  {
    hide TimesXPow, Add;
    AddLaws(c, q, r);
  }

  lemma ShiftInSum(b: Block, c: Block, s: Block, q: Block, r: Block, t: Block)
    requires TimesXPow(c, 8) == Add(q, r) && TimesXPow(s, 8) == t
    ensures Behind(b, Add(c, s)) == Add(Add(b, q), Add(r, t))
  {
    hide TimesXPow, Add;
    TimesXPowAdd(c, s, 8);
    AddLaws(q, r, t);
    AddLaws(b, q, Add(r, t));
  }

  /** The 2K loop computes GHASH as well. */
  method AuthenticateBlocks2K(ghost h: Block, table: array2<Block>, red: array<nat>, hash: Block, data: seq<Block>)
    returns (x: Block)
    requires table.Length0 == 8 && table.Length1 == 16
    requires forall row :: 0 <= row < 8 ==> NibbleRow(h, table, row)
    requires red.Length == 256 && ReductionTable(red[..], 256)
    ensures x == Ghash(h, hash, data)
  {
    hide Multiply, Add, Horner, NibbleRow, ReductionTable;
    x := hash;
    assert data[..0] == [];
    for n := 0 to |data|
      invariant x == Ghash(h, hash, data[..n])
    {
      assert data[..n + 1][..n] == data[..n];
      var a, b, c, d := SumColumns(h, table, Add(x, data[n]));
      x := Reduce(red, a, b, c, d);
    }
    assert data[..|data|] == data;
  }
}
