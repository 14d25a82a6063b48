/**
 AbstractGroup::CascadeScalarMultiply: e1 * x + e2 * y with one chain of doublings
 and a two-dimensional table of small combinations of x and y.
 */
module CascadeMultiplication {
  import opened Arithmetic
  import opened AbelianGroups
  import opened Wrappers

  /** n * x + m * y. */
  ghost function Combine<T(!new)>(g: Group<T>, x: T, y: T, n: int, m: int): T {
    g.add(g.Multiple(n, x), g.Multiple(m, y))
  }

  lemma CombineAdd<T(!new)>(g: Group<T>, x: T, y: T, n: int, m: int, n': int, m': int)
    requires g.IsAbelian()
    ensures g.add(Combine(g, x, y, n, m), Combine(g, x, y, n', m')) == Combine(g, x, y, n + n', m + m')
  {
    g.SwapInner(g.Multiple(n, x), g.Multiple(m, y), g.Multiple(n', x), g.Multiple(m', y));
    g.MultipleAdd(n, n', x);
    g.MultipleAdd(m, m', y);
  }

  lemma CombineUnits<T(!new)>(g: Group<T>, x: T, y: T)
    requires g.IsAbelian()
    ensures Combine(g, x, y, 1, 0) == x && Combine(g, x, y, 0, 1) == y
    ensures Combine(g, x, y, 0, 0) == g.identity
  {
    g.MultipleOne(x);
    g.MultipleOne(y);
    g.Unit(x);
    g.Unit(y);
    g.Unit(g.identity);
  }

  // ---- The table ------------------------------------------------------------

  function Index(r: nat, c: nat, size: nat): nat {
    r * size + c
  }

  /** Entry (r, c) has been filled, with c * x + r * y. */
  ghost predicate Filled<T(!new)>(g: Group<T>, x: T, y: T, size: nat, table: seq<Option<T>>, r: nat, c: nat) {
    && c < size && Index(r, c, size) < |table|
    && table[Index(r, c, size)] == Some(Combine(g, x, y, c, r))
  }

  lemma IndexInjective(r: nat, c: nat, r': nat, c': nat, size: nat)
    requires c < size && c' < size && Index(r, c, size) == Index(r', c', size)
    ensures r == r' && c == c'
  {
    DivModUnique(r * size + c, size, r, c);
    DivModUnique(r' * size + c', size, r', c');
  }

  lemma IndexInRange(r: nat, c: nat, size: nat)
    requires c < size && r < size
    ensures Index(r, c, size) < size * size
  {
    MulMono(r + 1, size, size);
    assert (r + 1) * size == r * size + size;
  }

  lemma IndexNextRow(r: nat, c: nat, size: nat)
    ensures Index(r + 1, c, size) == Index(r, c, size) + size
  {
    assert (r + 1) * size == r * size + size;
  }

  lemma RowInTable(r: nat, c: nat, size: nat)
    requires c < size
    ensures Index(r, c, size) < size * size <==> r < size
    ensures Index(0, c, size) == c && Index(1, c, size) == c + size
  {
    if r < size { IndexInRange(r, c, size); } else { MulMono(size, r, size); }
  }

  ghost predicate Keeps<T(!new)>(g: Group<T>, x: T, y: T, size: nat, table: seq<Option<T>>, table': seq<Option<T>>) {
    |table'| == |table| && forall r, c :: Filled(g, x, y, size, table, r, c) ==> Filled(g, x, y, size, table', r, c)
  }

  /** Fill entry (r, c) with the sum of two filled entries; whatever was filled stays so. */
  method Fill<T(!new)>(g: Group<T>, ghost x: T, ghost y: T, size: nat, tableIn: seq<Option<T>>,
                       j: nat, ghost r: nat, ghost c: nat,
                       a: nat, ghost ra: nat, ghost ca: nat, b: nat, ghost rb: nat, ghost cb: nat)
    returns (table: seq<Option<T>>)
    requires g.IsAbelian() && |tableIn| == size * size
    requires r < size && c < size && j == Index(r, c, size)
    requires a == Index(ra, ca, size) && Filled(g, x, y, size, tableIn, ra, ca)
    requires b == Index(rb, cb, size) && Filled(g, x, y, size, tableIn, rb, cb)
    requires r == ra + rb && c == ca + cb
    ensures Keeps(g, x, y, size, tableIn, table) && Filled(g, x, y, size, table, r, c)
  {
    IndexInRange(r, c, size);
    CombineAdd(g, x, y, ca, ra, cb, rb);
    table := tableIn[j := Some(g.add(tableIn[a].value, tableIn[b].value))];
    Overwrite(g, x, y, size, tableIn, r, c);
  }

  lemma Overwrite<T(!new)>(g: Group<T>, x: T, y: T, size: nat, table: seq<Option<T>>, r: nat, c: nat)
    requires c < size && Index(r, c, size) < |table|
    ensures var table' := table[Index(r, c, size) := Some(Combine(g, x, y, c, r))];
            Keeps(g, x, y, size, table, table') && Filled(g, x, y, size, table', r, c)
  {
    var table' := table[Index(r, c, size) := Some(Combine(g, x, y, c, r))];
    forall r', c' | Filled(g, x, y, size, table, r', c')
      ensures Filled(g, x, y, size, table', r', c')
    {
      if Index(r', c', size) == Index(r, c, size) { IndexInjective(r, c, r', c', size); }
    }
  }

  /** The entries with an odd coordinate, which are the only ones the main loop reads. */
  ghost predicate TableReady<T(!new)>(g: Group<T>, x: T, y: T, size: nat, table: seq<Option<T>>) {
    forall r, c :: 0 <= r < size && 0 <= c < size && (r % 2 == 1 || c % 2 == 1) ==>
      Filled(g, x, y, size, table, r, c)
  }

  method BuildTable<T(!new)>(g: Group<T>, x: T, y: T, size: nat) returns (table: seq<Option<T>>)
    requires g.IsAbelian() && (size == 2 || size == 4 || size == 8)
    ensures TableReady(g, x, y, size, table)
  {
    table := seq(size * size, _ => None);
    CombineUnits(g, x, y);
    table := table[1 := Some(x)];
    table := table[size := Some(y)];
    assert Index(0, 1, size) == 1 && Index(1, 0, size) == size;
    if size == 2 {
      assert Index(1, 1, 2) == 3;
      table := Fill(g, x, y, size, table, 3, 1, 1, 1, 0, 1, 2, 1, 0);
    } else {
      assert Index(0, 2, size) == 2 && Index(2, 0, size) == 2 * size;
      table := Fill(g, x, y, size, table, 2, 0, 2, 1, 0, 1, 1, 0, 1);
      table := Fill(g, x, y, size, table, 2 * size, 2, 0, size, 1, 0, size, 1, 0);
      table := FillFirstRow(g, x, y, size, table);
      table := FillOddColumns(g, x, y, size, table);
      table := FillFirstColumn(g, x, y, size, table);
      table := FillOddRows(g, x, y, size, table);
    }
  }

  /** The entries the loops start from: x, y, 2x and 2y. */
  ghost predicate Seeded<T(!new)>(g: Group<T>, x: T, y: T, size: nat, table: seq<Option<T>>) {
    && |table| == size * size
    && Filled(g, x, y, size, table, 0, 1) && Filled(g, x, y, size, table, 1, 0)
    && Filled(g, x, y, size, table, 0, 2) && Filled(g, x, y, size, table, 2, 0)
  }

  method FillFirstRow<T(!new)>(g: Group<T>, ghost x: T, ghost y: T, size: nat, tableIn: seq<Option<T>>)
    returns (table: seq<Option<T>>)
    requires g.IsAbelian() && (size == 4 || size == 8) && Seeded(g, x, y, size, tableIn)
    ensures Keeps(g, x, y, size, tableIn, table)
    ensures forall c :: 0 <= c < size && c % 2 == 1 ==> Filled(g, x, y, size, table, 0, c)
  {
    hide Combine, Filled;
    table := tableIn;
    var i := 3;
    while i < size
      invariant i % 2 == 1 && i >= 3 && Keeps(g, x, y, size, tableIn, table)
      invariant forall c :: 0 <= c < size && c < i && c % 2 == 1 ==> Filled(g, x, y, size, table, 0, c)
    {
      table := Fill(g, x, y, size, table, i, 0, i, i - 2, 0, i - 2, 2, 0, 2);
      i := i + 2;
    }
  }

  method FillOddColumns<T(!new)>(g: Group<T>, ghost x: T, y: T, size: nat, tableIn: seq<Option<T>>)
    returns (table: seq<Option<T>>)
    requires g.IsAbelian() && (size == 4 || size == 8) && Seeded(g, x, y, size, tableIn)
    requires forall c :: 0 <= c < size && c % 2 == 1 ==> Filled(g, x, y, size, tableIn, 0, c)
    ensures Keeps(g, x, y, size, tableIn, table)
    ensures forall r, c :: 0 <= r < size && 0 <= c < size && c % 2 == 1 ==> Filled(g, x, y, size, table, r, c)
  {
    hide Combine, Filled;
    table := tableIn;
    var i := 1;
    while i < size
      invariant i % 2 == 1 && i >= 1 && Keeps(g, x, y, size, tableIn, table)
      invariant forall r, c :: 0 <= r < size && 0 <= c < size && c < i && c % 2 == 1 ==> Filled(g, x, y, size, table, r, c)
    {
      table := FillColumn(g, x, y, size, table, i);
      i := i + 2;
    }
  }

  method FillColumn<T(!new)>(g: Group<T>, ghost x: T, y: T, size: nat, tableIn: seq<Option<T>>, i: nat)
    returns (table: seq<Option<T>>)
    requires g.IsAbelian() && (size == 4 || size == 8) && Seeded(g, x, y, size, tableIn)
    requires i < size && Filled(g, x, y, size, tableIn, 0, i)
    ensures Keeps(g, x, y, size, tableIn, table)
    ensures forall r :: 0 <= r < size ==> Filled(g, x, y, size, table, r, i)
  {
    hide Combine, Filled, Index;
    table := tableIn;
    var j := i + size;
    ghost var row := 1;
    RowInTable(1, i, size);
    RowInTable(1, 0, size);
    while j < size * size
      invariant 1 <= row <= size && j == Index(row, i, size) && Keeps(g, x, y, size, tableIn, table)
      invariant forall r :: 0 <= r < row ==> Filled(g, x, y, size, table, r, i)
    {
      IndexNextRow(row, i, size);
      IndexNextRow(row - 1, i, size);
      RowInTable(row, i, size);
      table := Fill(g, x, y, size, table, j, row, i, j - size, row - 1, i, size, 1, 0);
      j, row := j + size, row + 1;
    }
    RowInTable(row, i, size);
  }

  method FillFirstColumn<T(!new)>(g: Group<T>, ghost x: T, ghost y: T, size: nat, tableIn: seq<Option<T>>)
    returns (table: seq<Option<T>>)
    requires g.IsAbelian() && (size == 4 || size == 8) && Seeded(g, x, y, size, tableIn)
    ensures Keeps(g, x, y, size, tableIn, table)
    ensures forall r :: 0 <= r < size && r % 2 == 1 ==> Filled(g, x, y, size, table, r, 0)
  {
    hide Combine, Filled;
    table := tableIn;
    var i := 3 * size;
    ghost var row := 3;
    while i < size * size
      invariant row % 2 == 1 && 3 <= row <= size + 1 && i == Index(row, 0, size)
      invariant Keeps(g, x, y, size, tableIn, table)
      invariant forall r :: 0 <= r < row && r < size && r % 2 == 1 ==> Filled(g, x, y, size, table, r, 0)
    {
      assert row < size;
      IndexNextRow(row - 2, 0, size);
      IndexNextRow(row - 1, 0, size);
      IndexNextRow(row, 0, size);
      IndexNextRow(row + 1, 0, size);
      table := Fill(g, x, y, size, table, i, row, 0, i - 2 * size, row - 2, 0, 2 * size, 2, 0);
      i, row := i + 2 * size, row + 2;
    }
  }

  method FillOddRows<T(!new)>(g: Group<T>, x: T, ghost y: T, size: nat, tableIn: seq<Option<T>>)
    returns (table: seq<Option<T>>)
    requires g.IsAbelian() && (size == 4 || size == 8) && Seeded(g, x, y, size, tableIn)
    requires forall r, c :: 0 <= r < size && 0 <= c < size && c % 2 == 1 ==> Filled(g, x, y, size, tableIn, r, c)
    requires forall r :: 0 <= r < size && r % 2 == 1 ==> Filled(g, x, y, size, tableIn, r, 0)
    ensures Keeps(g, x, y, size, tableIn, table)
    ensures TableReady(g, x, y, size, table)
  {
    hide Combine, Filled;
    table := tableIn;
    var i := size;
    ghost var row := 1;
    while i < size * size
      invariant row % 2 == 1 && 1 <= row <= size + 1 && i == Index(row, 0, size)
      invariant Keeps(g, x, y, size, tableIn, table)
      invariant forall r, c :: 0 <= r < row && r < size && 0 <= c < size && r % 2 == 1 ==> Filled(g, x, y, size, table, r, c)
    {
      assert row < size;
      table := FillRow(g, x, y, size, table, i, row);
      IndexNextRow(row, 0, size);
      IndexNextRow(row + 1, 0, size);
      i, row := i + 2 * size, row + 2;
    }
  }

  method FillRow<T(!new)>(g: Group<T>, x: T, ghost y: T, size: nat, tableIn: seq<Option<T>>, i: nat, ghost row: nat)
    returns (table: seq<Option<T>>)
    requires g.IsAbelian() && (size == 4 || size == 8) && Seeded(g, x, y, size, tableIn)
    requires row < size && i == Index(row, 0, size)
    requires forall c :: 0 <= c < size && c % 2 == 1 ==> Filled(g, x, y, size, tableIn, row, c)
    requires Filled(g, x, y, size, tableIn, row, 0)
    ensures Keeps(g, x, y, size, tableIn, table)
    ensures forall c :: 0 <= c < size ==> Filled(g, x, y, size, table, row, c)
  {
    hide Combine, Filled;
    table := tableIn;
    var j := i + 2;
    while j < i + size
      invariant (j - i) % 2 == 0 && j >= i + 2 && Keeps(g, x, y, size, tableIn, table)
      invariant forall c :: 0 <= c < size && (c % 2 == 1 || c < j - i) ==> Filled(g, x, y, size, table, row, c)
    {
      assert (j - i - 1) % 2 == 1;
      table := Fill(g, x, y, size, table, j, row, j - i, j - 1, row, j - i - 1, 1, 0, 1);
      j := j + 2;
    }
  }

  // ---- The main loop ----------------------------------------------------------

  function Max(a: nat, b: nat): nat { if a < b then b else a }

  function WindowBits(expLen: nat): nat {
    if expLen <= 46 then 1 else if expLen <= 260 then 2 else 3
  }

  /** Double k times. */
  method DoubleTimes<T(!new)>(g: Group<T>, ghost x: T, ghost y: T, r: T, k: nat, ghost n: nat, ghost m: nat) returns (r': T)
    requires g.IsAbelian() && r == Combine(g, x, y, n, m)
    ensures r' == Combine(g, x, y, Shl(n, k), Shl(m, k))
  {
    r' := r;
    for i := 0 to k
      invariant r' == Combine(g, x, y, Shl(n, i), Shl(m, i))
    {
      CombineAdd(g, x, y, Shl(n, i), Shl(m, i), Shl(n, i), Shl(m, i));
      r' := g.add(r', r');
    }
  }

  /** Move common factors of two out of both digits; squaresBefore cannot run out. */
  method StripZeros(power1: nat, power2: nat, squaresBefore: nat, ghost bound: nat)
    returns (p1: nat, p2: nat, before: nat, after: nat)
    requires bound == squaresBefore || bound == squaresBefore + 1
    requires power1 < Pow2(bound) && power2 < Pow2(bound)
    ensures power1 == Shl(p1, after) && power2 == Shl(p2, after)
    ensures before + after == squaresBefore
    ensures power1 != 0 || power2 != 0 ==> p1 % 2 == 1 || p2 % 2 == 1
    ensures power1 == 0 && power2 == 0 ==> after == 0
    ensures p1 <= power1 && p2 <= power2
  {
    p1, p2, before, after := power1, power2, squaresBefore, 0;
    ShlNone(power1);
    ShlNone(power2);
    hide Pow2, Shl;
    while (p1 != 0 || p2 != 0) && p1 % 2 == 0 && p2 % 2 == 0
      invariant power1 == Shl(p1, after) && power2 == Shl(p2, after)
      invariant before + after == squaresBefore
      invariant p1 < Pow2(before + bound - squaresBefore) && p2 < Pow2(before + bound - squaresBefore)
      invariant power1 == 0 && power2 == 0 ==> after == 0 && p1 == 0 && p2 == 0
      invariant power1 != 0 || power2 != 0 ==> p1 != 0 || p2 != 0
      invariant p1 <= power1 && p2 <= power2
      decreases p1 + p2
    {
      BothHalve(p1, p2, before + bound - squaresBefore);
      ShlHalf(p1, after);
      ShlHalf(p2, after);
      p1, p2 := p1 / 2, p2 / 2;
      before, after := before - 1, after + 1;
    }
  }

  lemma ShlNone(p: nat)
    ensures Shl(p, 0) == p
  {}

  lemma ShlHalf(p: nat, k: nat)
    requires p % 2 == 0
    ensures Shl(p / 2, k + 1) == Shl(p, k)
  {
    ShlDouble(p / 2, k);
  }

  /** Two even numbers below a power of two, not both zero. */
  lemma BothHalve(p1: nat, p2: nat, k: nat)
    requires p1 < Pow2(k) && p2 < Pow2(k) && p1 % 2 == 0 && p2 % 2 == 0 && (p1 != 0 || p2 != 0)
    ensures k >= 2 && p1 / 2 < Pow2(k - 1) && p2 / 2 < Pow2(k - 1)
  {
    Pow2Values();
  }

  lemma {:induction false} ShrHalf(e: nat, k: nat)
    ensures Shr(e, k + 1) == Shr(e / 2, k)
  {
    if k > 0 { ShrHalf(e, k - 1); }
  }

  lemma {:induction false} BelowTop(e: nat, k: nat)
    requires k < BitCount(e)
    ensures Shr(e, k) >= 1
  {
    if k > 0 {
      BelowTop(e / 2, k - 1);
      ShrHalf(e, k - 1);
    }
  }

  lemma {:induction false} ShrBound(e: nat, n: nat, k: nat)
    requires BitCount(e) <= k && n <= k
    ensures Shr(e, n) < Pow2(k - n)
  {
    if n == 0 {
      BitCountBound(e, BitCount(e));
      Pow2Monotone(BitCount(e), k);
    } else {
      ShrBound(e, n - 1, k);
    }
  }

  /** One exponent while its bits from n up have been read, those from prev up being in the result already. */
  ghost predicate DigitState(e: nat, expLen: nat, firstTime: bool, prev: nat, n: nat, power: nat) {
    && BitCount(e) <= expLen && n <= expLen
    && (firstTime ==> prev == expLen - 1 && power == Shr(e, n) && power < Pow2(expLen - n))
    && (!firstTime ==> n <= prev && Shr(e, n) == Shl(Shr(e, prev), prev - n) + power && power < Pow2(prev - n))
  }

  lemma ReadBit(e: nat, expLen: nat, firstTime: bool, prev: nat, n: nat, power: nat)
    requires n > 0 && DigitState(e, expLen, firstTime, prev, n, power)
    ensures DigitState(e, expLen, firstTime, prev, n - 1, 2 * power + Shr(e, n - 1) % 2)
  {
    if firstTime { ShrBound(e, n - 1, expLen); }
  }

  lemma DigitStart(e: nat, expLen: nat)
    requires BitCount(e) <= expLen && expLen > 0
    ensures DigitState(e, expLen, true, expLen - 1, expLen, 0)
  {
    ShrBound(e, expLen, expLen);
  }

  lemma WindowClosed(e: nat, expLen: nat, i: nat)
    requires BitCount(e) <= expLen && i <= expLen
    ensures DigitState(e, expLen, false, i, i, 0)
  {
  }

  method ReadEntry<T(!new)>(g: Group<T>, ghost x: T, ghost y: T, size: nat, table: seq<Option<T>>, p1: nat, p2: nat)
    returns (entry: T)
    requires TableReady(g, x, y, size, table)
    requires p1 < size && p2 < size && (p1 % 2 == 1 || p2 % 2 == 1)
    ensures entry == Combine(g, x, y, p1, p2)
  {
    assert Filled(g, x, y, size, table, p2, p1);
    entry := table[Index(p2, p1, size)].value;
  }

  /** The first window: its table entry is the result so far. */
  method FirstWindow<T(!new)>(g: Group<T>, ghost x: T, ghost y: T, size: nat, table: seq<Option<T>>,
                              squaresBefore: nat, power1: nat, power2: nat)
    returns (result: T)
    requires g.IsAbelian() && TableReady(g, x, y, size, table)
    requires power1 < size && power2 < size && (power1 != 0 || power2 != 0)
    requires power1 < Pow2(squaresBefore + 1) && power2 < Pow2(squaresBefore + 1)
    ensures result == Combine(g, x, y, power1, power2)
  {
    hide Combine;
    var p1, p2, before, after := StripZeros(power1, power2, squaresBefore, squaresBefore + 1);
    result := ReadEntry(g, x, y, size, table, p1, p2);
    result := DoubleTimes(g, x, y, result, after, p1, p2);
  }

  /** A later window: double past it, adding its table entry on the way. */
  method LaterWindow<T(!new)>(g: Group<T>, ghost x: T, ghost y: T, size: nat, table: seq<Option<T>>,
                              squaresBefore: nat, power1: nat, power2: nat, resultIn: T, ghost a1: nat, ghost a2: nat)
    returns (result: T)
    requires g.IsAbelian() && TableReady(g, x, y, size, table)
    requires power1 < size && power2 < size
    requires power1 < Pow2(squaresBefore) && power2 < Pow2(squaresBefore)
    requires resultIn == Combine(g, x, y, a1, a2)
    ensures result == Combine(g, x, y, Shl(a1, squaresBefore) + power1, Shl(a2, squaresBefore) + power2)
  {
    hide Combine;
    var p1, p2, before, after := StripZeros(power1, power2, squaresBefore, squaresBefore);
    Regroup(a1, before, after, p1);
    Regroup(a2, before, after, p2);
    result := DoubleTimes(g, x, y, resultIn, before, a1, a2);
    if p1 != 0 || p2 != 0 {
      var entry := ReadEntry(g, x, y, size, table, p1, p2);
      CombineAdd(g, x, y, Shl(a1, before), Shl(a2, before), p1, p2);
      result := g.add(result, entry);
    }
    result := DoubleTimes(g, x, y, result, after, Shl(a1, before) + p1, Shl(a2, before) + p2);
  }

  /** Close a window at bit i: the result catches up with all bits read so far. */
  method EndWindow<T(!new)>(g: Group<T>, ghost x: T, ghost y: T, size: nat, table: seq<Option<T>>,
                            ghost e1: nat, ghost e2: nat, ghost expLen: nat,
                            firstTime: bool, prev: nat, i: nat, power1: nat, power2: nat, resultIn: T)
    returns (result: T)
    requires g.IsAbelian() && TableReady(g, x, y, size, table)
    requires power1 < size && power2 < size && i <= prev && i < expLen
    requires expLen == Max(BitCount(e1), BitCount(e2))
    requires DigitState(e1, expLen, firstTime, prev, i, power1) && DigitState(e2, expLen, firstTime, prev, i, power2)
    requires !firstTime ==> resultIn == Combine(g, x, y, Shr(e1, prev), Shr(e2, prev))
    ensures result == Combine(g, x, y, Shr(e1, i), Shr(e2, i))
  {
    hide Combine, TableReady;
    if firstTime {
      if i < BitCount(e1) { BelowTop(e1, i); } else { BelowTop(e2, i); }
      result := FirstWindow(g, x, y, size, table, prev - i, power1, power2);
    } else {
      result := LaterWindow(g, x, y, size, table, prev - i, power1, power2, resultIn, Shr(e1, prev), Shr(e2, prev));
    }
  }

  lemma Regroup(a: nat, before: nat, after: nat, p: nat)
    ensures Shl(Shl(a, before) + p, after) == Shl(a, before + after) + Shl(p, after)
  {
    ShlAdd(Shl(a, before), p, after);
    ShlShl(a, before, after);
  }

  /** 1 << w. */
  function TableSize(expLen: nat): (size: nat)
    ensures size == 2 || size == 4 || size == 8
  {
    Pow2Values();
    Pow2(WindowBits(expLen))
  }

  lemma ZeroExponents<T(!new)>(g: Group<T>, x: T, y: T, e1: nat, e2: nat)
    requires g.IsAbelian() && BitCount(e1) == 0 && BitCount(e2) == 0
    ensures g.identity == g.add(g.Times(e1, x), g.Times(e2, y))
  {
    CombineUnits(g, x, y);
  }

  /** e1 * x + e2 * y. */
  method CascadeScalarMultiply<T(!new)>(g: Group<T>, x: T, e1: nat, y: T, e2: nat) returns (result: T)
    requires g.IsAbelian()
    ensures result == g.add(g.Times(e1, x), g.Times(e2, y))
  {
    var expLen := Max(BitCount(e1), BitCount(e2));
    if expLen == 0 {
      ZeroExponents(g, x, y, e1, e2);
      return g.identity;
    }
    var size := TableSize(expLen);
    var table := BuildTable(g, x, y, size);
    result := CascadeLoop(g, x, e1, y, e2, expLen, size, table);
  }

  method CascadeLoop<T(!new)>(g: Group<T>, ghost x: T, e1: nat, ghost y: T, e2: nat,
                              expLen: nat, size: nat, table: seq<Option<T>>)
    returns (result: T)
    requires g.IsAbelian() && TableReady(g, x, y, size, table)
    requires expLen == Max(BitCount(e1), BitCount(e2)) && expLen > 0
    requires size % 2 == 0 && size > 0
    ensures result == Combine(g, x, y, e1, e2)
  {
    hide Combine, TableReady, InLoop, BitCount;
    result := g.identity;
    var power1: nat, power2: nat, prevPosition: nat := 0, 0, expLen - 1;
    var firstTime := true;
    LoopStart(g, x, e1, y, e2, expLen, size, result);
    var i := expLen - 1;
    while i >= 0
      invariant -1 <= i < expLen
      invariant InLoop(g, x, e1, y, e2, expLen, size, i, firstTime, prevPosition, power1, power2, result)
    {
      power1, power2, prevPosition, firstTime, result :=
        ReadPosition(g, x, e1, y, e2, expLen, size, table, i, firstTime, prevPosition, power1, power2, result);
      i := i - 1;
    }
    LoopEnd(g, x, e1, y, e2, expLen, size, firstTime, prevPosition, power1, power2, result);
  }

  /** The state before bit i is read: the windows closed so far make up the exponents above prevPosition. */
  ghost predicate InLoop<T(!new)>(g: Group<T>, x: T, e1: nat, y: T, e2: nat, expLen: nat, size: nat, i: int,
                                  firstTime: bool, prevPosition: nat, power1: nat, power2: nat, result: T)
    requires -1 <= i < expLen
  {
    && 2 * power1 < size && 2 * power2 < size && i < prevPosition + 1
    && DigitState(e1, expLen, firstTime, prevPosition, i + 1, power1)
    && DigitState(e2, expLen, firstTime, prevPosition, i + 1, power2)
    && (!firstTime ==> result == Combine(g, x, y, Shr(e1, prevPosition), Shr(e2, prevPosition)))
    && (i == -1 ==> !firstTime && prevPosition == 0)
  }

  lemma LoopStart<T(!new)>(g: Group<T>, x: T, e1: nat, y: T, e2: nat, expLen: nat, size: nat, result: T)
    requires expLen == Max(BitCount(e1), BitCount(e2)) && expLen > 0 && size > 0
    ensures InLoop(g, x, e1, y, e2, expLen, size, expLen - 1, true, expLen - 1, 0, 0, result)
  {
    DigitStart(e1, expLen);
    DigitStart(e2, expLen);
    hide DigitState, BitCount, Combine;
  }

  lemma LoopEnd<T(!new)>(g: Group<T>, x: T, e1: nat, y: T, e2: nat, expLen: nat, size: nat,
                         firstTime: bool, prevPosition: nat, power1: nat, power2: nat, result: T)
    requires expLen > 0 && InLoop(g, x, e1, y, e2, expLen, size, -1, firstTime, prevPosition, power1, power2, result)
    ensures result == Combine(g, x, y, e1, e2)
  {
    assert Shr(e1, 0) == e1 && Shr(e2, 0) == e2;
    hide Combine, DigitState, Shr;
  }

  /** One turn of the loop: bit i joins the window, which may end here. */
  method ReadPosition<T(!new)>(g: Group<T>, ghost x: T, e1: nat, ghost y: T, e2: nat, expLen: nat, size: nat, table: seq<Option<T>>,
                               i: nat, firstTime0: bool, prevPosition0: nat, power10: nat, power20: nat, result0: T)
    returns (power1: nat, power2: nat, prevPosition: nat, firstTime: bool, result: T)
    requires g.IsAbelian() && TableReady(g, x, y, size, table)
    requires expLen == Max(BitCount(e1), BitCount(e2)) && i < expLen && size % 2 == 0 && size > 0
    requires InLoop(g, x, e1, y, e2, expLen, size, i, firstTime0, prevPosition0, power10, power20, result0)
    ensures InLoop(g, x, e1, y, e2, expLen, size, i - 1, firstTime, prevPosition, power1, power2, result)
  {
    hide Combine, TableReady, DigitState, BitCount;
    ReadBit(e1, expLen, firstTime0, prevPosition0, i + 1, power10);
    ReadBit(e2, expLen, firstTime0, prevPosition0, i + 1, power20);
    hide Shr;
    prevPosition, firstTime, result := prevPosition0, firstTime0, result0;
    power1 := 2 * power10 + Shr(e1, i) % 2;
    power2 := 2 * power20 + Shr(e2, i) % 2;
    if i == 0 || 2 * power1 >= size || 2 * power2 >= size {
      result := EndWindow(g, x, y, size, table, e1, e2, expLen, firstTime, prevPosition, i, power1, power2, result);
      WindowClosed(e1, expLen, i);
      WindowClosed(e2, expLen, i);
      prevPosition, firstTime := i, false;
      power1, power2 := 0, 0;
    }
  }
}
