/**
 The signed sliding window of algebra.cpp: successive calls of FindNextWindow
 split an exponent into odd digits of at most windowSize bits, taken with a sign
 when negation is cheap.
 */
module WindowSliders {
  import opened Arithmetic

  const WORD_BITS: nat := 32

  function WordCount(e: nat): nat {
    (BitCount(e) + WORD_BITS - 1) / WORD_BITS
  }

  function GetBit(e: nat, k: nat): bool {
    Shr(e, k) % 2 == 1
  }

  /** The window size chosen for an exponent of the given length. */
  function DefaultWindowSize(expLen: nat): (w: nat)
    ensures 1 <= w <= 7
  {
    if expLen <= 17 then 1
    else if expLen <= 24 then 2
    else if expLen <= 70 then 3
    else if expLen <= 197 then 4
    else if expLen <= 539 then 5
    else if expLen <= 1434 then 6
    else 7
  }

  /** No bit is set from the end of the last word on. */
  lemma NoBitBeyond(e: nat, k: nat)
    requires k >= WordCount(e) * WORD_BITS
    ensures Shr(e, k) == 0
  {
    BitCountBound(e, BitCount(e));
    assert WordCount(e) * WORD_BITS >= BitCount(e);
    Pow2Monotone(BitCount(e), k);
    DivModUnique(e, Pow2(k), 0, e);
    ShrIsDivision(e, k);
  }

  /** Count the clear bits of exp from position start on, up to the end of its last word. */
  method SkipZeros(exp: nat, start: nat) returns (found: bool, skipCount: nat)
    ensures skipCount >= start
    ensures Shr(exp, start) == Shl(Shr(exp, skipCount), skipCount - start)
    ensures found ==> GetBit(exp, skipCount)
    ensures !found ==> Shr(exp, start) == 0
  {
    var expLen := WordCount(exp) * WORD_BITS;
    skipCount := start;
    while !GetBit(exp, skipCount)
      invariant skipCount >= start
      invariant Shr(exp, start) == Shl(Shr(exp, skipCount), skipCount - start)
      decreases expLen - skipCount
    {
      if skipCount >= expLen {
        NoBitBeyond(exp, skipCount);
        ShlIsMultiplication(0, skipCount - start);
        return false, skipCount;
      }
      ShlDouble(Shr(exp, skipCount + 1), skipCount - start);
      skipCount := skipCount + 1;
    }
    return true, skipCount;
  }

  /** An odd window taken as it is: it and the bits above it make up the exponent. */
  lemma PositiveWindow(r: nat, w: nat)
    requires r % 2 == 1 && w >= 1
    ensures r % Pow2(w) < Pow2(w) && r % Pow2(w) % 2 == 1
    ensures r == r % Pow2(w) + Shl(Shr(r, w), w)
    ensures Shr(r, w) < r
  {
    ShrSplits(r, w);
    SplitOdd(Shl(Shr(r, w), w - 1), r % Pow2(w), r);
    ShlGrows(Shr(r, w), w - 1);
  }

  lemma SplitOdd(h: nat, low: nat, r: nat)
    requires r == 2 * h + low && r % 2 == 1
    ensures low % 2 == 1 && h < r
  {
  }

  /** A window taken negative: the carry into the bits above pays for the sign. */
  lemma NegativeWindow(r: nat, w: nat)
    requires r % 2 == 1 && w >= 1 && GetBit(r, w)
    ensures var d := Pow2(w) - r % Pow2(w); 0 < d < Pow2(w) && d % 2 == 1
    ensures 2 <= Shr(r + Pow2(w), w) < r
    ensures r == Shl(Shr(r + Pow2(w), w), w) - (Pow2(w) - r % Pow2(w))
  {
    PositiveWindow(r, w);
    var q, low := Shr(r, w), r % Pow2(w);
    assert Shr(r + Pow2(w), w) == q + 1 by {
      ShrIsDivision(r + Pow2(w), w);
      ShrIsDivision(r, w);
      ModAddMultiple(r, 1, Pow2(w));
    }
    assert Shl(q + 1, w) == Shl(q, w) + Pow2(w) by {
      ShlAdd(q, 1, w);
      ShlOne(w);
    }
    ShlGrows(q, w - 1);
    CarryOdd(q, Shl(q, w - 1), Pow2(w - 1), low, r);
  }

  lemma CarryOdd(q: nat, h: nat, p: nat, low: nat, r: nat)
    requires r == 2 * h + low && low % 2 == 1 && low < 2 * p
    requires 1 <= q <= h
    ensures (2 * p - low) % 2 == 1 && 0 < 2 * p - low < 2 * p
    ensures q + 1 < r
  {
  }

  lemma WindowMoved(rest: nat, restBegin: nat, r: nat, k: nat)
    requires rest == Shl(r, k)
    ensures Shl(rest, restBegin) == Shl(r, restBegin + k)
    ensures r <= rest
  {
    ShlShl(r, k, restBegin);
    ShlGrows(r, k);
  }

  lemma FirstWindowBounded(e: nat, r: nat, begin: nat)
    requires r >= 1 && e == Shl(r, begin)
    ensures Shl(r, begin) < e + Pow2(begin) && Pow2(begin) < 2 * e
  {
    ShlOne(begin);
    ShlMono(1, r, begin);
  }

  /**
   The exponent pending after a signed digit exceeds the original exponent by less
   than one unit of the new position, so the position stays below the top of it.
   */
  lemma NextWindowBounded(e: nat, digit: int, rest: nat, w: nat, begin: nat, r': nat, begin': nat)
    requires w >= 1 && 0 < digit + Pow2(w) && (digit < 0 ==> rest >= 2)
    requires rest >= 1
    requires Shl(digit + Shl(rest, w), begin) < e + Pow2(begin)
    requires r' >= 1 && begin' >= begin + w
    requires Shl(rest, begin + w) == Shl(r', begin')
    ensures Shl(r', begin') < e + Pow2(begin') && Pow2(begin') < 2 * e
  {
    hide Shl, Pow2;
    var p := Pow2(begin + w);
    Pow2Step(begin);
    Pow2Monotone(begin + 1, begin + w);
    Pow2Monotone(begin + w, begin');
    DigitLower(digit, w, begin);
    ShlAdd(digit, Shl(rest, w), begin);
    ShlShl(rest, w, begin);
    assert Shl(rest, begin + w) < e + p;
    UnitBelow(digit, rest, begin, w, e);
    if begin' > begin + w {
      Pow2Step(begin + w);
      Pow2Monotone(begin + w + 1, begin');
      ShlOne(begin');
      ShlMono(1, r', begin');
    }
  }

  /** A digit is at least one unit above the negated window modulus. */
  lemma DigitLower(digit: int, w: nat, begin: nat)
    requires 0 < digit + Pow2(w)
    ensures Shl(digit, begin) >= Pow2(begin) - Pow2(begin + w)
  {
    hide Shl, Pow2;
    ShlMono(1 - Pow2(w), digit, begin);
    ShlAdd(1 - Pow2(w), Pow2(w), begin);
    ShlOne(begin);
    ShlOne(w);
    ShlShl(1, w, begin);
    ShlOne(begin + w);
  }

  lemma UnitBelow(digit: int, rest: nat, begin: nat, w: nat, e: nat)
    requires rest >= 1 && (digit < 0 ==> rest >= 2) && 2 * Pow2(begin) <= Pow2(begin + w)
    requires Shl(digit, begin) + Shl(rest, begin + w) < e + Pow2(begin) && Shl(rest, begin + w) < e + Pow2(begin + w)
    ensures Pow2(begin + w) < 2 * e
  {
    hide Shl, Pow2;
    ShlOne(begin + w);
    if digit < 0 {
      ShlMono(2, rest, begin + w);
      ShlDouble(1, begin + w);
    } else {
      ShlMono(1, rest, begin + w);
      ShlMono(0, digit, begin);
      ShlIsMultiplication(0, begin);
    }
  }

  class WindowSlider {
    var exp: nat
    var windowModulus: nat
    var windowSize: nat
    var windowBegin: nat
    var expWindow: nat
    const fastNegate: bool
    var negateNext: bool
    var firstTime: bool
    var finished: bool

    ghost predicate Valid()
      reads this
    {
      && 1 <= windowSize && windowModulus == Pow2(windowSize)
      && (firstTime ==> windowBegin == 0 && !finished)
      && (!firstTime && !finished ==> expWindow < windowModulus && expWindow % 2 == 1)
      && (!firstTime && !finished && negateNext ==> fastNegate && Rest() >= 2)
    }

    /** The signed digit of the current window. */
    function Digit(): int
      reads this
    {
      if negateNext then -(expWindow as int) else expWindow
    }

    /** What is left of the exponent above the current window, in units of 2^windowEnd. */
    function Rest(): nat
      reads this
    {
      if finished then 0 else if firstTime then exp else Shr(exp, windowSize)
    }

    /** The position the bits of Rest start at. */
    function RestBegin(): nat
      reads this
    {
      if firstTime then windowBegin else windowBegin + windowSize
    }

    /** The part of the exponent not yet handed out, including the current window. */
    function Pending(): int
      reads this
    {
      if finished then 0
      else if firstTime then exp
      else Shl(Digit() + Shl(Rest(), windowSize), windowBegin)
    }

    constructor (expIn: nat, fastNegate: bool, windowSizeIn: nat)
      ensures Valid() && firstTime && !finished
      ensures exp == expIn && this.fastNegate == fastNegate && windowBegin == 0
      ensures windowSizeIn != 0 ==> windowSize == windowSizeIn
      ensures windowSizeIn == 0 ==> windowSize == DefaultWindowSize(BitCount(expIn))
      ensures Pending() == expIn
    {
      exp := expIn;
      windowBegin := 0;
      expWindow := 0;
      this.fastNegate := fastNegate;
      negateNext := false;
      firstTime := true;
      finished := false;
      var w := if windowSizeIn == 0 then DefaultWindowSize(BitCount(expIn)) else windowSizeIn;
      windowSize := w;
      windowModulus := Pow2(w);
    }

    /** Where the windows of exponent e may lie: below the top of e, except for a final carry. */
    ghost predicate Bounded(e: nat)
      reads this
    {
      if firstTime then exp == e
      else !finished ==> Pending() < e + Pow2(windowBegin) && Pow2(windowBegin) < 2 * e
    }

    /** Close a window on the odd number exp: the second half of FindNextWindow. */
    method TakeWindow()
      requires 1 <= windowSize && windowModulus == Pow2(windowSize)
      requires exp % 2 == 1 && !firstTime && !finished
      modifies this`exp, this`expWindow, this`negateNext
      ensures Valid()
      ensures Digit() + Shl(Rest(), windowSize) == old(exp)
      ensures Rest() < old(exp)
    {
      expWindow := exp % Pow2(windowSize);
      if fastNegate && GetBit(exp, windowSize) {
        NegativeWindow(exp, windowSize);
        negateNext := true;
        expWindow := Pow2(windowSize) - expWindow;
        exp := exp + windowModulus;
      } else {
        PositiveWindow(exp, windowSize);
        negateNext := false;
      }
    }

    /** Move on to the next odd number and close a window on it. */
    method TakeWindowAt(ghost e: nat, skipCount: nat)
      requires 1 <= windowSize && windowModulus == Pow2(windowSize) && !firstTime && !finished
      requires var r, begin := Shr(exp, skipCount), windowBegin + skipCount;
               r % 2 == 1 && Shl(r, begin) < e + Pow2(begin) && Pow2(begin) < 2 * e
      modifies this`exp, this`expWindow, this`negateNext, this`windowBegin
      ensures Valid() && Bounded(e) && windowBegin == old(windowBegin) + skipCount
      ensures Pending() == Shl(Shr(old(exp), skipCount), windowBegin) && Rest() < Shr(old(exp), skipCount)
    {
      hide Shl, Shr, Pow2;
      exp := Shr(exp, skipCount);
      windowBegin := windowBegin + skipCount;
      TakeWindow();
    }

    method FindNextWindow(ghost e: nat)
      requires Valid() && !finished && Bounded(e)
      modifies this
      ensures Valid() && !firstTime && Bounded(e)
      ensures windowSize == old(windowSize)
      ensures finished <==> old(Rest()) == 0
      ensures !finished ==> windowBegin >= old(RestBegin())
      ensures Pending() == Shl(old(Rest()), old(RestBegin()))
      ensures !finished ==> Rest() < old(Rest())
    {
      ghost var rest, restBegin := Rest(), RestBegin();
      ghost var first, begin, digit := firstTime, windowBegin, Digit();
      var start := if firstTime then 0 else windowSize;
      firstTime := false;
      assert rest == Shr(exp, start);
      hide Shl, Shr, Pow2;

      var found, skipCount := SkipZeros(exp, start);
      if !found {
        finished := true;
        ShlIsMultiplication(0, restBegin);
        return;
      }
      ghost var r, newBegin := Shr(exp, skipCount), windowBegin + skipCount;
      WindowMoved(rest, restBegin, r, skipCount - start);
      if first {
        FirstWindowBounded(e, r, newBegin);
      } else {
        NextWindowBounded(e, digit, rest, windowSize, begin, r, newBegin);
      }
      TakeWindowAt(e, skipCount);
    }
  }
}
