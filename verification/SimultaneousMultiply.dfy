/**
 AbstractGroup::SimultaneousMultiply: several multiples of one base from a single
 chain of doublings, with one set of buckets per exponent for the odd digits.
 */
module SimultaneousMultiplication {
  import opened Arithmetic
  import opened AbelianGroups
  import opened WindowSliders

  // ---- The integers the buckets stand for ------------------------------------

  /** The sum of c[j], c[j+1], ... */
  ghost function SuffixSum(c: seq<int>, j: nat): int
    decreases |c| - j
  {
    if j >= |c| then 0 else c[j] + SuffixSum(c, j + 1)
  }

  /** The sum of the suffix sums from j on. */
  ghost function SuffixTotal(c: seq<int>, j: nat): int
    decreases |c| - j
  {
    if j >= |c| then 0 else SuffixSum(c, j) + SuffixTotal(c, j + 1)
  }

  /** The sum of (2k+1) * c[k] for k from j on: bucket k collects the digit 2k+1. */
  ghost function DigitSum(c: seq<int>, j: nat): int
    decreases |c| - j
  {
    if j >= |c| then 0 else (2 * j + 1) * c[j] + DigitSum(c, j + 1)
  }

  lemma {:induction false} DigitSumBySuffixes(c: seq<int>, j: nat)
    ensures DigitSum(c, j) == 2 * SuffixTotal(c, j + 1) + (2 * j + 1) * SuffixSum(c, j)
    decreases |c| - j
  {
    if j < |c| {
      DigitSumBySuffixes(c, j + 1);
      var s := SuffixSum(c, j + 1);
      assert (2 * (j + 1) + 1) * s == (2 * j + 1) * s + 2 * s;
      assert (2 * j + 1) * (c[j] + s) == (2 * j + 1) * c[j] + (2 * j + 1) * s;
    }
  }

  lemma {:induction false} DigitSumUpdate(c: seq<int>, k: nat, delta: int, j: nat)
    requires k < |c|
    ensures DigitSum(c[k := c[k] + delta], j) == DigitSum(c, j) + if j <= k then (2 * k + 1) * delta else 0
    decreases |c| - j
  {
    if j < |c| {
      DigitSumUpdate(c, k, delta, j + 1);
      if j == k {
        assert (2 * k + 1) * (c[k] + delta) == (2 * k + 1) * c[k] + (2 * k + 1) * delta;
      }
    }
  }

  lemma {:induction false} DigitSumZero(c: seq<int>, j: nat)
    requires forall k :: 0 <= k < |c| ==> c[k] == 0
    ensures DigitSum(c, j) == 0
    decreases |c| - j
  {
    if j < |c| { DigitSumZero(c, j + 1); }
  }

  ghost predicate BucketsHold<T(!new)>(g: Group<T>, base: T, bucket: seq<T>, c: seq<int>) {
    |bucket| == |c| && forall k :: 0 <= k < |c| ==> bucket[k] == g.Multiple(c[k], base)
  }

  lemma SuffixStep(c: seq<int>, j: nat)
    requires j < |c|
    ensures SuffixSum(c, j) == c[j] + SuffixSum(c, j + 1)
    ensures SuffixTotal(c, j) == SuffixTotal(c, j + 1) + SuffixSum(c, j)
  {}

  lemma SuffixAdds<T(!new)>(g: Group<T>, base: T, c: seq<int>, j: nat)
    requires g.IsAbelian() && j < |c|
    ensures g.add(g.Multiple(c[j], base), g.Multiple(SuffixSum(c, j + 1), base)) == g.Multiple(SuffixSum(c, j), base)
    ensures g.add(g.Multiple(SuffixTotal(c, j + 1), base), g.Multiple(SuffixSum(c, j), base)) == g.Multiple(SuffixTotal(c, j), base)
  {
    SuffixStep(c, j);
    hide SuffixSum, SuffixTotal;
    g.MultipleAdd(c[j], SuffixSum(c, j + 1), base);
    g.MultipleAdd(SuffixTotal(c, j + 1), SuffixSum(c, j), base);
  }

  lemma SuffixEnd(c: seq<int>)
    ensures SuffixSum(c, |c|) == 0 && SuffixTotal(c, |c|) == 0
  {}

  /** The final pass over one exponent's buckets. */
  method CombineBuckets<T(!new)>(g: Group<T>, ghost base: T, bucketsIn: seq<T>, ghost c: seq<int>) returns (r: T)
    requires g.IsAbelian() && |c| >= 1
    requires BucketsHold(g, base, bucketsIn, c)
    ensures r == g.Multiple(DigitSum(c, 0), base)
  {
    var bucket := bucketsIn;
    var n := |bucket|;
    r := bucket[n - 1];
    DigitSumBySuffixes(c, 0);
    SuffixStep(c, n - 1);
    SuffixEnd(c);
    hide SuffixSum, SuffixTotal, DigitSum;
    if n > 1 {
      var j := n - 2;
      while j >= 1
        invariant 0 <= j <= n - 2 && |bucket| == n
        invariant forall k :: 0 <= k <= j ==> bucket[k] == g.Multiple(c[k], base)
        invariant bucket[j + 1] == g.Multiple(SuffixSum(c, j + 1), base)
        invariant r == g.Multiple(SuffixTotal(c, j + 1), base)
      {
        SuffixAdds(g, base, c, j);
        bucket := bucket[j := g.add(bucket[j], bucket[j + 1])];
        r := g.add(r, bucket[j]);
        j := j - 1;
      }
      SuffixAdds(g, base, c, 0);
      bucket := bucket[0 := g.add(bucket[0], bucket[1])];
      var t := SuffixTotal(c, 1);
      g.MultipleAdd(t, t, base);
      g.MultipleAdd(2 * t, SuffixSum(c, 0), base);
      r := g.add(g.add(r, r), bucket[0]);
    }
  }

  // ---- One exponent at one bit position ---------------------------------------

  /** What is in the buckets and what the slider still holds make up the exponent. */
  ghost predicate Tracks(s: WindowSlider, e: nat, c: seq<int>, position: nat)
    reads s
  {
    && s.Valid() && !s.firstTime && s.Bounded(e)
    && |c| == Pow2(s.windowSize - 1)
    && DigitSum(c, 0) + s.Pending() == e
    && (!s.finished ==> s.windowBegin >= position)
  }

  lemma WindowInRange(s: WindowSlider)
    requires s.Valid() && !s.firstTime && !s.finished
    ensures s.expWindow / 2 < Pow2(s.windowSize - 1)
    ensures 2 * (s.expWindow / 2) + 1 == s.expWindow
  {
  }

  ghost predicate IsPower<T(!new)>(g: Group<T>, base: T, position: nat, power: T) {
    power == g.Multiple(Pow2(position), base)
  }

  lemma DoublingStarts<T(!new)>(g: Group<T>, base: T)
    requires g.IsAbelian()
    ensures IsPower(g, base, 0, base)
  {
    g.MultipleOne(base);
  }

  lemma DoublePower<T(!new)>(g: Group<T>, base: T, position: nat, power: T)
    requires g.IsAbelian() && IsPower(g, base, position, power)
    ensures IsPower(g, base, position + 1, g.add(power, power))
  {
    g.MultipleAdd(Pow2(position), Pow2(position), base);
  }

  /** The digit of a window, at its position, is what is added to its bucket; the rest stays pending. */
  lemma DigitAtPosition(s: WindowSlider, delta: int, position: nat)
    requires s.Valid() && !s.firstTime && !s.finished && position == s.windowBegin
    requires delta == if s.negateNext then -(Pow2(position) as int) else Pow2(position)
    ensures s.Pending() == (2 * (s.expWindow / 2) + 1) * delta + Shl(s.Rest(), s.RestBegin())
  {
    var digit, rest := s.Digit(), s.Rest();
    hide Shl, Shr, Pow2;
    ShlIsMultiplication(digit, position);
    DigitTimesPower(s.expWindow, Pow2(position));
    ShlAdd(digit, Shl(rest, s.windowSize), position);
    ShlShl(rest, s.windowSize, position);
  }

  /** If the slider's window starts at this position, add +-2^position * base to its bucket. */
  method AbsorbWindow<T(!new)>(g: Group<T>, ghost base: T, s: WindowSlider, ghost e: nat,
                               bucketsIn: seq<T>, ghost c: seq<int>, position: nat, power: T)
    returns (bucket: seq<T>, ghost c': seq<int>)
    requires g.IsAbelian()
    requires Tracks(s, e, c, position) && BucketsHold(g, base, bucketsIn, c)
    requires IsPower(g, base, position, power)
    modifies s
    ensures Tracks(s, e, c', position + 1) && BucketsHold(g, base, bucket, c')
  {
    bucket, c' := bucketsIn, c;
    if !s.finished && position == s.windowBegin {
      WindowInRange(s);
      var k := s.expWindow / 2;
      ghost var delta: int := if s.negateNext then -(Pow2(position) as int) else Pow2(position);
      g.MultipleNegate(Pow2(position), base);
      g.MultipleAdd(c[k], delta, base);
      DigitSumUpdate(c, k, delta, 0);
      hide Shl, Shr, Pow2, DigitSum;
      DigitAtPosition(s, delta, position);
      bucket := bucket[k := g.add(bucket[k], if s.negateNext then g.inverse(power) else power)];
      c' := c[k := c[k] + delta];
      s.FindNextWindow(e);
    }
  }

  lemma DigitTimesPower(w: nat, p: nat)
    ensures w * -(p as int) == -(w as int) * p
  {
  }

  // ---- All exponents ----------------------------------------------------------

  ghost function MaxBitCount(exponents: seq<nat>): (m: nat)
    ensures forall i :: 0 <= i < |exponents| ==> BitCount(exponents[i]) <= m
  {
    if exponents == [] then 0
    else
      var m := MaxBitCount(exponents[..|exponents| - 1]);
      var last := BitCount(exponents[|exponents| - 1]);
      if m < last then last else m
  }

  lemma PastTheTop(e: nat, n: nat, begin: nat)
    requires e < Pow2(n) && begin > n
    ensures Pow2(begin) >= 2 * e
  {
    Pow2Monotone(n + 1, begin);
  }

  /** A window that is still to come starts no higher than the top of the exponent. */
  lemma WindowBelowTop(s: WindowSlider, e: nat)
    requires !s.firstTime && !s.finished && s.Bounded(e)
    ensures s.windowBegin <= BitCount(e)
  {
    var n := BitCount(e);
    BitCountBound(e, n);
    if s.windowBegin > n {
      PastTheTop(e, n, s.windowBegin);
    }
  }

  ghost predicate Distinct(sliders: seq<WindowSlider>) {
    forall i, j :: 0 <= i < j < |sliders| ==> sliders[i] != sliders[j]
  }

  /** The state of all exponents while position is being processed and the first done are finished with it. */
  ghost predicate AllTrack<T(!new)>(g: Group<T>, base: T, exponents: seq<nat>, sliders: seq<WindowSlider>,
                                    buckets: seq<seq<T>>, c: seq<seq<int>>, position: nat, done: nat)
    reads sliders
  {
    && |sliders| == |buckets| == |c| == |exponents|
    && (forall i :: 0 <= i < |sliders| ==>
          Tracks(sliders[i], exponents[i], c[i], if i < done then position + 1 else position))
    && (forall i :: 0 <= i < |sliders| ==> BucketsHold(g, base, buckets[i], c[i]))
  }

  method PrepareExponents<T(!new)>(g: Group<T>, ghost base: T, exponents: seq<nat>)
    returns (sliders: seq<WindowSlider>, buckets: seq<seq<T>>, ghost c: seq<seq<int>>)
    requires g.IsAbelian()
    ensures AllTrack(g, base, exponents, sliders, buckets, c, 0, 0)
    ensures Distinct(sliders) && forall i :: 0 <= i < |sliders| ==> fresh(sliders[i])
  {
    hide Tracks, BucketsHold;
    sliders, buckets, c := [], [], [];
    for i := 0 to |exponents|
      invariant AllTrack(g, base, exponents[..i], sliders, buckets, c, 0, 0)
      invariant Distinct(sliders) && forall k :: 0 <= k < |sliders| ==> fresh(sliders[k])
    {
      var s, bucket, zeros := PrepareExponent(g, base, exponents[i]);
      assert s !in sliders;
      sliders, buckets, c := sliders + [s], buckets + [bucket], c + [zeros];
    }
    assert exponents[..|exponents|] == exponents;
  }

  method PrepareExponent<T(!new)>(g: Group<T>, ghost base: T, e: nat)
    returns (s: WindowSlider, bucket: seq<T>, ghost zeros: seq<int>)
    requires g.IsAbelian()
    ensures fresh(s) && Tracks(s, e, zeros, 0) && BucketsHold(g, base, bucket, zeros)
  {
    s := new WindowSlider(e, g.inversionIsFast, 0);
    s.FindNextWindow(e);
    bucket := seq(Pow2(s.windowSize - 1), _ => g.identity);
    zeros := seq(Pow2(s.windowSize - 1), _ => 0);
    DigitSumZero(zeros, 0);
    g.MultipleOne(base);
  }

  /** One pass of the main loop over all exponents, at one bit position. */
  method Sweep<T(!new)>(g: Group<T>, ghost base: T, exponents: seq<nat>, sliders: seq<WindowSlider>,
                        bucketsIn: seq<seq<T>>, ghost cIn: seq<seq<int>>, position: nat, power: T)
    returns (notDone: bool, buckets: seq<seq<T>>, ghost c: seq<seq<int>>)
    requires g.IsAbelian() && Distinct(sliders)
    requires AllTrack(g, base, exponents, sliders, bucketsIn, cIn, position, 0)
    requires IsPower(g, base, position, power)
    modifies sliders
    ensures AllTrack(g, base, exponents, sliders, buckets, c, position, |exponents|)
    ensures !notDone ==> forall k :: 0 <= k < |sliders| ==> sliders[k].finished
    ensures notDone ==> position < MaxBitCount(exponents)
  {
    notDone, buckets, c := false, bucketsIn, cIn;
    for i := 0 to |exponents|
      invariant |c| == |exponents|
      invariant AllTrack(g, base, exponents, sliders, buckets, c, position, i)
      invariant !notDone ==> forall k :: 0 <= k < i ==> sliders[k].finished
      invariant notDone ==> position < MaxBitCount(exponents)
    {
      var bucket;
      ghost var ci;
      bucket, ci := AbsorbWindow(g, base, sliders[i], exponents[i], buckets[i], c[i], position, power);
      buckets, c := buckets[i := bucket], c[i := ci];
      if !sliders[i].finished { WindowBelowTop(sliders[i], exponents[i]); }
      notDone := notDone || !sliders[i].finished;
    }
  }

  lemma PositionDone<T(!new)>(g: Group<T>, base: T, exponents: seq<nat>, sliders: seq<WindowSlider>,
                              buckets: seq<seq<T>>, c: seq<seq<int>>, position: nat)
    requires AllTrack(g, base, exponents, sliders, buckets, c, position, |exponents|)
    ensures AllTrack(g, base, exponents, sliders, buckets, c, position, 0)
    ensures AllTrack(g, base, exponents, sliders, buckets, c, position + 1, 0)
  {
  }

  lemma AllCollected<T(!new)>(g: Group<T>, base: T, exponents: seq<nat>, sliders: seq<WindowSlider>,
                              buckets: seq<seq<T>>, c: seq<seq<int>>, position: nat)
    requires AllTrack(g, base, exponents, sliders, buckets, c, position, 0)
    requires forall i :: 0 <= i < |sliders| ==> sliders[i].finished
    ensures |buckets| == |c| == |exponents|
    ensures forall i :: 0 <= i < |c| ==> |c[i]| >= 1 && BucketsHold(g, base, buckets[i], c[i])
    ensures forall i :: 0 <= i < |c| ==> DigitSum(c[i], 0) == exponents[i]
  {
    forall i | 0 <= i < |c| ensures DigitSum(c[i], 0) == exponents[i] && |c[i]| >= 1 {
      assert Tracks(sliders[i], exponents[i], c[i], position);
    }
  }

  method CombineAll<T(!new)>(g: Group<T>, ghost base: T, exponents: seq<nat>,
                             buckets: seq<seq<T>>, ghost c: seq<seq<int>>)
    returns (results: seq<T>)
    requires g.IsAbelian() && |buckets| == |c| == |exponents|
    requires forall i :: 0 <= i < |c| ==> |c[i]| >= 1 && BucketsHold(g, base, buckets[i], c[i])
    requires forall i :: 0 <= i < |c| ==> DigitSum(c[i], 0) == exponents[i]
    ensures |results| == |exponents|
    ensures forall i :: 0 <= i < |exponents| ==> results[i] == g.Times(exponents[i], base)
  {
    results := [];
    for i := 0 to |exponents|
      invariant |results| == i
      invariant forall k :: 0 <= k < i ==> results[k] == g.Times(exponents[k], base)
    {
      var r := CombineBuckets(g, base, buckets[i], c[i]);
      results := results + [r];
    }
  }

  /** The main loop: double the base and serve the windows that start at each bit position. */
  method ServeWindows<T(!new)>(g: Group<T>, base: T, exponents: seq<nat>, sliders: seq<WindowSlider>,
                               bucketsIn: seq<seq<T>>, ghost cIn: seq<seq<int>>)
    returns (buckets: seq<seq<T>>, ghost c: seq<seq<int>>)
    requires g.IsAbelian() && Distinct(sliders)
    requires AllTrack(g, base, exponents, sliders, bucketsIn, cIn, 0, 0)
    modifies sliders
    ensures |buckets| == |c| == |exponents|
    ensures forall i :: 0 <= i < |c| ==> |c[i]| >= 1 && BucketsHold(g, base, buckets[i], c[i])
    ensures forall i :: 0 <= i < |c| ==> DigitSum(c[i], 0) == exponents[i]
  {
    buckets, c := bucketsIn, cIn;
    var position := 0;
    var power := base;
    DoublingStarts(g, base);
    var notDone := true;
    ghost var top := MaxBitCount(exponents);
    hide Tracks, BucketsHold, AllTrack, DigitSum, Distinct, IsPower;
    while notDone
      invariant AllTrack(g, base, exponents, sliders, buckets, c, position, 0)
      invariant IsPower(g, base, position, power)
      invariant notDone ==> position <= top
      invariant !notDone ==> forall i :: 0 <= i < |sliders| ==> sliders[i].finished
      decreases notDone, (top as int) - position
    {
      notDone, buckets, c := Sweep(g, base, exponents, sliders, buckets, c, position, power);
      PositionDone(g, base, exponents, sliders, buckets, c, position);
      if notDone {
        DoublePower(g, base, position, power);
        power := g.add(power, power);
        position := position + 1;
      }
    }
    AllCollected(g, base, exponents, sliders, buckets, c, position);
  }

  /** results[i] is exponents[i] * base, for any abelian group, with and without fast negation. */
  method SimultaneousMultiply<T(!new)>(g: Group<T>, base: T, exponents: seq<nat>) returns (results: seq<T>)
    requires g.IsAbelian()
    ensures |results| == |exponents|
    ensures forall i :: 0 <= i < |exponents| ==> results[i] == g.Times(exponents[i], base)
  {
    hide AllTrack, BucketsHold, DigitSum, Distinct;
    var sliders, buckets;
    ghost var c;
    sliders, buckets, c := PrepareExponents(g, base, exponents);
    buckets, c := ServeWindows(g, base, exponents, sliders, buckets, c);
    results := CombineAll(g, base, exponents, buckets, c);
  }

  /** AbstractGroup::ScalarMultiply is the case of one exponent. */
  method ScalarMultiply<T(!new)>(g: Group<T>, base: T, exponent: nat) returns (r: T)
    requires g.IsAbelian()
    ensures r == g.Times(exponent, base)
  {
    var results := SimultaneousMultiply(g, base, [exponent]);
    r := results[0];
  }
}
