/** Numbers of a fixed width written one after the other as bits, most significant first. */
module BitStrings {
  import opened Arithmetic
  import opened Sequences

  /** The low n bits of v. */
  function ToBits(v: nat, n: nat): (r: seq<bool>)
    ensures |r| == n
  {
    if n == 0 then [] else ToBits(v / 2, n - 1) + [v % 2 == 1]
  }

  function FromBits(s: seq<bool>): nat {
    if s == [] then 0 else 2 * FromBits(s[..|s| - 1]) + (if s[|s| - 1] then 1 else 0)
  }

  /** All the digits, w bits each. */
  function Spell(digits: seq<nat>, w: nat): seq<bool> {
    if digits == [] then [] else Spell(digits[..|digits| - 1], w) + ToBits(digits[|digits| - 1], w)
  }

  function Falses(n: nat): (r: seq<bool>)
    ensures |r| == n
  {
    seq(n, _ => false)
  }

  ghost predicate Below(digits: seq<nat>, bound: nat) {
    forall i :: 0 <= i < |digits| ==> digits[i] < bound
  }

  lemma {:induction false} FromTo(v: nat, n: nat)
    requires v < Pow2(n)
    ensures FromBits(ToBits(v, n)) == v
  {
    if n > 0 { FromTo(v / 2, n - 1); }
  }

  lemma {:induction false} ToFrom(s: seq<bool>)
    ensures FromBits(s) < Pow2(|s|) && ToBits(FromBits(s), |s|) == s
  {
    if s != [] { ToFrom(s[..|s| - 1]); }
  }

  lemma {:induction false} ToBitsConcat(hi: nat, lo: nat, m: nat, n: nat)
    requires lo < Pow2(n)
    ensures ToBits(hi * Pow2(n) + lo, m + n) == ToBits(hi, m) + ToBits(lo, n)
  {
    if n > 0 {
      ToBitsConcat(hi, lo / 2, m, n - 1);
      HalfOf(hi, lo, Pow2(n - 1));
    }
  }

  lemma HalfOf(hi: nat, lo: nat, p: nat)
    ensures var v := hi * (2 * p) + lo; v / 2 == hi * p + lo / 2 && v % 2 == lo % 2
  {
    assert hi * (2 * p) == 2 * (hi * p);
  }

  lemma {:induction false} ToBitsZero(n: nat)
    ensures ToBits(0, n) == Falses(n)
  {
    if n > 0 { ToBitsZero(n - 1); }
  }

  lemma {:induction false} SpellAppend(a: seq<nat>, b: seq<nat>, w: nat)
    ensures Spell(a + b, w) == Spell(a, w) + Spell(b, w)
  {
    hide *;
    if b == [] {
      SpellNone(w);
      assert a + b == a;
      assert Spell(a, w) + [] == Spell(a, w);
    } else {
      var n := |b| - 1;
      SpellLast(b, w);
      SpellLast(a + b, w);
      SpellAppend(a, b[..n], w);
      assert (a + b)[..|a| + n] == a + b[..n];
      AppendAssociative(Spell(a, w), Spell(b[..n], w), ToBits(b[n], w));
    }
  }

  lemma SpellLast(ds: seq<nat>, w: nat)
    requires ds != []
    ensures Spell(ds, w) == Spell(ds[..|ds| - 1], w) + ToBits(ds[|ds| - 1], w)
  {}

  lemma SpellOne(d: nat, w: nat)
    ensures Spell([d], w) == ToBits(d, w)
  {
    assert [d][..0] == [];
  }

  // ---- Regrouping bits into digits -----------------------------------------------------------

  /** The digits of width w, the last filled up with zeros. */
  function Padded(s: seq<bool>, w: nat): seq<nat>
    requires w >= 1
    decreases |s|
  {
    if s == [] then [] else if |s| < w then [FromBits(s + Falses(w - |s|))]
    else [FromBits(s[..w])] + Padded(s[w..], w)
  }

  /** The digits of width w, an incomplete one left out. */
  function Whole(s: seq<bool>, w: nat): seq<nat>
    requires w >= 1
    decreases |s|
  {
    if |s| < w then [] else [FromBits(s[..w])] + Whole(s[w..], w)
  }

  lemma PaddedStep(first: seq<bool>, rest: seq<bool>, w: nat)
    requires w >= 1 && |first| == w
    ensures Padded(first + rest, w) == [FromBits(first)] + Padded(rest, w)
  {
    assert (first + rest)[..w] == first && (first + rest)[w..] == rest;
  }

  lemma WholeStep(first: seq<bool>, rest: seq<bool>, w: nat)
    requires w >= 1 && |first| == w
    ensures Whole(first + rest, w) == [FromBits(first)] + Whole(rest, w)
  {
    assert (first + rest)[..w] == first && (first + rest)[w..] == rest;
  }

  lemma SpellStep(first: seq<bool>, ds: seq<nat>)
    ensures Spell([FromBits(first)] + ds, |first|) == first + Spell(ds, |first|)
    ensures FromBits(first) < Pow2(|first|)
  {
    hide Spell, FromBits;
    var d := FromBits(first);
    ToFrom(first);
    SpellOne(d, |first|);
    SpellAppend([d], ds, |first|);
  }

  lemma BelowCons(d: nat, ds: seq<nat>, bound: nat)
    requires d < bound && Below(ds, bound)
    ensures Below([d] + ds, bound)
  {}

  lemma {:induction false} PaddedSpells(s: seq<bool>, w: nat) returns (p: nat)
    requires w >= 1
    ensures Below(Padded(s, w), Pow2(w))
    ensures p < w && Spell(Padded(s, w), w) == s + Falses(p)
    decreases |s|
  {
    hide *;
    if s == [] {
      p := 0;
      PaddedNone(w);
    } else if |s| < w {
      p := w - |s|;
      LastDigit(s, w);
    } else {
      p := PaddedSpells(s[w..], w);
      assert s == s[..w] + s[w..];
      PaddedStep(s[..w], s[w..], w);
      SpellStep(s[..w], Padded(s[w..], w));
      BelowCons(FromBits(s[..w]), Padded(s[w..], w), Pow2(w));
      assert s[..w] + (s[w..] + Falses(p)) == s + Falses(p);
    }
  }

  lemma PaddedNone(w: nat)
    requires w >= 1
    ensures Below(Padded([], w), Pow2(w)) && Spell(Padded([], w), w) == [] + Falses(0)
  {}

  lemma LastDigit(s: seq<bool>, w: nat)
    requires 0 < |s| < w
    ensures Below(Padded(s, w), Pow2(w)) && Spell(Padded(s, w), w) == s + Falses(w - |s|)
  {
    hide *;
    var t := s + Falses(w - |s|);
    PaddedShort(s, w);
    ToFrom(t);
    SpellOne(FromBits(t), w);
    BelowOne(FromBits(t), Pow2(w));
  }

  lemma BelowOne(d: nat, bound: nat)
    requires d < bound
    ensures Below([d], bound)
  {}

  /** An incomplete digit of n bits, filled up. */
  function FilledUp(partial: nat, n: nat, w: nat): seq<nat>
    requires n <= w
  {
    if n == 0 then [] else [partial * Pow2(w - n)]
  }

  /** Digits followed by an incomplete one regroup to themselves, with that one filled up. */
  lemma {:induction false} PaddedOf(ds: seq<nat>, partial: nat, n: nat, w: nat)
    requires w >= 1 && n < w && Below(ds, Pow2(w)) && partial < Pow2(n)
    ensures Padded(Spell(ds, w) + ToBits(partial, n), w) == ds + FilledUp(partial, n, w)
  {
    hide *;
    if ds == [] {
      PaddedPartial(partial, n, w);
      SpellNone(w);
      assert [] + ToBits(partial, n) == ToBits(partial, n);
      assert [] + FilledUp(partial, n, w) == FilledUp(partial, n, w);
    } else {
      BelowParts(ds, Pow2(w));
      var first, rest := ToBits(ds[0], w), Spell(ds[1..], w) + ToBits(partial, n);
      PaddedOf(ds[1..], partial, n, w);
      FromTo(ds[0], w);
      PaddedStep(first, rest, w);
      SpellFirst(ds, w);
      AppendAssociative(first, Spell(ds[1..], w), ToBits(partial, n));
      AppendAssociative([ds[0]], ds[1..], FilledUp(partial, n, w));
      assert ds == [ds[0]] + ds[1..];
    }
  }

  lemma BelowParts(ds: seq<nat>, bound: nat)
    requires ds != [] && Below(ds, bound)
    ensures ds[0] < bound && Below(ds[1..], bound)
  {}

  lemma SpellNone(w: nat)
    ensures Spell([], w) == []
  {}

  lemma PaddedPartial(partial: nat, n: nat, w: nat)
    requires n < w && partial < Pow2(n)
    ensures Padded(ToBits(partial, n), w) == FilledUp(partial, n, w)
  {
    if n > 0 {
      FilledValue(partial, n, w);
      PaddedShort(ToBits(partial, n), w);
      hide ToBits, FromBits, Padded, Pow2;
    }
  }

  lemma PaddedShort(s: seq<bool>, w: nat)
    requires 0 < |s| < w
    ensures Padded(s, w) == [FromBits(s + Falses(w - |s|))]
  {}

  lemma FilledValue(partial: nat, n: nat, w: nat)
    requires n < w && partial < Pow2(n)
    ensures FromBits(ToBits(partial, n) + Falses(w - n)) == partial * Pow2(w - n)
  {
    hide *;
    var v := partial * Pow2(w - n);
    ToBitsConcat(partial, 0, n, w - n);
    ToBitsZero(w - n);
    Fits(partial, n, w);
    FromTo(v, w);
    assert v + 0 == v && n + (w - n) == w;
  }

  lemma {:induction false} WholeOf(ds: seq<nat>, rest: seq<bool>, w: nat)
    requires w >= 1 && |rest| < w && Below(ds, Pow2(w))
    ensures Whole(Spell(ds, w) + rest, w) == ds
  {
    hide *;
    if ds == [] {
      WholeShort(rest, w);
      SpellNone(w);
      assert [] + rest == rest;
    } else {
      BelowParts(ds, Pow2(w));
      var first, more := ToBits(ds[0], w), Spell(ds[1..], w) + rest;
      WholeOf(ds[1..], rest, w);
      FromTo(ds[0], w);
      WholeStep(first, more, w);
      SpellFirst(ds, w);
      AppendAssociative(first, Spell(ds[1..], w), rest);
      assert ds == [ds[0]] + ds[1..];
    }
  }

  lemma WholeShort(s: seq<bool>, w: nat)
    requires |s| < w
    ensures Whole(s, w) == []
  {}

  lemma SpellFirst(ds: seq<nat>, w: nat)
    requires ds != []
    ensures Spell(ds, w) == ToBits(ds[0], w) + Spell(ds[1..], w)
  {
    SpellAppend([ds[0]], ds[1..], w);
    SpellOne(ds[0], w);
    assert ds == [ds[0]] + ds[1..];
  }

  lemma Fits(v: nat, n: nat, w: nat)
    requires v < Pow2(n) && n <= w
    ensures v * Pow2(w - n) < Pow2(w)
  {
    Pow2Add(n, w - n);
    MulMono(v + 1, Pow2(n), Pow2(w - n));
  }

  /** Regrouping digits of width w into digits of width k and back gives the digits, if k is no wider than w. */
  lemma RegroupRoundTrip(ds: seq<nat>, w: nat, k: nat)
    requires 1 <= k <= w && Below(ds, Pow2(w))
    ensures Whole(Spell(Padded(Spell(ds, w), k), k), w) == ds
  {
    var s := Spell(ds, w);
    var p := PaddedSpells(s, k);
    WholeOf(ds, Falses(p), w);
  }
}
