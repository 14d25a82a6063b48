/**
 DL_FixedBasePrecomputationImpl of eprecomp.cpp: a table of base * 2^(w i), and
 exponentiation by splitting the exponent into (signed) w-bit digits.
 */
module FixedBase {
  import opened Arithmetic
  import opened AbelianGroups
  import opened ExponentHeaps
  import opened GeneralCascade
  import opened WindowSliders

  /** DL_GroupPrecomputation: a group and the conversion to and from its representation. */
  datatype GroupPrecomputation<!T(!new)> =
    GroupPrecomputation(group: Group<T>, needConversions: bool, convertIn: T -> T, convertOut: T -> T)

  /** One digit of the exponent taken as it is: e * b = q * (2^w b) + r * b. */
  lemma PositiveDigit<T(!new)>(g: Group<T>, e: nat, m: nat, q: nat, r: nat, b: T)
    requires g.IsAbelian() && e == q * m + r
    ensures g.Times(e, b) == g.add(g.Times(r, b), g.Times(q, g.Times(m, b)))
  {
    g.MultipleMul(q, m, b);
    g.MultipleAdd(r, q * m, b);
  }

  /** One digit taken negative: e * b = (q + 1) * (2^w b) + (2^w - r) * (-b). */
  lemma NegativeDigit<T(!new)>(g: Group<T>, e: nat, m: nat, q: nat, r: nat, b: T)
    requires g.IsAbelian() && e == q * m + r && r <= m
    ensures g.Times(e, b) == g.add(g.Times(m - r, g.inverse(b)), g.Times(q + 1, g.Times(m, b)))
  {
    g.MultipleOfInverse(m - r, b);
    g.MultipleMul(q + 1, m, b);
    assert (q + 1) * m == q * m + m;
    g.MultipleAdd(r - m, (q + 1) * m, b);
  }

  lemma SumAppend<T(!new)>(g: Group<T>, eb: seq<Term<T>>, t: Term<T>)
    ensures Sum(g, eb + [t]) == g.add(Sum(g, eb), Value(g, t))
  {
    assert (eb + [t])[..|eb|] == eb;
  }

  class FixedBasePrecomputation<T(0,==,!new)> {
    var base: T
    var windowSize: nat
    var exponentBase: nat
    var bases: seq<T>

    /** Each precomputed base is the one before it times exponentBase. */
    ghost predicate Valid(g: Group<T>)
      reads this
    {
      && (|bases| > 1 ==> exponentBase == Pow2(windowSize))
      && forall i :: 1 <= i < |bases| ==> bases[i] == g.Times(exponentBase, bases[i - 1])
    }

    constructor ()
      ensures bases == [] && windowSize == 0
    {
      windowSize := 0;
      exponentBase := 0;
      bases := [];
    }

    method SetBase(group: GroupPrecomputation<T>, newBase: T)
      requires Valid(group.group)
      modifies this
      ensures Valid(group.group)
      ensures |bases| >= 1
      ensures bases[0] == if group.needConversions then group.convertIn(newBase) else newBase
      ensures base == newBase
      ensures old(bases) != [] && old(bases)[0] == bases[0] ==> bases == old(bases)
      ensures windowSize == old(windowSize) && exponentBase == old(exponentBase)
    {
      base := if group.needConversions then group.convertIn(newBase) else newBase;
      if bases == [] || base != bases[0] {
        bases := [base];
      }
      if group.needConversions {
        base := newBase;
      }
    }

    method Precompute(group: GroupPrecomputation<T>, maxExpBits: nat, storage: nat)
      requires group.group.IsAbelian() && |bases| > 0
      modifies this
      ensures Valid(group.group)
      ensures |bases| == storage && (storage > 0 ==> bases[0] == old(bases)[0])
      ensures storage > 1 ==> windowSize * storage >= maxExpBits
    {
      if storage > 1 {
        windowSize := (maxExpBits + storage - 1) / storage;
        exponentBase := Pow2(windowSize);
        DivMod(maxExpBits + storage - 1, storage);
      }
      var first := bases[0];
      if storage == 0 {
        bases := [];
        return;
      }
      bases := [first];
      for i := 1 to storage
        invariant |bases| == i && bases[0] == first
        invariant storage > 1 ==> exponentBase == Pow2(windowSize) && windowSize * storage >= maxExpBits
        invariant forall k :: 1 <= k < i ==> bases[k] == group.group.Times(exponentBase, bases[k - 1])
      {
        var next := SimultaneousMultiplication.ScalarMultiply(group.group, bases[i - 1], exponentBase);
        bases := bases + [next];
      }
    }

    /** Append the digits of the exponent: their weighted sum is exponent * bases[0], and no digit is negative. */
    method PrepareCascade(group: GroupPrecomputation<T>, ebIn: seq<Term<T>>, exponent: nat) returns (eb: seq<Term<T>>)
      requires group.group.IsAbelian() && Valid(group.group) && |bases| >= 1
      ensures Sum(group.group, eb) == group.group.add(Sum(group.group, ebIn), group.group.Times(exponent, bases[0]))
      ensures |eb| == |ebIn| + |bases| && ebIn <= eb
      ensures forall k :: |ebIn| <= k < |eb| - 1 ==> eb[k].exponent < Pow2(windowSize)
      ensures group.group.inversionIsFast && windowSize > 1 ==>
                forall k :: |ebIn| <= k < |eb| - 1 ==> eb[k].exponent <= Pow2(windowSize - 1)
    {
      hide Sum;
      var g := group.group;
      eb := ebIn;
      var e: nat := exponent;
      var fastNegate := g.inversionIsFast && windowSize > 1;
      var i := 0;
      while i + 1 < |bases|
        invariant 0 <= i < |bases| && |eb| == |ebIn| + i && ebIn <= eb
        invariant g.add(Sum(g, eb), g.Times(e, bases[i])) == g.add(Sum(g, ebIn), g.Times(exponent, bases[0]))
        invariant forall k :: |ebIn| <= k < |eb| ==> eb[k].exponent < Pow2(windowSize)
        invariant fastNegate ==> forall k :: |ebIn| <= k < |eb| ==> eb[k].exponent <= Pow2(windowSize - 1)
      {
        var t, e' := NextDigit(g, e, windowSize, exponentBase, bases[i], fastNegate);
        g.Assoc(Sum(g, eb), Value(g, t), g.Times(e', bases[i + 1]));
        SumAppend(g, eb, t);
        e := e';
        eb := eb + [t];
        i := i + 1;
      }
      SumAppend(g, eb, Term(bases[i], e));
      eb := eb + [Term(bases[i], e)];
    }

    /** exponent * base, in the representation of the caller. */
    method Exponentiate(group: GroupPrecomputation<T>, exponent: nat) returns (r: T)
      requires group.group.IsAbelian() && Valid(group.group) && |bases| >= 1
      ensures r == group.convertOut(group.group.Times(exponent, bases[0]))
    {
      var eb := PrepareCascade(group, [], exponent);
      group.group.Unit(group.group.Times(exponent, bases[0]));
      r := Cascade(group, eb);
    }

    /** exponent * base + exponent2 * base2, with the table of each base. */
    method CascadeExponentiate(group: GroupPrecomputation<T>, exponent: nat,
                               pc2: FixedBasePrecomputation<T>, exponent2: nat)
      returns (r: T)
      requires group.group.IsAbelian()
      requires Valid(group.group) && |bases| >= 1
      requires pc2.Valid(group.group) && |pc2.bases| >= 1
      ensures r == group.convertOut(group.group.add(group.group.Times(exponent, bases[0]),
                                                    group.group.Times(exponent2, pc2.bases[0])))
    {
      var eb := PrepareCascade(group, [], exponent);
      group.group.Unit(group.group.Times(exponent, bases[0]));
      eb := pc2.PrepareCascade(group, eb, exponent2);
      r := Cascade(group, eb);
    }
  }

  /** Integer::DivideByPowerOf2. */
  method DivideByPowerOf2(e: nat, w: nat) returns (r: nat, q: nat)
    ensures e == q * Pow2(w) + r && r < Pow2(w)
  {
    hide Pow2;
    var d := Pow2(w);
    r, q := e % d, e / d;
    DivMod(e, d);
  }

  /** Split the lowest digit off the exponent, borrowing from the rest when the digit is taken negative. */
  method NextDigit<T(!new)>(g: Group<T>, e: nat, windowSize: nat, exponentBase: nat, b: T, fastNegate: bool)
    returns (t: Term<T>, e': nat)
    requires g.IsAbelian() && exponentBase == Pow2(windowSize) && (fastNegate ==> windowSize > 1)
    ensures g.Times(e, b) == g.add(Value(g, t), g.Times(e', g.Times(exponentBase, b)))
    ensures t.exponent < Pow2(windowSize)
    ensures fastNegate ==> t.exponent <= Pow2(windowSize - 1)
  {
    var r, q := DivideByPowerOf2(e, windowSize);
    TopDigitBit(r, windowSize);
    if fastNegate && GetBit(r, windowSize - 1) {
      NegativeDigit(g, e, exponentBase, q, r, b);
      t, e' := Term(g.inverse(b), exponentBase - r), q + 1;
    } else {
      PositiveDigit(g, e, exponentBase, q, r, b);
      t, e' := Term(b, r), q;
    }
  }

  lemma TopDigitBit(r: nat, w: nat)
    requires r < Pow2(w)
    ensures w >= 1 ==> (GetBit(r, w - 1) <==> r >= Pow2(w - 1))
  {
    if w >= 1 {
      ShrSplits(r, w - 1);
      ShrIsDivision(r, w - 1);
      if r >= Pow2(w - 1) {
        DivModUnique(r, Pow2(w - 1), 1, r - Pow2(w - 1));
      } else {
        DivModUnique(r, Pow2(w - 1), 0, r);
      }
    }
  }

  method Cascade<T(!new)>(group: GroupPrecomputation<T>, eb: seq<Term<T>>) returns (r: T)
    requires group.group.IsAbelian() && |eb| >= 1
    ensures r == group.convertOut(Sum(group.group, eb))
  {
    var a := new Term<T>[|eb|](i requires 0 <= i < |eb| => eb[i]);
    assert a[..] == eb;
    var sum := GeneralCascadeMultiplication(group.group, a);
    r := group.convertOut(sum);
  }
}
