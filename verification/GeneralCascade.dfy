/**
 GeneralCascadeMultiplication: the sum of exponent * base over a range of terms,
 by a Euclidean reduction of the two largest exponents that a heap keeps at hand.
 */
module GeneralCascade {
  import opened Arithmetic
  import opened AbelianGroups
  import opened ExponentHeaps
  import SimultaneousMultiplication
  import CascadeMultiplication

  // ---- The sum the algorithm computes -------------------------------------------

  function Value<T(!new)>(g: Group<T>, t: Term<T>): T {
    g.Times(t.exponent, t.base)
  }

  function Sum<T(!new)>(g: Group<T>, s: seq<Term<T>>): T {
    if s == [] then g.identity else g.add(Sum(g, s[..|s| - 1]), Value(g, s[|s| - 1]))
  }

  function Total<T>(s: seq<Term<T>>): nat {
    if s == [] then 0 else Total(s[..|s| - 1]) + s[|s| - 1].exponent
  }

  lemma {:induction false} SumInsert<T(!new)>(g: Group<T>, u: seq<Term<T>>, t: Term<T>, v: seq<Term<T>>)
    requires g.IsAbelian()
    ensures Sum(g, u + [t] + v) == g.add(Sum(g, u + v), Value(g, t))
    decreases |v|
  {
    if v == [] {
      assert u + [t] + v == u + [t] && u + v == u;
      assert (u + [t])[..|u|] == u;
    } else {
      var w, last := v[..|v| - 1], v[|v| - 1];
      SumInsert(g, u, t, w);
      assert (u + [t] + v)[..|u| + |v|] == u + [t] + w;
      assert (u + v)[..|u| + |v| - 1] == u + w;
      var a, b, c := Sum(g, u + w), Value(g, t), Value(g, last);
      g.Assoc(a, b, c);
      g.Comm(b, c);
      g.Assoc(a, c, b);
    }
  }

  lemma {:induction false} TotalInsert<T>(u: seq<Term<T>>, t: Term<T>, v: seq<Term<T>>)
    ensures Total(u + [t] + v) == Total(u + v) + t.exponent
    decreases |v|
  {
    if v == [] {
      assert u + [t] + v == u + [t] && u + v == u;
      assert (u + [t])[..|u|] == u;
    } else {
      var w := v[..|v| - 1];
      TotalInsert(u, t, w);
      assert (u + [t] + v)[..|u| + |v|] == u + [t] + w;
      assert (u + v)[..|u| + |v| - 1] == u + w;
    }
  }

  /** Take the last element of s out of both sequences. */
  lemma RemoveLast<T>(s: seq<T>, t: seq<T>) returns (i: nat)
    requires s != [] && multiset(s) == multiset(t)
    ensures i < |t| && t[i] == s[|s| - 1]
    ensures t == t[..i] + [t[i]] + t[i + 1..]
    ensures multiset(s[..|s| - 1]) == multiset(t[..i] + t[i + 1..])
  {
    var n := |s| - 1;
    var x := s[n];
    assert s == s[..n] + [x];
    assert x in multiset(t);
    i :| 0 <= i < |t| && t[i] == x;
    SplitMultiset(t, i);
    assert multiset(s) == multiset(s[..n]) + multiset{x};
    SameWithout(multiset(s[..n]), multiset(t[..i] + t[i + 1..]), x);
  }

  lemma SplitMultiset<T>(t: seq<T>, i: nat)
    requires i < |t|
    ensures t == t[..i] + [t[i]] + t[i + 1..] && multiset(t) == multiset(t[..i] + t[i + 1..]) + multiset{t[i]}
  {
    assert t == t[..i] + [t[i]] + t[i + 1..];
  }

  lemma SameWithout<T>(a: multiset<T>, b: multiset<T>, x: T)
    requires a + multiset{x} == b + multiset{x}
    ensures a == b
  {
    assert a == (a + multiset{x}) - multiset{x} && b == (b + multiset{x}) - multiset{x};
  }

  /** Rearranging the terms changes neither the sum nor the total of the exponents. */
  lemma {:induction false} SumRearranged<T(!new)>(g: Group<T>, s: seq<Term<T>>, t: seq<Term<T>>)
    requires g.IsAbelian() && multiset(s) == multiset(t)
    ensures Sum(g, s) == Sum(g, t) && Total(s) == Total(t)
    decreases |s|
  {
    assert |s| == |multiset(s)| == |t|;
    if s != [] {
      var i := RemoveLast(s, t);
      var u, v := t[..i], t[i + 1..];
      SumRearranged(g, s[..|s| - 1], u + v);
      SumInsert(g, u, t[i], v);
      TotalInsert(u, t[i], v);
    }
  }

  // ---- One Euclidean step -----------------------------------------------------

  /** e_l * b_l + e_0 * b_0 with e_l = q e_0 + r is r * b_l + e_0 * (b_0 + q * b_l). */
  lemma EuclidValue<T(!new)>(g: Group<T>, first: Term<T>, last: Term<T>)
    requires g.IsAbelian() && first.exponent > 0
    ensures var q, r := last.exponent / first.exponent, last.exponent % first.exponent;
            g.add(Value(g, first), Value(g, last))
            == g.add(Value(g, Term(g.add(first.base, g.Times(q, last.base)), first.exponent)), Value(g, Term(last.base, r)))
  {
    var e, q, r := first.exponent, last.exponent / first.exponent, last.exponent % first.exponent;
    DivMod(last.exponent, e);
    var qb := g.Times(q, last.base);
    calc {
      Value(g, last);
      { assert q * e == e * q; g.MultipleAdd(e * q, r, last.base); }
      g.add(g.Multiple(e * q, last.base), g.Times(r, last.base));
      { g.MultipleMul(e, q, last.base); }
      g.add(g.Times(e, qb), g.Times(r, last.base));
    }
    g.MultipleDistributes(e, first.base, qb);
    g.Assoc(g.Times(e, first.base), g.Times(e, qb), g.Times(r, last.base));
  }

  /** Replacing the first and last term, keeping the sum of the two, keeps the sum. */
  lemma SumEnds<T(!new)>(g: Group<T>, s: seq<Term<T>>, first: Term<T>, last: Term<T>)
    requires g.IsAbelian() && |s| >= 2
    requires g.add(Value(g, s[0]), Value(g, s[|s| - 1])) == g.add(Value(g, first), Value(g, last))
    ensures Sum(g, s[0 := first][|s| - 1 := last]) == Sum(g, s)
    ensures Total(s[0 := first][|s| - 1 := last]) + s[0].exponent + s[|s| - 1].exponent
            == Total(s) + first.exponent + last.exponent
  {
    var n := |s| - 1;
    var mid := s[1..n];
    var t := s[0 := first][n := last];
    EndsSplit(g, s);
    EndsSplit(g, t);
    assert t[1..n] == mid;
  }

  lemma EndsSplit<T(!new)>(g: Group<T>, s: seq<Term<T>>)
    requires g.IsAbelian() && |s| >= 2
    ensures var n := |s| - 1;
            && Sum(g, s) == g.add(Sum(g, s[1..n]), g.add(Value(g, s[0]), Value(g, s[n])))
            && Total(s) == Total(s[1..n]) + s[0].exponent + s[n].exponent
  {
    var n := |s| - 1;
    var mid := s[1..n];
    assert s[..n] == [] + [s[0]] + mid && [] + mid == mid;
    SumInsert(g, [], s[0], mid);
    TotalInsert([], s[0], mid);
    g.Assoc(Sum(g, mid), Value(g, s[0]), Value(g, s[n]));
  }

  lemma {:induction false} SumOfZeros<T(!new)>(g: Group<T>, s: seq<Term<T>>)
    requires g.IsAbelian() && forall i :: 0 <= i < |s| ==> s[i].exponent == 0
    ensures Sum(g, s) == g.identity
  {
    if s != [] {
      SumOfZeros(g, s[..|s| - 1]);
      g.Unit(g.identity);
    }
  }

  // ---- The algorithm ------------------------------------------------------------

  /** All but the last term form a heap, and the last has the largest exponent of all. */
  ghost predicate Popped<T>(s: seq<Term<T>>) {
    && |s| >= 2 && IsHeap(s, |s| - 1)
    && forall i :: 0 <= i < |s| ==> s[|s| - 1].exponent >= s[i].exponent
  }

  /** The loop body before the heap is restored: divide the largest exponent by the next largest. */
  method Reduce<T(!new)>(g: Group<T>, a: array<Term<T>>)
    requires g.IsAbelian() && Popped(a[..]) && a[0].exponent > 0
    modifies a
    ensures IsHeap(a[..], a.Length - 1)
    ensures Sum(g, a[..]) == old(Sum(g, a[..]))
    ensures Total(a[..]) < old(Total(a[..]))
  {
    hide Sum, Total;
    var last := a.Length - 1;
    ghost var s := a[..];
    var first, largest := a[0], a[last];
    var q := largest.exponent / first.exponent;
    var r := largest.exponent % first.exponent;
    EuclidValue(g, first, largest);
    g.MultipleOne(largest.base);
    var addend;
    if q == 1 {
      addend := largest.base;
    } else {
      addend := SimultaneousMultiplication.ScalarMultiply(g, largest.base, q);
    }
    ghost var first' := Term(g.add(first.base, addend), first.exponent);
    ghost var last' := Term(largest.base, r);
    SumEnds(g, s, first', last');
    a[last] := Term(largest.base, r);
    a[0] := Term(g.add(first.base, addend), first.exponent);
    assert a[..] == s[0 := first'][last := last'];
    forall i | 1 <= i < last ensures Ordered(a[..], i) { assert Ordered(s, i); }
  }

  method ReduceAll<T(!new)>(g: Group<T>, a: array<Term<T>>)
    requires g.IsAbelian() && a.Length >= 2
    modifies a
    ensures Sum(g, a[..]) == old(Sum(g, a[..]))
    ensures forall i :: 0 <= i < a.Length - 1 ==> a[i].exponent == 0
  {
    hide Sum, Total;
    MakeHeap(a);
    PopHeap(a);
    SumRearranged(g, a[..], old(a[..]));
    while a[0].exponent != 0
      invariant Popped(a[..])
      invariant Sum(g, a[..]) == old(Sum(g, a[..]))
      decreases Total(a[..])
    {
      Reduce(g, a);
      ghost var s := a[..];
      PushHeap(a);
      PopHeap(a);
      SumRearranged(g, a[..], s);
    }
    forall i | 0 <= i < a.Length - 1 ensures a[i].exponent == 0 {
      FrontIsLargest(a[..], a.Length - 1, i);
    }
  }

  /** The sum of exponent * base over all terms of the range, which is used up as work space. */
  method GeneralCascadeMultiplication<T(!new)>(g: Group<T>, a: array<Term<T>>) returns (r: T)
    requires g.IsAbelian() && a.Length >= 1
    modifies a
    ensures r == old(Sum(g, a[..]))
  {
    if a.Length == 1 {
      OneTerm(g, a[..]);
      r := SimultaneousMultiplication.ScalarMultiply(g, a[0].base, a[0].exponent);
    } else if a.Length == 2 {
      TwoTerms(g, a[..]);
      r := CascadeMultiplication.CascadeScalarMultiply(g, a[0].base, a[0].exponent, a[1].base, a[1].exponent);
    } else {
      ReduceAll(g, a);
      var last := a.Length - 1;
      ghost var s := a[..];
      assert Sum(g, s) == Value(g, s[last]) by {
        SumOfZeros(g, s[..last]);
        g.Unit(Value(g, s[last]));
      }
      r := SimultaneousMultiplication.ScalarMultiply(g, a[last].base, a[last].exponent);
    }
  }

  lemma OneTerm<T(!new)>(g: Group<T>, s: seq<Term<T>>)
    requires g.IsAbelian() && |s| == 1
    ensures Sum(g, s) == Value(g, s[0])
  {
    assert s[..0] == [];
    g.Unit(Value(g, s[0]));
  }

  lemma TwoTerms<T(!new)>(g: Group<T>, s: seq<Term<T>>)
    requires g.IsAbelian() && |s| == 2
    ensures Sum(g, s) == g.add(Value(g, s[0]), Value(g, s[1]))
  {
    OneTerm(g, s[..1]);
  }
}
