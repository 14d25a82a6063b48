/** ParallelInvert of ecp.cpp: many inverses for the price of one. */
module ParallelInversion {
  /** A field as AbstractRing presents it; the inverse of zero is zero. */
  datatype Field<!T(==, !new)> = Field(zero: T, one: T, multiply: (T, T) -> T, inverse: T -> T)
  {
    ghost predicate Valid() {
      && one != zero && inverse(zero) == zero
      && (forall x, y :: Commutes(x, y))
      && (forall x, y, z :: Associates(x, y, z))
      && (forall x :: HasInverse(x))
    }

    predicate Commutes(x: T, y: T) { multiply(x, y) == multiply(y, x) }

    predicate Associates(x: T, y: T, z: T) { multiply(multiply(x, y), z) == multiply(x, multiply(y, z)) }

    predicate HasInverse(x: T) {
      && multiply(one, x) == x && multiply(zero, x) == zero
      && (x != zero ==> multiply(x, inverse(x)) == one)
    }

    /** Only the inverse multiplies x to one. */
    lemma InverseUnique(x: T, u: T)
      requires Valid() && multiply(x, u) == one
      ensures u == inverse(x)
    {
      assert HasInverse(u) && HasInverse(x) && HasInverse(inverse(x));
      var v := inverse(x);
      // x is not zero, and u = (v x) u = v (x u) = v
      assert Associates(v, x, u) && Commutes(v, x) && Commutes(v, one);
    }

    /** The inverse of a product gives the inverses of its factors. */
    lemma InverseFromProduct(x: T, y: T)
      requires Valid() && multiply(x, y) != zero
      ensures multiply(y, inverse(multiply(x, y))) == inverse(x)
      ensures multiply(x, inverse(multiply(x, y))) == inverse(y)
    {
      var p := multiply(x, y);
      var v := inverse(p);
      assert HasInverse(p);
      assert Associates(x, y, v) && Associates(y, x, v) && Commutes(x, y);
      InverseUnique(x, multiply(y, v));
      InverseUnique(y, multiply(x, v));
    }

    lemma InverseNonzero(x: T)
      requires Valid()
      ensures inverse(x) == zero <==> x == zero
    {
      assert HasInverse(x) && HasInverse(inverse(x)) && Commutes(x, inverse(x));
    }
  }

  /** The products of neighbours, the last element alone if the number is odd. */
  method Products<T(0, ==, !new)>(ring: Field<T>, a: array<T>) returns (vec: array<T>)
    ensures fresh(vec) && vec.Length == (a.Length + 1) / 2
    ensures forall i :: 0 <= i < a.Length / 2 ==> vec[i] == ring.multiply(a[2 * i], a[2 * i + 1])
    ensures a.Length % 2 == 1 ==> vec[a.Length / 2] == a[a.Length - 1]
  {
    var n := a.Length;
    vec := new T[(n + 1) / 2];
    var i := 0;
    while i < n / 2
      invariant 0 <= i <= n / 2 && a[..] == old(a[..])
      invariant forall j :: 0 <= j < i ==> vec[j] == ring.multiply(a[2 * j], a[2 * j + 1])
    {
      vec[i] := ring.multiply(a[2 * i], a[2 * i + 1]);
      i := i + 1;
    }
    if n % 2 == 1 {
      vec[n / 2] := a[n - 1];
    }
  }

  /** From the inverse v of the product of the two elements at k. */
  method InvertPair<T(0, ==, !new)>(ring: Field<T>, a: array<T>, k: nat, v: T)
    requires ring.Valid() && k + 1 < a.Length && v == ring.inverse(ring.multiply(a[k], a[k + 1]))
    modifies a
    ensures a[..] == old(a[..])[k := ring.inverse(old(a[k]))][k + 1 := ring.inverse(old(a[k + 1]))]
  {
    ring.InverseNonzero(ring.multiply(a[k], a[k + 1]));
    if v == ring.zero {
      a[k] := ring.inverse(a[k]);
      a[k + 1] := ring.inverse(a[k + 1]);
    } else {
      ring.InverseFromProduct(a[k], a[k + 1]);
      a[k], a[k + 1] := a[k + 1], a[k];
      a[k] := ring.multiply(a[k], v);
      a[k + 1] := ring.multiply(a[k + 1], v);
    }
  }

  /** Every element is replaced by its inverse, zeros staying zero. */
  method ParallelInvert<T(0, ==, !new)>(ring: Field<T>, a: array<T>)
    requires ring.Valid()
    modifies a
    ensures forall i :: 0 <= i < a.Length ==> a[i] == ring.inverse(old(a[i]))
    decreases a.Length
  {
    var n := a.Length;
    if n == 1 {
      a[0] := ring.inverse(a[0]);
    } else if n > 1 {
      ghost var s := a[..];
      var vec := Products(ring, a);
      ParallelInvert(ring, vec);
      var i := 0;
      while i < n / 2
        invariant 0 <= i <= n / 2
        invariant forall j :: 0 <= j < n / 2 ==> vec[j] == ring.inverse(ring.multiply(s[2 * j], s[2 * j + 1]))
        invariant n % 2 == 1 ==> vec[n / 2] == ring.inverse(s[n - 1])
        invariant forall j :: 0 <= j < 2 * i ==> a[j] == ring.inverse(s[j])
        invariant forall j :: 2 * i <= j < n ==> a[j] == s[j]
      {
        InvertPair(ring, a, 2 * i, vec[i]);
        i := i + 1;
      }
      if n % 2 == 1 {
        a[n - 1] := vec[n / 2];
      }
    }
  }
}
