/**
 The abelian groups over which algebra.cpp is generic, and the definition every
 multiplication algorithm is measured against: repeated addition.
 */
module AbelianGroups {

  /** The operations of AbstractGroup, with InversionIsFast as a flag. */
  datatype Group<!T(!new)> = Group(identity: T, add: (T, T) -> T, inverse: T -> T, inversionIsFast: bool)
  {
    ghost predicate Associates(a: T, b: T, c: T) { add(add(a, b), c) == add(a, add(b, c)) }
    ghost predicate Commutes(a: T, b: T) { add(a, b) == add(b, a) }
    ghost predicate HasUnit(a: T) { add(a, identity) == a }
    ghost predicate HasInverse(a: T) { add(a, inverse(a)) == identity }

    ghost predicate IsAbelian() {
      && (forall a, b, c :: Associates(a, b, c))
      && (forall a, b :: Commutes(a, b))
      && (forall a :: HasUnit(a))
      && (forall a :: HasInverse(a))
    }

    /** n * a by repeated addition. */
    function Times(n: nat, a: T): T {
      if n == 0 then identity else add(Times(n - 1, a), a)
    }

    /** n * a for any integer n. */
    function Multiple(n: int, a: T): T {
      if n >= 0 then Times(n, a) else inverse(Times(-n, a))
    }

    // ---- Consequences of the axioms ------------------------------------------

    lemma Assoc(a: T, b: T, c: T)
      requires IsAbelian()
      ensures add(add(a, b), c) == add(a, add(b, c))
    {
      assert Associates(a, b, c);
    }

    lemma Comm(a: T, b: T)
      requires IsAbelian()
      ensures add(a, b) == add(b, a)
    {
      assert Commutes(a, b);
    }

    lemma Unit(a: T)
      requires IsAbelian()
      ensures add(a, identity) == a && add(identity, a) == a
    {
      assert HasUnit(a);
      Comm(a, identity);
    }

    lemma Cancels(a: T)
      requires IsAbelian()
      ensures add(a, inverse(a)) == identity && add(inverse(a), a) == identity
    {
      assert HasInverse(a);
      Comm(a, inverse(a));
    }

    lemma InverseUnique(a: T, b: T)
      requires IsAbelian()
      requires add(a, b) == identity
      ensures b == inverse(a)
    {
      calc {
        b;
        { Unit(b); }
        add(identity, b);
        { Cancels(a); }
        add(add(inverse(a), a), b);
        { Assoc(inverse(a), a, b); }
        add(inverse(a), identity);
        { Unit(inverse(a)); }
        inverse(a);
      }
    }

    lemma SwapInner(a: T, b: T, c: T, d: T)
      requires IsAbelian()
      ensures add(add(a, b), add(c, d)) == add(add(a, c), add(b, d))
    {
      Assoc(a, b, add(c, d));
      Assoc(b, c, d);
      Comm(b, c);
      Assoc(c, b, d);
      Assoc(a, c, add(b, d));
    }

    lemma MultipleSucc(n: int, a: T)
      requires IsAbelian()
      ensures Multiple(n + 1, a) == add(Multiple(n, a), a)
    {
      if n == -1 {
        Unit(a);
        assert Times(1, a) == add(Times(0, a), a);
        assert Multiple(-1, a) == inverse(a);
        Cancels(a);
      } else if n < -1 {
        var t := Times(-n - 1, a);
        assert Times(-n, a) == add(t, a);
        calc {
          add(t, add(inverse(add(t, a)), a));
          { Comm(inverse(add(t, a)), a); Assoc(t, a, inverse(add(t, a))); }
          add(add(t, a), inverse(add(t, a)));
          { Cancels(add(t, a)); }
          identity;
        }
        InverseUnique(t, add(inverse(add(t, a)), a));
      }
    }

    lemma {:induction false} MultipleAddNat(n: int, m: nat, a: T)
      requires IsAbelian()
      ensures Multiple(n + m, a) == add(Multiple(n, a), Multiple(m, a))
    {
      if m == 0 {
        Unit(Multiple(n, a));
      } else {
        MultipleAddNat(n, m - 1, a);
        MultipleSucc(n + m - 1, a);
        MultipleSucc(m - 1, a);
        Assoc(Multiple(n, a), Multiple(m - 1, a), a);
      }
    }

    lemma MultipleNegate(n: int, a: T)
      requires IsAbelian()
      ensures Multiple(-n, a) == inverse(Multiple(n, a))
    {
      if n >= 0 {
        MultipleAddNat(-n, n, a);
        Comm(Multiple(-n, a), Multiple(n, a));
        InverseUnique(Multiple(n, a), Multiple(-n, a));
      } else {
        MultipleAddNat(n, -n, a);
        InverseUnique(Multiple(n, a), Multiple(-n, a));
      }
    }

    /** Multiples of one base add like the integers. */
    lemma MultipleAdd(n: int, m: int, a: T)
      requires IsAbelian()
      ensures add(Multiple(n, a), Multiple(m, a)) == Multiple(n + m, a)
    {
      if m >= 0 {
        MultipleAddNat(n, m, a);
      } else {
        MultipleAddNat(n + m, -m, a);
        MultipleNegate(m, a);
        var s := Multiple(n + m, a);
        var k := Multiple(m, a);
        calc {
          add(Multiple(n, a), k);
          add(add(s, inverse(k)), k);
          { Assoc(s, inverse(k), k); Cancels(k); Unit(s); }
          s;
        }
      }
    }

    lemma MultipleOne(a: T)
      requires IsAbelian()
      ensures Multiple(1, a) == a && Multiple(0, a) == identity
    {
      Unit(a);
      assert Times(1, a) == add(Times(0, a), a);
    }

    lemma {:induction false} MultipleZero(n: nat)
      requires IsAbelian()
      ensures Multiple(n, identity) == identity
    {
      if n > 0 {
        MultipleZero(n - 1);
        Unit(identity);
      }
    }

    /** n * (m * a) = (n m) * a. */
    lemma {:induction false} MultipleMul(n: nat, m: int, a: T)
      requires IsAbelian()
      ensures Multiple(n, Multiple(m, a)) == Multiple(n * m, a)
    {
      if n > 0 {
        MultipleMul(n - 1, m, a);
        MultipleAdd((n - 1) * m, m, a);
        assert (n - 1) * m + m == n * m;
      }
    }

    /** n * (a + b) = n * a + n * b. */
    lemma {:induction false} MultipleDistributes(n: nat, a: T, b: T)
      requires IsAbelian()
      ensures Multiple(n, add(a, b)) == add(Multiple(n, a), Multiple(n, b))
    {
      if n == 0 {
        Unit(identity);
      } else {
        MultipleDistributes(n - 1, a, b);
        SwapInner(Multiple(n - 1, a), Multiple(n - 1, b), a, b);
      }
    }

    /** n * (-a) = (-n) * a. */
    lemma MultipleOfInverse(n: nat, a: T)
      requires IsAbelian()
      ensures Multiple(n, inverse(a)) == Multiple(-(n as int), a)
    {
      MultipleOne(a);
      MultipleNegate(1, a);
      MultipleMul(n, -1, a);
    }
  }

  // ---- An instance ------------------------------------------------------------------------

  /** The integers under addition. */
  function Integers(): Group<int> {
    Group(0, (a, b) => a + b, a => -a, true)
  }

  /** There, repeated addition is multiplication. */
  lemma {:induction false} TimesOfIntegers(n: nat, a: int)
    ensures Integers().IsAbelian() && Integers().Times(n, a) == n * a
  {
    if n > 0 {
      TimesOfIntegers(n - 1, a);
      assert (n - 1) * a + a == n * a;
    }
  }
}
