/** Doubling a point of a curve y^2 = x^3 + a x + b in Jacobian coordinates, of ecp.cpp, against doubling with a division. */
module EllipticDoubling {
  import opened ParallelInversion

  // ---- The field --------------------------------------------------------------------------------

  /** A field in which every element can be halved. */
  datatype CurveField<!T(==, !new)> =
    CurveField(mul: Field<T>, add: (T, T) -> T, subtract: (T, T) -> T, half: T -> T)
  {
    ghost predicate Valid() {
      && mul.Valid()
      && (forall x, y, z :: Adds(x, y, z))
      && (forall x, y, z :: Distributes(x, y, z))
      && (forall x :: Halves(x))
    }

    predicate Adds(x: T, y: T, z: T) {
      && add(x, y) == add(y, x) && add(add(x, y), z) == add(x, add(y, z))
      && subtract(add(x, y), y) == x && add(subtract(x, y), y) == x
    }

    predicate Distributes(x: T, y: T, z: T) { Times(x, add(y, z)) == add(Times(x, y), Times(x, z)) }

    predicate Halves(x: T) { add(x, mul.zero) == x && add(half(x), half(x)) == x }

    function Times(x: T, y: T): T { mul.multiply(x, y) }

    function Square(x: T): T { Times(x, x) }

    function Cube(x: T): T { Times(Square(x), x) }

    lemma Commute(x: T, y: T)
      requires Valid()
      ensures Times(x, y) == Times(y, x)
    {
      assert mul.Commutes(x, y);
    }

    lemma Associate(x: T, y: T, z: T)
      requires Valid()
      ensures Times(Times(x, y), z) == Times(x, Times(y, z))
    {
      assert mul.Associates(x, y, z);
    }

    lemma ZeroAndOne(x: T)
      requires Valid()
      ensures Times(mul.zero, x) == mul.zero == Times(x, mul.zero)
      ensures Times(mul.one, x) == x == Times(x, mul.one)
      ensures x != mul.zero ==> Times(x, mul.inverse(x)) == mul.one
    {
      assert mul.HasInverse(x);
      Commute(mul.zero, x);
      Commute(mul.one, x);
    }

    /** (x y)(z w) = (x z)(y w). */
    lemma Exchange(x: T, y: T, z: T, w: T)
      requires Valid()
      ensures Times(Times(x, y), Times(z, w)) == Times(Times(x, z), Times(y, w))
    {
      Associate(x, y, Times(z, w));
      Associate(y, z, w);
      Commute(y, z);
      Associate(z, y, w);
      Associate(x, z, Times(y, w));
    }

    lemma PowersOfProduct(x: T, y: T)
      requires Valid()
      ensures Square(Times(x, y)) == Times(Square(x), Square(y))
      ensures Cube(Times(x, y)) == Times(Cube(x), Cube(y))
    {
      Exchange(x, y, x, y);
      Exchange(Square(x), Square(y), x, y);
    }

    /** The square of the square is the cube times x. */
    lemma FourthPower(x: T)
      requires Valid()
      ensures Square(Square(x)) == Times(Cube(x), x)
    {
      Associate(Square(x), x, x);
    }

    lemma Distribute(x: T, y: T, z: T)
      requires Valid()
      ensures Times(add(y, z), x) == add(Times(y, x), Times(z, x))
      ensures Times(subtract(y, z), x) == subtract(Times(y, x), Times(z, x))
    {
      assert Distributes(x, y, z);
      Commute(x, y);
      Commute(x, z);
      Commute(x, add(y, z));
      var d := subtract(y, z);
      assert Adds(y, z, z) && Distributes(x, d, z);
      Commute(x, d);
      assert Adds(Times(d, x), Times(z, x), z);
    }

    lemma HalfUnique(x: T, y: T)
      requires Valid() && add(x, x) == y
      ensures half(y) == x
    {
      var h := half(mul.one);
      assert Halves(mul.one) && Halves(y);
      HalfTimes(x, h);
      HalfTimes(half(y), h);
    }

    lemma HalfTimes(x: T, h: T)
      requires Valid() && add(h, h) == mul.one
      ensures Times(h, add(x, x)) == x
    {
      assert Distributes(h, x, x);
      Distribute(x, h, h);
      ZeroAndOne(x);
    }

    lemma Swap(x: T, y: T)
      requires Valid()
      ensures add(x, y) == add(y, x)
    {
      assert Adds(x, y, y);
    }

    lemma Group(x: T, y: T, z: T)
      requires Valid()
      ensures add(add(x, y), z) == add(x, add(y, z))
    {
      assert Adds(x, y, z);
    }

    /** (x + y) + (z + w) = (x + z) + (y + w). */
    lemma Regroup(x: T, y: T, z: T, w: T)
      requires Valid()
      ensures add(add(x, y), add(z, w)) == add(add(x, z), add(y, w))
    {
      Group(x, y, add(z, w));
      Group(y, z, w);
      Swap(y, z);
      Group(z, y, w);
      Group(x, z, add(y, w));
    }

    /** What is added to y to give x. */
    lemma Difference(x: T, y: T, z: T)
      requires Valid()
      ensures add(subtract(x, y), y) == x
      ensures add(z, y) == x <==> z == subtract(x, y)
    {
      assert Adds(x, y, y) && Adds(z, y, y);
    }

    lemma Nothing(x: T)
      requires Valid()
      ensures add(mul.zero, x) == x == add(x, mul.zero) && subtract(x, x) == mul.zero
    {
      assert Halves(x);
      Swap(x, mul.zero);
      Difference(x, x, mul.zero);
    }

    /** What gives zero together with x. */
    lemma Negative(x: T, y: T)
      requires Valid()
      ensures add(x, y) == mul.zero <==> y == subtract(mul.zero, x)
    {
      Difference(mul.zero, x, y);
      Swap(x, y);
    }

    /** There are no zero divisors. */
    lemma ProductNonzero(x: T, y: T)
      requires Valid()
      ensures Times(x, y) == mul.zero <==> x == mul.zero || y == mul.zero
    {
      ZeroAndOne(x);
      ZeroAndOne(y);
      if x != mul.zero && Times(x, y) == mul.zero {
        var v := mul.inverse(x);
        Associate(v, x, y);
        Commute(v, x);
        ZeroAndOne(v);
      }
    }

    lemma TwiceNonzero(x: T)
      requires Valid()
      ensures add(x, x) == mul.zero <==> x == mul.zero
    {
      assert Halves(mul.zero);
      HalfUnique(mul.zero, mul.zero);
      if add(x, x) == mul.zero { HalfUnique(x, mul.zero); }
    }
  }

  // ---- An instance ------------------------------------------------------------------------------

  function Reals(): CurveField<real> {
    CurveField(Field(0.0, 1.0, (x, y) => x * y, x => if x == 0.0 then 0.0 else 1.0 / x),
               (x, y) => x + y, (x, y) => x - y, x => x / 2.0)
  }

  /** The real numbers are a field with halves. */
  lemma RealsAreAField()
    ensures Reals().Valid()
  {
    var f := Reals();
    forall x, y ensures f.mul.Commutes(x, y) {}
    forall x, y, z ensures f.mul.Associates(x, y, z) {}
    forall x ensures f.mul.HasInverse(x) {}
    forall x, y, z ensures f.Adds(x, y, z) {}
    forall x, y, z ensures f.Distributes(x, y, z) {}
    forall x ensures f.Halves(x) {}
  }

  // ---- Points -----------------------------------------------------------------------------------

  datatype Point<T> = Identity | Affine(x: T, y: T)

  /** The slope t of the tangent. */
  function Slope<T(==, !new)>(f: CurveField<T>, a: T, x: T, y: T): T {
    var s := f.Square(x);
    f.Times(f.add(f.add(f.add(s, s), s), a), f.mul.inverse(f.add(y, y)))
  }

  /** ECP::Double. */
  function DoublePoint<T(==, !new)>(f: CurveField<T>, a: T, p: Point<T>): Point<T> {
    if p.Identity? || p.y == f.mul.zero then Identity
    else
      var t := Slope(f, a, p.x, p.y);
      var x := f.subtract(f.subtract(f.Square(t), p.x), p.x);
      Affine(x, f.subtract(f.Times(t, f.subtract(p.x, x)), p.y))
  }

  /** The point x / z^2, y / z^3, as it is converted at the end. */
  function Normal<T(==, !new)>(f: CurveField<T>, x: T, y: T, z: T): Point<T> {
    if z == f.mul.zero then Identity
    else
      var v := f.mul.inverse(z);
      Affine(f.Times(x, f.Square(v)), f.Times(f.Times(y, v), f.Square(v)))
  }

  lemma InversePowers<T(!new)>(f: CurveField<T>, z: T)
    requires f.Valid() && z != f.mul.zero
    ensures var v := f.mul.inverse(z);
            f.Times(f.Square(z), f.Square(v)) == f.mul.one && f.Times(f.Cube(z), f.Cube(v)) == f.mul.one
  {
    var v := f.mul.inverse(z);
    f.ZeroAndOne(z);
    f.PowersOfProduct(z, v);
    f.ZeroAndOne(f.mul.one);
  }

  lemma CancelFactor<T(!new)>(f: CurveField<T>, x: T, p: T, q: T)
    requires f.Valid() && f.Times(p, q) == f.mul.one
    ensures f.Times(f.Times(x, p), q) == x && f.Times(f.Times(x, q), p) == x
  {
    f.Associate(x, p, q);
    f.Associate(x, q, p);
    f.Commute(p, q);
    f.ZeroAndOne(x);
  }

  /** Times v, then times v^2, is times v^3. */
  lemma TimesCube<T(!new)>(f: CurveField<T>, y: T, v: T)
    requires f.Valid()
    ensures f.Times(f.Times(y, v), f.Square(v)) == f.Times(y, f.Cube(v))
  {
    f.Associate(y, v, f.Square(v));
    f.Commute(v, f.Square(v));
  }

  /** Jacobian coordinates x z^2, y z^3, z stand for (x, y), and no others with z do. */
  lemma NormalOf<T(!new)>(f: CurveField<T>, x: T, y: T, z: T)
    requires f.Valid() && z != f.mul.zero
    ensures Normal(f, f.Times(x, f.Square(z)), f.Times(y, f.Cube(z)), z) == Affine(x, y)
  {
    var v := f.mul.inverse(z);
    InversePowers(f, z);
    CancelFactor(f, x, f.Square(z), f.Square(v));
    CancelFactor(f, y, f.Cube(z), f.Cube(v));
    TimesCube(f, f.Times(y, f.Cube(z)), v);
  }

  lemma OfNormal<T(!new)>(f: CurveField<T>, x: T, y: T, z: T)
    requires f.Valid() && z != f.mul.zero
    ensures var p := Normal(f, x, y, z);
            x == f.Times(p.x, f.Square(z)) && y == f.Times(p.y, f.Cube(z))
  {
    var v := f.mul.inverse(z);
    InversePowers(f, z);
    CancelFactor(f, x, f.Square(z), f.Square(v));
    CancelFactor(f, y, f.Cube(z), f.Cube(v));
    TimesCube(f, y, v);
  }

  // ---- What doubling is: the tangent and where else it meets the curve -----------------------------

  /** x^3 + a x + b. */
  function Cubic<T(==, !new)>(f: CurveField<T>, a: T, b: T, x: T): T {
    f.add(f.add(f.Cube(x), f.Times(a, x)), b)
  }

  predicate OnCurve<T(==, !new)>(f: CurveField<T>, a: T, b: T, p: Point<T>) {
    p.Identity? || f.Square(p.y) == Cubic(f, a, b, p.x)
  }

  /** The y coordinate at which the line through (x, y) with slope t passes X. */
  function Line<T(==, !new)>(f: CurveField<T>, t: T, x: T, y: T, X: T): T {
    f.add(f.Times(t, f.subtract(X, x)), y)
  }

  function Thrice<T(==, !new)>(f: CurveField<T>, x: T): T { f.add(f.add(x, x), x) }

  /** (x + u)^2 = x^2 + (x u + x u) + u^2. */
  lemma SquareOfSum<T(!new)>(f: CurveField<T>, x: T, u: T)
    requires f.Valid()
    ensures f.Square(f.add(x, u)) == f.add(f.Square(x), f.add(f.add(f.Times(x, u), f.Times(x, u)), f.Square(u)))
  {
    var s := f.add(x, u);
    f.Distribute(s, x, u);
    f.Commute(x, s);
    f.Commute(u, s);
    f.Distribute(x, x, u);
    f.Distribute(u, x, u);
    f.Commute(u, x);
    f.Group(f.Square(x), f.Times(x, u), f.add(f.Times(x, u), f.Square(u)));
    f.Group(f.Times(x, u), f.Times(x, u), f.Square(u));
  }

  /** (x + u)^3 = x^3 + 3 x^2 u + 3 x u^2 + u^3. */
  lemma CubeOfSum<T(!new)>(f: CurveField<T>, x: T, u: T)
    requires f.Valid()
    ensures f.Cube(f.add(x, u))
         == f.add(f.add(f.Cube(x), f.Times(Thrice(f, f.Square(x)), u)), f.add(f.Times(Thrice(f, x), f.Square(u)), f.Cube(u)))
  {
    var s, xx, xu, uu := f.add(x, u), f.Square(x), f.Times(x, u), f.Square(u);
    var xxu, xuu := f.Times(xx, u), f.Times(x, uu);
    var two, rest := f.add(xu, xu), f.add(f.add(xu, xu), uu);
    SquareOfSum(f, x, u);
    var sq := f.add(xx, rest);
    f.Commute(sq, s);
    f.Distribute(sq, x, u);
    f.Commute(x, sq);
    f.Commute(u, sq);
    f.Distribute(x, xx, rest);
    f.Distribute(x, two, uu);
    f.Distribute(x, xu, xu);
    f.Distribute(u, xx, rest);
    f.Distribute(u, two, uu);
    f.Distribute(u, xu, xu);
    // xu x = x x u, xu u = x u u
    f.Associate(x, u, x);
    f.Commute(u, x);
    f.Associate(x, x, u);
    f.Associate(x, u, u);
    f.Commute(uu, x);
    f.Distribute(u, f.add(xx, xx), xx);
    f.Distribute(u, xx, xx);
    f.Distribute(uu, f.add(x, x), x);
    f.Distribute(uu, x, x);
    CubeTerms(f, f.Cube(x), xxu, xuu, f.Cube(u));
  }

  /** The sum of the eight terms of the cube, collected. */
  lemma CubeTerms<T(!new)>(f: CurveField<T>, p: T, q: T, r: T, w: T)
    requires f.Valid()
    ensures f.add(f.add(p, f.add(f.add(q, q), r)), f.add(q, f.add(f.add(r, r), w)))
         == f.add(f.add(p, Thrice(f, q)), f.add(Thrice(f, r), w))
  {
    var qq, rr := f.add(q, q), f.add(r, r);
    f.Group(p, qq, r);
    f.Regroup(f.add(p, qq), r, q, f.add(rr, w));
    f.Group(p, qq, q);
    f.Group(r, rr, w);
    f.Swap(r, rr);
  }

  /** The slope times 2 y is 3 x^2 + a: it is the slope of the curve. */
  lemma SlopeOfCurve<T(!new)>(f: CurveField<T>, a: T, x: T, y: T)
    requires f.Valid() && y != f.mul.zero
    ensures f.Times(Slope(f, a, x, y), f.add(y, y)) == f.add(Thrice(f, f.Square(x)), a)
  {
    var d := f.add(y, y);
    f.TwiceNonzero(y);
    f.ZeroAndOne(d);
    f.Commute(d, f.mul.inverse(d));
    CancelFactor(f, f.add(Thrice(f, f.Square(x)), a), d, f.mul.inverse(d));
  }

  /** x^3 + a x + b at x + u, in powers of u. */
  lemma CubicOfSum<T(!new)>(f: CurveField<T>, a: T, b: T, x: T, u: T)
    requires f.Valid()
    ensures Cubic(f, a, b, f.add(x, u))
         == f.add(f.add(Cubic(f, a, b, x), f.Times(f.add(Thrice(f, f.Square(x)), a), u)),
                  f.add(f.Times(Thrice(f, x), f.Square(u)), f.Cube(u)))
  {
    var three := Thrice(f, f.Square(x));
    CubeOfSum(f, x, u);
    var s := f.add(x, u);
    f.Commute(a, s);
    f.Distribute(a, x, u);
    f.Commute(a, x);
    f.Commute(a, u);
    f.Distribute(u, three, a);
    hide Thrice;
    CubicTerms(f, f.Cube(x), f.Times(three, u), f.add(f.Times(Thrice(f, x), f.Square(u)), f.Cube(u)),
               f.Times(a, x), f.Times(a, u), b);
    f.Commute(a, u);
  }

  lemma CubicTerms<T(!new)>(f: CurveField<T>, p: T, q: T, r: T, v: T, w: T, b: T)
    requires f.Valid()
    ensures f.add(f.add(f.add(f.add(p, q), r), f.add(v, w)), b) == f.add(f.add(f.add(f.add(p, v), b), f.add(q, w)), r)
  {
    var pq, vw, pv, qw := f.add(p, q), f.add(v, w), f.add(p, v), f.add(q, w);
    // (pq + r) + vw = (pq + vw) + r = (pv + qw) + r
    f.Group(pq, r, vw);
    f.Swap(r, vw);
    f.Group(pq, vw, r);
    f.Regroup(p, q, v, w);
    // ((pv + qw) + r) + b = ((pv + b) + qw) + r
    f.Group(f.add(pv, qw), r, b);
    f.Swap(r, b);
    f.Group(f.add(pv, qw), b, r);
    f.Group(pv, qw, b);
    f.Swap(qw, b);
    f.Group(pv, b, qw);
  }

  /** The square of the line, in powers of u. */
  lemma LineSquared<T(!new)>(f: CurveField<T>, t: T, y: T, u: T)
    requires f.Valid()
    ensures f.Square(f.add(f.Times(t, u), y))
         == f.add(f.Times(f.Square(t), f.Square(u)), f.add(f.Times(f.Times(t, f.add(y, y)), u), f.Square(y)))
  {
    var tu := f.Times(t, u);
    SquareOfSum(f, tu, y);
    f.PowersOfProduct(t, u);
    f.Distribute(tu, y, y);
    f.Commute(tu, y);
    f.Commute(tu, f.add(y, y));
    f.Associate(t, u, f.add(y, y));
    f.Commute(u, f.add(y, y));
    f.Associate(t, f.add(y, y), u);
  }

  /** u^2 (x + u - x'), where x' = t^2 - x - x. */
  lemma ThirdFactor<T(!new)>(f: CurveField<T>, t: T, x: T, u: T)
    requires f.Valid()
    ensures var x' := f.subtract(f.subtract(f.Square(t), x), x);
            f.add(f.Times(f.Square(u), f.subtract(f.add(x, u), x')), f.Times(f.Square(t), f.Square(u)))
            == f.add(f.Times(Thrice(f, x), f.Square(u)), f.Cube(u))
  {
    var tt, uu := f.Square(t), f.Square(u);
    var x' := f.subtract(f.subtract(tt, x), x);
    var w := f.subtract(f.add(x, u), x');
    // w + t^2 = w + ((x' + x) + x) = ((x + u) + x) + x = (x + x + x) + u
    f.Difference(tt, x, f.mul.zero);
    f.Difference(f.subtract(tt, x), x, f.mul.zero);
    f.Difference(f.add(x, u), x', f.mul.zero);
    f.Group(x', x, x);
    f.Group(w, x', f.add(x, x));
    f.Swap(f.add(x, u), f.add(x, x));
    f.Group(f.add(x, x), x, u);
    f.Commute(uu, w);
    f.Distribute(uu, w, tt);
    f.Distribute(uu, Thrice(f, x), u);
    f.Commute(u, uu);
  }

  /**
   * The line through a point of the curve with the slope of ECP::Double meets the curve there twice, and a third time
   * at the first coordinate of the double: this is an identity of polynomials in X.
   */
  lemma TangentMeets<T(!new)>(f: CurveField<T>, a: T, b: T, p: Point<T>, X: T)
    requires f.Valid() && p.Affine? && OnCurve(f, a, b, p) && p.y != f.mul.zero
    ensures var (t, q) := (Slope(f, a, p.x, p.y), DoublePoint(f, a, p));
            && q.Affine?
            && f.subtract(Cubic(f, a, b, X), f.Square(Line(f, t, p.x, p.y, X)))
               == f.Times(f.Square(f.subtract(X, p.x)), f.subtract(X, q.x))
  {
    var t, q, u := Slope(f, a, p.x, p.y), DoublePoint(f, a, p), f.subtract(X, p.x);
    f.Difference(X, p.x, u);
    f.Swap(u, p.x);
    CubicOfSum(f, a, b, p.x, u);
    SlopeOfCurve(f, a, p.x, p.y);
    LineSquared(f, t, p.y, u);
    ThirdFactor(f, t, p.x, u);
    hide Slope, Thrice, Cubic;
    var tt := f.Times(f.Square(t), f.Square(u));
    var rest := f.Times(f.Square(u), f.subtract(X, q.x));
    var yy, su := f.Square(p.y), f.Times(f.Times(t, f.add(p.y, p.y)), u);
    // rest + (tt + (su + yy)) = (yy + su) + (rest + tt)
    f.Group(rest, tt, f.add(su, yy));
    f.Swap(f.add(rest, tt), f.add(su, yy));
    f.Swap(su, yy);
    f.Difference(Cubic(f, a, b, X), f.Square(Line(f, t, p.x, p.y, X)), rest);
  }

  /** The double is the third point of the tangent, with the other sign; so it is on the curve. */
  lemma DoubleIsReflected<T(!new)>(f: CurveField<T>, a: T, b: T, p: Point<T>)
    requires f.Valid() && p.Affine? && OnCurve(f, a, b, p) && p.y != f.mul.zero
    ensures var (t, q) := (Slope(f, a, p.x, p.y), DoublePoint(f, a, p));
            q.Affine? && f.subtract(f.mul.zero, q.y) == Line(f, t, p.x, p.y, q.x) && OnCurve(f, a, b, q)
  {
    var t, q := Slope(f, a, p.x, p.y), DoublePoint(f, a, p);
    var c, l := Cubic(f, a, b, q.x), Line(f, t, p.x, p.y, q.x);
    TangentMeets(f, a, b, p, q.x);
    LineNegated(f, t, p.x, p.y, q.x);
    hide Slope, Cubic, Line;
    f.Swap(l, q.y);
    f.Negative(q.y, l);
    f.Nothing(q.x);
    f.ZeroAndOne(f.Square(f.subtract(q.x, p.x)));
    f.Difference(c, f.Square(l), f.mul.zero);
    f.Nothing(f.Square(l));
    SquareOfNegative(f, l, q.y);
  }

  /** The line at x' is the negative of what the formula gives there. */
  lemma LineNegated<T(!new)>(f: CurveField<T>, t: T, x: T, y: T, x': T)
    requires f.Valid()
    ensures f.add(Line(f, t, x, y, x'), f.subtract(f.Times(t, f.subtract(x, x')), y)) == f.mul.zero
  {
    var d, e := f.subtract(x, x'), f.subtract(x', x);
    var td, te, y' := f.Times(t, d), f.Times(t, e), f.subtract(f.Times(t, d), y);
    // e + d = 0, for e + d + x' = e + x = x'
    f.Difference(x, x', d);
    f.Difference(x', x, e);
    f.Group(e, d, x');
    f.Nothing(x');
    f.Difference(x', x', f.add(e, d));
    // (te + y) + y' = te + td = t (e + d)
    f.Difference(td, y, y');
    f.Swap(y, y');
    f.Group(te, y, y');
    f.Commute(t, d);
    f.Commute(t, e);
    f.Distribute(t, e, d);
    f.ZeroAndOne(t);
  }

  lemma SquareOfNegative<T(!new)>(f: CurveField<T>, x: T, y: T)
    requires f.Valid() && f.add(x, y) == f.mul.zero
    ensures f.Square(x) == f.Square(y)
  {
    f.Distribute(x, x, y);
    f.Distribute(y, x, y);
    f.ZeroAndOne(x);
    f.ZeroAndOne(y);
    f.Commute(x, y);
    f.Swap(f.Times(x, y), f.Square(y));
    f.Difference(f.mul.zero, f.Times(x, y), f.Square(x));
    f.Difference(f.mul.zero, f.Times(x, y), f.Square(y));
  }

  /** ECP::Inverse. */
  function Negated<T(==, !new)>(f: CurveField<T>, p: Point<T>): Point<T> {
    if p.Identity? then p else Affine(p.x, f.subtract(f.mul.zero, p.y))
  }

  /** The inverse of a point has the same x and the opposite y, and is on the curve. */
  lemma NegatedOpposite<T(!new)>(f: CurveField<T>, a: T, b: T, p: Point<T>)
    requires f.Valid() && OnCurve(f, a, b, p)
    ensures OnCurve(f, a, b, Negated(f, p))
    ensures p.Affine? ==> Negated(f, p).Affine? && Negated(f, p).x == p.x && f.add(p.y, Negated(f, p).y) == f.mul.zero
  {
    if p.Affine? {
      f.Negative(p.y, Negated(f, p).y);
      SquareOfNegative(f, p.y, Negated(f, p).y);
      hide Cubic;
    }
  }

  /** The double is the identity exactly for points that are their own inverse. */
  lemma DoubleIsIdentity<T(!new)>(f: CurveField<T>, a: T, p: Point<T>)
    requires f.Valid()
    ensures DoublePoint(f, a, p) == Identity <==> Negated(f, p) == p
  {
    if p.Affine? {
      f.Negative(p.y, p.y);
      f.TwiceNonzero(p.y);
      hide Slope;
    }
  }

  // ---- The formulas -------------------------------------------------------------------------------

  /** 3 x^2 + c. */
  function ThreeSquaresPlus<T(==, !new)>(f: CurveField<T>, x: T, c: T): T {
    var s := f.Square(x);
    f.add(f.add(f.add(s, s), s), c)
  }

  /** 3 x^2 + a scales like the fourth power. */
  lemma ScaledSlope<T(!new)>(f: CurveField<T>, a: T, x: T, z: T)
    requires f.Valid()
    ensures ThreeSquaresPlus(f, f.Times(x, f.Square(z)), f.Times(a, f.Square(f.Square(z))))
         == f.Times(ThreeSquaresPlus(f, x, a), f.Square(f.Square(z)))
  {
    var s, w := f.Square(x), f.Square(f.Square(z));
    f.PowersOfProduct(x, f.Square(z));
    f.Distribute(w, s, s);
    f.Distribute(w, f.add(s, s), s);
    f.Distribute(w, f.add(f.add(s, s), s), a);
  }

  /** M is the slope times the new z. */
  lemma SlopeTimesZ<T(!new)>(f: CurveField<T>, a: T, x: T, y: T, z: T)
    requires f.Valid() && y != f.mul.zero
    ensures var k := f.add(f.Times(y, f.Cube(z)), f.Times(y, f.Cube(z)));
            f.Times(ThreeSquaresPlus(f, x, a), f.Square(f.Square(z))) == f.Times(Slope(f, a, x, y), f.Times(z, k))
  {
    var n, d, t := ThreeSquaresPlus(f, x, a), f.add(y, y), Slope(f, a, x, y);
    var k := f.add(f.Times(y, f.Cube(z)), f.Times(y, f.Cube(z)));
    f.TwiceNonzero(y);
    f.ZeroAndOne(d);
    f.Commute(d, f.mul.inverse(d));
    CancelFactor(f, n, d, f.mul.inverse(d));
    assert n == f.Times(t, d);
    f.Associate(t, d, f.Square(f.Square(z)));
    f.FourthPower(z);
    f.Associate(d, f.Cube(z), z);
    f.Distribute(f.Cube(z), y, y);
    f.Commute(z, k);
  }

  /** S is x times the square of the new z. */
  lemma ScaledS<T(!new)>(f: CurveField<T>, x: T, z: T, k: T)
    requires f.Valid()
    ensures f.Times(f.Square(k), f.Times(x, f.Square(z))) == f.Times(x, f.Square(f.Times(z, k)))
  {
    f.PowersOfProduct(z, k);
    f.Commute(f.Square(k), f.Times(x, f.Square(z)));
    f.Associate(x, f.Square(z), f.Square(k));
  }

  lemma ScaledX<T(!new)>(f: CurveField<T>, t: T, x: T, w: T)
    requires f.Valid()
    ensures var s := f.Times(x, f.Square(w));
            f.subtract(f.subtract(f.Square(f.Times(t, w)), s), s)
            == f.Times(f.subtract(f.subtract(f.Square(t), x), x), f.Square(w))
  {
    f.PowersOfProduct(t, w);
    f.Distribute(f.Square(w), f.Square(t), x);
    f.Distribute(f.Square(w), f.subtract(f.Square(t), x), x);
  }

  /** Half of (2 y z^3)^4 is y times the cube of the new z. */
  lemma ScaledHalf<T(!new)>(f: CurveField<T>, y: T, z: T)
    requires f.Valid()
    ensures var Y := f.Times(y, f.Cube(z));
            f.half(f.Square(f.Square(f.add(Y, Y)))) == f.Times(y, f.Cube(f.Times(z, f.add(Y, Y))))
  {
    var Y := f.Times(y, f.Cube(z));
    var k := f.add(Y, Y);
    f.FourthPower(k);
    f.Commute(f.Cube(k), k);
    f.Distribute(f.Cube(k), Y, Y);
    f.HalfUnique(f.Times(Y, f.Cube(k)), f.Square(f.Square(k)));
    f.PowersOfProduct(z, k);
    f.Associate(y, f.Cube(z), f.Cube(k));
  }

  lemma ScaledY<T(!new)>(f: CurveField<T>, t: T, x: T, x': T, y: T, w: T)
    requires f.Valid()
    ensures f.subtract(f.Times(f.Times(t, w), f.subtract(f.Times(x, f.Square(w)), f.Times(x', f.Square(w)))), f.Times(y, f.Cube(w)))
         == f.Times(f.subtract(f.Times(t, f.subtract(x, x')), y), f.Cube(w))
  {
    f.Distribute(f.Square(w), x, x');
    f.Exchange(t, w, f.subtract(x, x'), f.Square(w));
    f.Commute(w, f.Square(w));
    f.Distribute(f.Cube(w), f.Times(t, f.subtract(x, x')), y);
  }

  /** The new coordinates, from those of a point. */
  function NextX<T(==, !new)>(f: CurveField<T>, m: T, s: T): T {
    f.subtract(f.subtract(f.Square(m), s), s)
  }

  function NextY<T(==, !new)>(f: CurveField<T>, m: T, s: T, k: T): T {
    f.subtract(f.Times(m, f.subtract(s, NextX(f, m, s))), f.half(f.Square(f.Square(k))))
  }

  /** The formulas, without a division, double the point. */
  lemma DoublesThePoint<T(!new)>(f: CurveField<T>, a: T, x: T, y: T, z: T)
    requires f.Valid()
    ensures var k := f.add(y, y);
            var s, m := f.Times(f.Square(k), x), ThreeSquaresPlus(f, x, f.Times(a, f.Square(f.Square(z))));
            Normal(f, NextX(f, m, s), NextY(f, m, s, k), f.Times(z, k)) == DoublePoint(f, a, Normal(f, x, y, z))
  {
    var k := f.add(y, y);
    f.ZeroAndOne(k);
    if z != f.mul.zero {
      var p := Normal(f, x, y, z);
      OfNormal(f, x, y, z);
      f.ProductNonzero(z, z);
      f.ProductNonzero(f.Square(z), z);
      f.ProductNonzero(p.y, f.Cube(z));
      f.TwiceNonzero(y);
      f.ZeroAndOne(z);
      if p.y != f.mul.zero {
        f.ProductNonzero(z, k);
        DoublesTheAffinePoint(f, a, p.x, p.y, z);
      }
    }
  }

  lemma DoublesTheAffinePoint<T(!new)>(f: CurveField<T>, a: T, px: T, py: T, z: T)
    requires f.Valid() && py != f.mul.zero
    requires f.Times(z, f.add(f.Times(py, f.Cube(z)), f.Times(py, f.Cube(z)))) != f.mul.zero
    ensures var x, y := f.Times(px, f.Square(z)), f.Times(py, f.Cube(z));
            var k := f.add(y, y);
            var s, m := f.Times(f.Square(k), x), ThreeSquaresPlus(f, x, f.Times(a, f.Square(f.Square(z))));
            Normal(f, NextX(f, m, s), NextY(f, m, s, k), f.Times(z, k)) == DoublePoint(f, a, Affine(px, py))
  {
    var x, y, t := f.Times(px, f.Square(z)), f.Times(py, f.Cube(z)), Slope(f, a, px, py);
    var k := f.add(y, y);
    var w := f.Times(z, k);
    var nx := f.subtract(f.subtract(f.Square(t), px), px);
    ScaledSlope(f, a, px, z);
    SlopeTimesZ(f, a, px, py, z);
    ScaledS(f, px, z, k);
    ScaledX(f, t, px, w);
    ScaledHalf(f, py, z);
    ScaledY(f, t, px, nx, py, w);
    hide Slope, Normal;
    NormalOf(f, nx, f.subtract(f.Times(t, f.subtract(px, nx)), py), w);
  }

  // ---- The class ----------------------------------------------------------------------------------

  class ProjectiveDoubling<T(==, !new)> {
    const f: CurveField<T>
    const a: T
    var x: T
    var y: T
    var z: T
    var sixteenY4: T
    var aZ4: T
    var twoY: T
    var fourY2: T
    var S: T
    var M: T

    /** The two factors kept from the last doubling make up a z^4. */
    ghost predicate Valid()
      reads this
    {
      f.Valid() && f.Times(aZ4, sixteenY4) == f.Times(a, f.Square(f.Square(z)))
    }

    ghost function Value(): Point<T>
      reads this
    {
      Normal(f, x, y, z)
    }

    constructor (f: CurveField<T>, a: T, q: Point<T>)
      requires f.Valid()
      ensures Valid() && Value() == q && this.f == f && this.a == a
    {
      this.f, this.a := f, a;
      var zero, one := f.mul.zero, f.mul.one;
      f.ZeroAndOne(zero);
      f.ZeroAndOne(one);
      f.ZeroAndOne(a);
      twoY, fourY2, S, M := zero, zero, zero, zero;
      if q.Identity? {
        sixteenY4, x, y := one, one, one;
        aZ4, z := zero, zero;
      } else {
        x, y := q.x, q.y;
        sixteenY4, z := one, one;
        aZ4 := a;
        f.ZeroAndOne(q.x);
        f.ZeroAndOne(q.y);
        NormalOf(f, q.x, q.y, one);
      }
    }

    /** Twice the point, for every point: the identity and points of order two as well. */
    method Double()
      requires Valid()
      modifies this
      ensures Valid() && Value() == DoublePoint(f, a, old(Value()))
    {
      hide Normal, DoublePoint;
      DoublesThePoint(f, a, x, y, z);
      twoY := f.add(y, y);
      KeepFactors(f, a, z, twoY);
      z := f.Times(z, twoY);
      fourY2 := f.Square(twoY);
      S := f.Times(fourY2, x);
      aZ4 := f.Times(aZ4, sixteenY4);
      M := f.Square(x);
      M := f.add(f.add(f.add(M, M), M), aZ4);
      x := f.Square(M);
      x := f.subtract(x, S);
      x := f.subtract(x, S);
      S := f.subtract(S, x);
      y := f.Times(M, S);
      sixteenY4 := f.Square(fourY2);
      y := f.subtract(y, f.half(sixteenY4));
    }
  }

  lemma KeepFactors<T(!new)>(f: CurveField<T>, a: T, z: T, k: T)
    requires f.Valid()
    ensures f.Times(f.Times(a, f.Square(f.Square(z))), f.Square(f.Square(k))) == f.Times(a, f.Square(f.Square(f.Times(z, k))))
  {
    f.PowersOfProduct(z, k);
    f.PowersOfProduct(f.Square(z), f.Square(k));
    f.Associate(a, f.Square(f.Square(z)), f.Square(f.Square(k)));
  }
}
