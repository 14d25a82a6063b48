/**
 ECP::SimultaneousMultiply of ecp.cpp: multiples of a point of a curve, from one chain of projective doublings, one
 batched inversion and a cascade over the windows of each exponent.
 */
module EllipticMultiplication {
  import opened Arithmetic
  import opened AbelianGroups
  import opened WindowSliders
  import opened ParallelInversion
  import opened EllipticDoubling
  import opened ExponentHeaps
  import GeneralCascade
  import SM = SimultaneousMultiplication

  /** The group of a curve, and the coordinates of its elements: doubling is done by ECP::Double, negation by ECP::Inverse. */
  datatype Curve<!E(!new), !T(==, !new)> =
    Curve(g: Group<E>, f: CurveField<T>, a: T, coordinates: E -> Point<T>, point: Point<T> -> E)
  {
    ghost predicate Valid() {
      g.IsAbelian() && f.Valid() && forall e :: HasCoordinates(e)
    }

    ghost predicate HasCoordinates(e: E) {
      && point(coordinates(e)) == e
      && coordinates(g.add(e, e)) == DoublePoint(f, a, coordinates(e))
      && coordinates(g.inverse(e)) == Negated(f, coordinates(e))
    }
  }

  /** A point of order two and the identity, as a group: of a curve over the reals through (x, 0). */
  function OrderTwo(a: real, x: real): Curve<bool, real> {
    Curve(Group(false, (p, q) => p != q, p => p, true), Reals(), a,
          p => if p then Affine(x, 0.0) else Identity, (p: Point<real>) => p.Affine?)
  }

  lemma OrderTwoIsACurve(a: real, b: real, x: real)
    requires x * x * x + a * x + b == 0.0
    ensures var c := OrderTwo(a, x);
            c.Valid() && OnCurve(c.f, a, b, c.coordinates(true)) && c.coordinates(true) == Affine(x, 0.0)
  {
    RealsAreAField();
    hide CurveField.Valid;
    var c := OrderTwo(a, x);
    forall p ensures c.HasCoordinates(p) {}
    OrderTwoIsAGroup(a, x);
    RootOnCurve(a, b, x);
  }

  lemma RootOnCurve(a: real, b: real, x: real)
    requires x * x * x + a * x + b == 0.0
    ensures OnCurve(Reals(), a, b, Affine(x, 0.0))
  {
    assert Cubic(Reals(), a, b, x) == x * x * x + a * x + b;
    assert Reals().Square(0.0) == 0.0 * 0.0;
  }

  lemma OrderTwoIsAGroup(a: real, x: real)
    ensures OrderTwo(a, x).g.IsAbelian()
  {}

  datatype ProjectivePoint<T> = ProjectivePoint(x: T, y: T, z: T)

  /** A window of an exponent: which base, its sign and the digit. */
  datatype Window = Window(index: nat, negate: bool, digit: nat)

  // ---- What the windows stand for -----------------------------------------------------------------

  ghost predicate Indexed(ws: seq<Window>, n: nat) {
    forall j :: 0 <= j < |ws| ==> ws[j].index < n
  }

  /** Base i belongs to bit position positions[i]. */
  ghost function Weight(w: Window, positions: seq<nat>): int
    requires w.index < |positions|
  {
    if w.negate then -(Pow2(positions[w.index]) as int) else Pow2(positions[w.index])
  }

  ghost function WindowSum(ws: seq<Window>, positions: seq<nat>): int
    requires Indexed(ws, |positions|)
  {
    if ws == [] then 0
    else
      var w := ws[|ws| - 1];
      WindowSum(ws[..|ws| - 1], positions) + w.digit * Weight(w, positions)
  }

  lemma WindowSumAppend(ws: seq<Window>, w: Window, positions: seq<nat>)
    requires Indexed(ws, |positions|) && w.index < |positions|
    ensures Indexed(ws + [w], |positions|)
    ensures WindowSum(ws + [w], positions) == WindowSum(ws, positions) + w.digit * Weight(w, positions)
  {
    assert (ws + [w])[..|ws|] == ws;
  }

  /** A base more makes no difference to the windows there are. */
  lemma {:induction false} WindowSumExtend(ws: seq<Window>, positions: seq<nat>, more: seq<nat>)
    requires Indexed(ws, |positions|) && positions <= more
    ensures Indexed(ws, |more|) && WindowSum(ws, more) == WindowSum(ws, positions)
  {
    if ws != [] {
      WindowSumExtend(ws[..|ws| - 1], positions, more);
      var w := ws[|ws| - 1];
      assert more[w.index] == positions[w.index];
    }
  }

  /** What the windows taken stand for, and what the slider still holds, make up the exponent. */
  ghost predicate Tracks(s: WindowSlider, e: nat, ws: seq<Window>, positions: seq<nat>, position: nat)
    reads s
  {
    && s.Valid() && !s.firstTime && s.Bounded(e)
    && Indexed(ws, |positions|) && WindowSum(ws, positions) + s.Pending() == e
    && (!s.finished ==> s.windowBegin >= position) && (e == 0 ==> s.finished && ws == [])
  }

  lemma TracksExtend(s: WindowSlider, e: nat, ws: seq<Window>, positions: seq<nat>, more: seq<nat>, position: nat)
    requires Tracks(s, e, ws, positions, position) && positions <= more
    ensures Tracks(s, e, ws, more, position)
  {
    WindowSumExtend(ws, positions, more);
  }

  /** A window that starts here goes to the base for this position. */
  method TakeWindow(s: WindowSlider, ghost e: nat, ws: seq<Window>, index: nat, ghost positions: seq<nat>, ghost position: nat)
    returns (ws': seq<Window>)
    requires Tracks(s, e, ws, positions, position) && !s.finished && s.windowBegin == position
    requires index < |positions| && positions[index] == position
    modifies s
    ensures Tracks(s, e, ws', positions, position + 1)
  {
    hide WindowSum, Shl, Shr, Pow2;
    var w := Window(index, s.negateNext, s.expWindow);
    ws' := ws + [w];
    SM.WindowInRange(s);
    SM.DigitAtPosition(s, Weight(w, positions), position);
    WindowSumAppend(ws, w, positions);
    s.FindNextWindow(e);
  }

  // ---- The bases -------------------------------------------------------------------------------------

  function Affinely<T(==, !new)>(f: CurveField<T>, p: ProjectivePoint<T>): Point<T> {
    Normal(f, p.x, p.y, p.z)
  }

  /** The point 2^position times the base. */
  ghost function PowerOf<E(!new), T(!new)>(c: Curve<E, T>, base: E, position: nat): E {
    c.g.Multiple(Pow2(position), base)
  }

  ghost predicate BasesHold<E(!new), T(!new)>(c: Curve<E, T>, base: E, bases: seq<ProjectivePoint<T>>, positions: seq<nat>) {
    && |bases| == |positions|
    && forall i :: 0 <= i < |bases| ==> Affinely(c.f, bases[i]) == c.coordinates(PowerOf(c, base, positions[i]))
  }

  lemma NextPower<E(!new), T(!new)>(c: Curve<E, T>, base: E, position: nat)
    requires c.Valid()
    ensures c.coordinates(PowerOf(c, base, position + 1)) == DoublePoint(c.f, c.a, c.coordinates(PowerOf(c, base, position)))
  {
    hide DoublePoint;
    var p := Pow2(position);
    Pow2Step(position);
    c.g.MultipleAdd(p, p, base);
    assert c.HasCoordinates(c.g.Multiple(p, base));
  }

  // ---- One position, all exponents --------------------------------------------------------------------

  /** All exponents while position is being processed and the first done are finished with it. */
  ghost predicate AllTrack(exponents: seq<nat>, sliders: seq<WindowSlider>, windows: seq<seq<Window>>,
                           positions: seq<nat>, position: nat, done: nat)
    reads sliders
  {
    && |sliders| == |windows| == |exponents|
    && forall i :: 0 <= i < |sliders| ==>
         Tracks(sliders[i], exponents[i], windows[i], positions, if i < done then position + 1 else position)
  }

  lemma AllTrackExtend(exponents: seq<nat>, sliders: seq<WindowSlider>, windows: seq<seq<Window>>,
                       positions: seq<nat>, more: seq<nat>, position: nat, done: nat)
    requires AllTrack(exponents, sliders, windows, positions, position, done) && positions <= more
    ensures AllTrack(exponents, sliders, windows, more, position, done)
  {
    hide Tracks;
    forall i | 0 <= i < |sliders|
      ensures Tracks(sliders[i], exponents[i], windows[i], more, if i < done then position + 1 else position)
    {
      TracksExtend(sliders[i], exponents[i], windows[i], positions, more, if i < done then position + 1 else position);
    }
  }

  lemma PositionDone(exponents: seq<nat>, sliders: seq<WindowSlider>, windows: seq<seq<Window>>,
                     positions: seq<nat>, position: nat)
    requires AllTrack(exponents, sliders, windows, positions, position, |exponents|)
    ensures AllTrack(exponents, sliders, windows, positions, position + 1, 0)
  {}

  lemma Passed(s: WindowSlider, e: nat, ws: seq<Window>, positions: seq<nat>, position: nat)
    requires Tracks(s, e, ws, positions, position) && (s.finished || s.windowBegin != position)
    ensures Tracks(s, e, ws, positions, position + 1)
  {}

  lemma BelowTop(s: WindowSlider, e: nat, ws: seq<Window>, positions: seq<nat>, position: nat)
    requires Tracks(s, e, ws, positions, position) && !s.finished
    ensures position <= BitCount(e)
  {
    SM.WindowBelowTop(s, e);
  }

  /** The base for this position, taken from the doubler when the first window needs it. */
  lemma BasesExtend<E(!new), T(!new)>(c: Curve<E, T>, base: E, bases: seq<ProjectivePoint<T>>, positions: seq<nat>,
                                      p: ProjectivePoint<T>, position: nat)
    requires BasesHold(c, base, bases, positions)
    requires Affinely(c.f, p) == c.coordinates(PowerOf(c, base, position))
    ensures BasesHold(c, base, bases + [p], positions + [position])
  {
    hide Affinely, PowerOf;
  }

  /** One pass over all exponents. */
  method Sweep<E(!new), T(==, !new)>(c: Curve<E, T>, ghost base: E, exponents: seq<nat>, sliders: seq<WindowSlider>,
                                     windowsIn: seq<seq<Window>>, basesIn: seq<ProjectivePoint<T>>,
                                     ghost positionsIn: seq<nat>, position: nat, current: ProjectivePoint<T>)
    returns (notDone: bool, windows: seq<seq<Window>>, bases: seq<ProjectivePoint<T>>, ghost positions: seq<nat>)
    requires SM.Distinct(sliders) && AllTrack(exponents, sliders, windowsIn, positionsIn, position, 0)
    requires BasesHold(c, base, basesIn, positionsIn)
    requires Affinely(c.f, current) == c.coordinates(PowerOf(c, base, position))
    modifies sliders
    ensures AllTrack(exponents, sliders, windows, positions, position + 1, 0) && BasesHold(c, base, bases, positions)
    ensures !notDone ==> forall k :: 0 <= k < |sliders| ==> sliders[k].finished
    ensures notDone ==> position < SM.MaxBitCount(exponents)
  {
    hide Tracks, BasesHold, Affinely, PowerOf;
    notDone, windows, bases, positions := false, windowsIn, basesIn, positionsIn;
    var baseAdded := false;
    for i := 0 to |exponents|
      invariant AllTrack(exponents, sliders, windows, positions, position, i) && BasesHold(c, base, bases, positions)
      invariant baseAdded ==> bases != [] && EndsWith(positions, |bases| - 1, position)
      invariant !notDone ==> forall k :: 0 <= k < i ==> sliders[k].finished
      invariant notDone ==> position < SM.MaxBitCount(exponents)
    {
      if !sliders[i].finished && position == sliders[i].windowBegin {
        if !baseAdded {
          BasesExtend(c, base, bases, positions, current, position);
          LengthsAgree(c, base, bases, positions);
          AllTrackExtend(exponents, sliders, windows, positions, positions + [position], position, i);
          bases, positions := bases + [current], positions + [position];
          baseAdded := true;
        }
        var ws := TakeWindow(sliders[i], exponents[i], windows[i], |bases| - 1, positions, position);
        windows := windows[i := ws];
      } else {
        Passed(sliders[i], exponents[i], windows[i], positions, position);
      }
      if !sliders[i].finished { BelowTop(sliders[i], exponents[i], windows[i], positions, position + 1); }
      notDone := notDone || !sliders[i].finished;
    }
    PositionDone(exponents, sliders, windows, positions, position);
  }

  ghost predicate EndsWith(positions: seq<nat>, k: nat, position: nat) {
    k < |positions| && positions[k] == position
  }

  lemma LengthsAgree<E(!new), T(!new)>(c: Curve<E, T>, base: E, bases: seq<ProjectivePoint<T>>, positions: seq<nat>)
    requires BasesHold(c, base, bases, positions)
    ensures |bases| == |positions|
  {}

  // ---- The main loop ---------------------------------------------------------------------------------

  method PrepareExponents(exponents: seq<nat>) returns (sliders: seq<WindowSlider>, windows: seq<seq<Window>>)
    ensures AllTrack(exponents, sliders, windows, [], 0, 0)
    ensures SM.Distinct(sliders) && forall i :: 0 <= i < |sliders| ==> fresh(sliders[i])
  {
    hide Tracks;
    sliders, windows := [], [];
    for i := 0 to |exponents|
      invariant AllTrack(exponents[..i], sliders, windows, [], 0, 0)
      invariant SM.Distinct(sliders) && forall k :: 0 <= k < |sliders| ==> fresh(sliders[k])
    {
      var s := PrepareExponent(exponents[i]);
      assert s !in sliders;
      sliders, windows := sliders + [s], windows + [[]];
    }
    assert exponents[..|exponents|] == exponents;
  }

  method PrepareExponent(e: nat) returns (s: WindowSlider)
    ensures fresh(s) && Tracks(s, e, [], [], 0)
  {
    s := new WindowSlider(e, true, 5);
    s.FindNextWindow(e);
  }

  /** The main loop: the windows of every exponent, and the bases they refer to. Only zero has no windows. */
  method ServeWindows<E(!new), T(==, !new)>(c: Curve<E, T>, base: E, exponents: seq<nat>)
    returns (windows: seq<seq<Window>>, bases: seq<ProjectivePoint<T>>, ghost positions: seq<nat>)
    requires c.Valid()
    ensures |windows| == |exponents| && BasesHold(c, base, bases, positions)
    ensures forall i :: 0 <= i < |windows| ==>
              && Indexed(windows[i], |positions|) && WindowSum(windows[i], positions) == exponents[i]
              && (windows[i] == [] <==> exponents[i] == 0)
  {
    hide Tracks, BasesHold, AllTrack, PowerOf, DoublePoint, Normal, SM.Distinct, WindowSum, Indexed;
    var sliders;
    sliders, windows := PrepareExponents(exponents);
    var rd := new ProjectiveDoubling(c.f, c.a, c.coordinates(base));
    bases, positions := [], [];
    NoBases(c, base);
    var position, notDone := 0, true;
    ghost var top, tracked := SM.MaxBitCount(exponents), 0;
    while notDone
      invariant AllTrack(exponents, sliders, windows, positions, tracked, 0) && (notDone ==> tracked == position)
      invariant BasesHold(c, base, bases, positions) && fresh(rd)
      invariant rd.Valid() && rd.f == c.f && rd.a == c.a && rd.Value() == c.coordinates(PowerOf(c, base, position))
      invariant notDone ==> position <= top
      invariant !notDone ==> forall i :: 0 <= i < |sliders| ==> sliders[i].finished
      decreases notDone, (top as int) - position
    {
      notDone, windows, bases, positions :=
        Sweep(c, base, exponents, sliders, windows, bases, positions, position, ProjectivePoint(rd.x, rd.y, rd.z));
      tracked := position + 1;
      if notDone {
        NextPower(c, base, position);
        rd.Double();
        position := position + 1;
      }
    }
    AllCollected(exponents, sliders, windows, positions, tracked);
  }

  lemma NoBases<E(!new), T(!new)>(c: Curve<E, T>, base: E)
    requires c.Valid()
    ensures BasesHold(c, base, [], []) && PowerOf(c, base, 0) == base
  {
    c.g.MultipleOne(base);
  }

  lemma AllCollected(exponents: seq<nat>, sliders: seq<WindowSlider>, windows: seq<seq<Window>>,
                     positions: seq<nat>, position: nat)
    requires AllTrack(exponents, sliders, windows, positions, position, 0)
    requires forall i :: 0 <= i < |sliders| ==> sliders[i].finished
    ensures |windows| == |exponents|
    ensures forall i :: 0 <= i < |windows| ==>
              && Indexed(windows[i], |positions|) && WindowSum(windows[i], positions) == exponents[i]
              && (windows[i] == [] <==> exponents[i] == 0)
  {
    forall i | 0 <= i < |windows|
      ensures && Indexed(windows[i], |positions|) && WindowSum(windows[i], positions) == exponents[i]
              && (windows[i] == [] <==> exponents[i] == 0)
    {
      assert Tracks(sliders[i], exponents[i], windows[i], positions, position);
    }
  }

  // ---- From projective to affine coordinates -----------------------------------------------------------

  /** The coordinates after conversion, where z keeps telling whether the point is the identity. */
  function Converted<T(==, !new)>(f: CurveField<T>, p: ProjectivePoint<T>): Point<T> {
    if p.z == f.mul.zero then Identity else Affine(p.x, p.y)
  }

  /** Divide by the square and the cube of z, given its inverse. */
  method Convert<T(==, !new)>(f: CurveField<T>, p: ProjectivePoint<T>, inverse: T) returns (r: ProjectivePoint<T>)
    requires f.Valid() && inverse == f.mul.inverse(p.z)
    ensures Converted(f, r) == Affinely(f, p)
  {
    f.mul.InverseNonzero(p.z);
    var x, y, z := p.x, p.y, inverse;
    if z != f.mul.zero {
      f.ProductNonzero(z, z);
      y := f.Times(y, z);
      z := f.Square(z);
      x := f.Times(x, z);
      y := f.Times(y, z);
    }
    r := ProjectivePoint(x, y, z);
  }

  method ConvertAll<T(0, ==, !new)>(f: CurveField<T>, bases: seq<ProjectivePoint<T>>) returns (r: seq<ProjectivePoint<T>>)
    requires f.Valid()
    ensures |r| == |bases| && forall i :: 0 <= i < |r| ==> Converted(f, r[i]) == Affinely(f, bases[i])
  {
    hide Converted, Affinely;
    var n := |bases|;
    var zs := new T[n](i requires 0 <= i < n => bases[i].z);
    ghost var before := zs[..];
    ParallelInvert(f.mul, zs);
    r := [];
    for i := 0 to n
      invariant |r| == i && zs.Length == n
      invariant forall k :: 0 <= k < n ==> zs[k] == f.mul.inverse(bases[k].z)
      invariant forall k :: 0 <= k < i ==> Converted(f, r[k]) == Affinely(f, bases[k])
    {
      var p := Convert(f, bases[i], zs[i]);
      r := r + [p];
    }
  }

  // ---- The cascade of one exponent ---------------------------------------------------------------------

  /** The base of a term: the point of the window, negated or not. */
  function TermBase<T(==, !new)>(f: CurveField<T>, p: ProjectivePoint<T>, negate: bool): Point<T> {
    if p.z == f.mul.zero then Identity
    else Affine(p.x, if negate then f.subtract(f.mul.zero, p.y) else p.y)
  }

  function TermOf<E(!new), T(==, !new)>(c: Curve<E, T>, affine: seq<ProjectivePoint<T>>, w: Window): Term<E>
    requires w.index < |affine|
  {
    Term(c.point(TermBase(c.f, affine[w.index], w.negate)), w.digit)
  }

  ghost predicate AffineHold<E(!new), T(!new)>(c: Curve<E, T>, base: E, affine: seq<ProjectivePoint<T>>, positions: seq<nat>) {
    && |affine| == |positions|
    && forall i :: 0 <= i < |affine| ==> Converted(c.f, affine[i]) == c.coordinates(PowerOf(c, base, positions[i]))
  }

  /** A term is its digit times the weight of its window times the base. */
  lemma TermValue<E(!new), T(!new)>(c: Curve<E, T>, base: E, affine: seq<ProjectivePoint<T>>, positions: seq<nat>, w: Window)
    requires c.Valid() && AffineHold(c, base, affine, positions) && w.index < |positions|
    ensures GeneralCascade.Value(c.g, TermOf(c, affine, w)) == c.g.Multiple(w.digit * Weight(w, positions), base)
  {
    var p := Pow2(positions[w.index]);
    var e := c.g.Multiple(p, base);
    assert c.HasCoordinates(e) && c.HasCoordinates(c.g.inverse(e));
    assert Converted(c.f, affine[w.index]) == c.coordinates(e);
    c.g.MultipleNegate(p, base);
    assert TermOf(c, affine, w).base == c.g.Multiple(Weight(w, positions), base);
    c.g.MultipleMul(w.digit, Weight(w, positions), base);
  }

  lemma {:induction false} TermsSum<E(!new), T(!new)>(c: Curve<E, T>, base: E, affine: seq<ProjectivePoint<T>>,
                                                      positions: seq<nat>, ws: seq<Window>, terms: seq<Term<E>>)
    requires c.Valid() && AffineHold(c, base, affine, positions) && Indexed(ws, |positions|)
    requires |terms| == |ws| && forall j :: 0 <= j < |ws| ==> ws[j].index < |affine| && terms[j] == TermOf(c, affine, ws[j])
    ensures GeneralCascade.Sum(c.g, terms) == c.g.Multiple(WindowSum(ws, positions), base)
  {
    hide AffineHold;
    if ws != [] {
      var n := |ws| - 1;
      TermsSum(c, base, affine, positions, ws[..n], terms[..n]);
      TermValue(c, base, affine, positions, ws[n]);
      c.g.MultipleAdd(WindowSum(ws[..n], positions), ws[n].digit * Weight(ws[n], positions), base);
    }
  }

  method Cascade<E(!new), T(==, !new)>(c: Curve<E, T>, ghost base: E, affine: seq<ProjectivePoint<T>>,
                                          ghost positions: seq<nat>, ws: seq<Window>) returns (r: E)
    requires c.Valid() && AffineHold(c, base, affine, positions) && Indexed(ws, |positions|) && ws != []
    ensures r == c.g.Multiple(WindowSum(ws, positions), base)
  {
    hide WindowSum;
    var terms := new Term<E>[|ws|](j requires 0 <= j < |ws| && Indexed(ws, |affine|) => TermOf(c, affine, ws[j]));
    TermsSum(c, base, affine, positions, ws, terms[..]);
    r := GeneralCascade.GeneralCascadeMultiplication(c.g, terms);
  }

  /**
   results[i] is exponents[i] * base, for every curve whose points are an abelian group.  An exponent of zero has no
   windows, and the source has no cascade of no terms.
   */
  method SimultaneousMultiply<E(!new), T(0, ==, !new)>(c: Curve<E, T>, base: E, exponents: seq<nat>)
    returns (results: seq<E>)
    requires c.Valid() && forall i :: 0 <= i < |exponents| ==> exponents[i] > 0
    ensures |results| == |exponents|
    ensures forall i :: 0 <= i < |exponents| ==> results[i] == c.g.Times(exponents[i], base)
  {
    hide BasesHold, AffineHold, Indexed, Affinely, Converted;
    var windows, bases;
    ghost var positions;
    windows, bases, positions := ServeWindows(c, base, exponents);
    var affine := ConvertAll(c.f, bases);
    ConvertedHold(c, base, bases, affine, positions);
    results := [];
    for i := 0 to |exponents|
      invariant |results| == i
      invariant forall k :: 0 <= k < i ==> results[k] == c.g.Times(exponents[k], base)
    {
      var r := Cascade(c, base, affine, positions, windows[i]);
      results := results + [r];
    }
  }

  lemma ConvertedHold<E(!new), T(!new)>(c: Curve<E, T>, base: E, bases: seq<ProjectivePoint<T>>,
                                        affine: seq<ProjectivePoint<T>>, positions: seq<nat>)
    requires BasesHold(c, base, bases, positions) && |affine| == |bases|
    requires forall i :: 0 <= i < |affine| ==> Converted(c.f, affine[i]) == Affinely(c.f, bases[i])
    ensures AffineHold(c, base, affine, positions)
  {
    hide Converted, Affinely, PowerOf;
  }

  /** ECP::ScalarMultiply: small exponents go another way, so that zero is among those. */
  method ScalarMultiply<E(!new), T(0, ==, !new)>(c: Curve<E, T>, base: E, k: nat) returns (r: E)
    requires c.Valid()
    ensures r == c.g.Times(k, base)
  {
    var results;
    if BitCount(k) <= 5 {
      results := SM.SimultaneousMultiply(c.g, base, [k]);
    } else {
      results := SimultaneousMultiply(c, base, [k]);
    }
    r := results[0];
  }
}
