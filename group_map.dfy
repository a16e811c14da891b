/**
 * `group_map`: a deterministic map from a base-field element t to a point of
 * the curve y^2 = x^3 + a x + b, in the Shallue-van de Woestijne /
 * Fouque-Tibouchi family.  The constructor searches for the least u >= 1
 * with curve_eqn(u) != 0 and precomputes constants from it; each call forms
 * three candidate x-coordinates and returns the first whose square-root
 * check passes, or the sentinel (0, 0, 1) when none does.
 *
 * Inversion and square root come from the external backend (see
 * `FieldArith.Backend`); no property of the square root is assumed.
 */
module PicklesGroupMap {
  import opened FieldArith

  /** The base field's modulus p and the coefficients of y^2 = x^3 + a x + b. */
  datatype Curve = Curve(p: nat, a: int, b: int)

  /** The map divides by 2 and by 3u^2, so the field's characteristic is not 2 or 3. */
  predicate ValidCurve(c: Curve) {
    c.p >= 5
  }

  /** A group element as `(x, y, z)`; the map always returns z = 1. */
  datatype Point = Point(x: int, y: int, z: int)

  /** What `get_xy` returns when no candidate passes. */
  function Sentinel(): Point {
    Point(0, 0, 1)
  }

  /** The right-hand side as the on-curve check writes it: `x.pow(3) + a * x + b`. */
  function CurveRhs(c: Curve, x: int): (r: int)
    requires c.p > 0
    ensures IsElem(r, c.p)
  {
    Add(Add(Mul(Mul(x, x, c.p), x, c.p), Mul(c.a, x, c.p), c.p), c.b, c.p)
  }

  /**
   * `curve_eqn`: Horner evaluation ((x * x + a) * x) + b, one field operation
   * at a time; it agrees with the polynomial of the on-curve check.
   */
  method CurveEqn(c: Curve, x: int) returns (res: int)
    requires c.p > 0
    ensures res == CurveRhs(c, x)
  {
    var p := c.p;
    res := x;
    res := Mul(res, x, p);
    res := Add(res, c.a, p);
    res := Mul(res, x, p);
    res := Add(res, c.b, p);
    HornerIsPolynomial(c, x);
  }

  lemma HornerIsPolynomial(c: Curve, x: int)
    requires c.p > 0
    ensures Add(Mul(Add(Mul(x, x, c.p), c.a, c.p), x, c.p), c.b, c.p) == CurveRhs(c, x)
  {
    HornerAsInteger(x, c.a, c.b, c.p);
    PolynomialAsInteger(x, c.a, c.b, c.p);
    HornerExpands(x, c.a, c.b);
  }

  lemma HornerAsInteger(x: int, a: int, b: int, p: nat)
    requires p > 0
    ensures Add(Mul(Add(Mul(x, x, p), a, p), x, p), b, p) == ((x * x + a) * x + b) % p
  {
    AddModL(x * x, a, p);
    MulModL(x * x + a, x, p);
    AddModL((x * x + a) * x, b, p);
  }

  lemma PolynomialAsInteger(x: int, a: int, b: int, p: nat)
    requires p > 0
    ensures Add(Add(Mul(Mul(x, x, p), x, p), Mul(a, x, p), p), b, p) == (x * x * x + a * x + b) % p
  {
    MulModL(x * x, x, p);
    AddModL(x * x * x, (a * x) % p, p);
    AddModR(x * x * x, a * x, p);
    AddModL(x * x * x + a * x, b, p);
  }

  lemma HornerExpands(x: int, a: int, b: int)
    ensures (x * x + a) * x + b == x * x * x + a * x + b
  {
  }

  /** The search of the constructor is bounded: one of 1, 2, 3, 4 is not a root. */
  predicate HasSmallNonRoot(c: Curve)
    requires c.p > 0
  {
    exists k :: 1 <= k <= 4 && CurveRhs(c, k) != 0
  }

  /** The least k' in [k, 4] with curve_eqn(k') != 0. */
  function LeastNonRootFrom(c: Curve, k: nat): (u: nat)
    requires c.p > 0 && 1 <= k <= 4
    requires exists j :: k <= j <= 4 && CurveRhs(c, j) != 0
    ensures k <= u <= 4 && CurveRhs(c, u) != 0
    ensures forall j :: k <= j < u ==> CurveRhs(c, j) == 0
    decreases 4 - k
  {
    if CurveRhs(c, k) != 0 then k
    else
      assert exists j :: k + 1 <= j <= 4 && CurveRhs(c, j) != 0;
      LeastNonRootFrom(c, k + 1)
  }

  /** The least u >= 1 with curve_eqn(u) != 0. */
  function LeastNonRoot(c: Curve): (u: nat)
    requires c.p > 0 && HasSmallNonRoot(c)
    ensures 1 <= u <= 4 && CurveRhs(c, u) != 0
    ensures forall j :: 1 <= j < u ==> CurveRhs(c, j) == 0
  {
    LeastNonRootFrom(c, 1)
  }

  class GroupMap {
    const curve: Curve
    const backend: Backend
    const u: int
    const fu: int
    const sqrtNegThreeUSquaredMinusUOver2: int
    const sqrtNegThreeUSquared: int
    const invThreeUSquared: int

    /** `value_type(3) * u.squared()`. */
    function ThreeUSquared(): (r: int)
      requires curve.p > 0
      ensures IsElem(r, curve.p)
    {
      Mul(3, Square(u, curve.p), curve.p)
    }

    /** How the constructor relates the precomputed constants to the curve. */
    predicate Valid() {
      && ValidCurve(curve)
      && HasSmallNonRoot(curve)
      && u == LeastNonRoot(curve)
      && fu == CurveRhs(curve, u)
      && invThreeUSquared == Inv(backend, ThreeUSquared(), curve.p)
      && sqrtNegThreeUSquared == Sqrt(backend, Neg(ThreeUSquared(), curve.p), curve.p)
      && sqrtNegThreeUSquaredMinusUOver2
         == Mul(Sub(sqrtNegThreeUSquared, u, curve.p), Inv(backend, 2, curve.p), curve.p)
    }

    /**
     * The constructor: u is the least value >= 1 with curve_eqn(u) != 0,
     * fu = curve_eqn(u), and the other constants are derived from u.
     */
    constructor (curve: Curve, backend: Backend)
      requires ValidCurve(curve) && HasSmallNonRoot(curve)
      ensures this.curve == curve && this.backend == backend
      ensures Valid()
      ensures u == LeastNonRoot(curve) && fu == CurveRhs(curve, u) && fu != 0
    {
      var p := curve.p;
      var u: int := 1;
      var fu: int := 0;
      ghost var least := LeastNonRoot(curve);
      while true
        invariant 1 <= u <= least
        invariant forall j :: 1 <= j < u ==> CurveRhs(curve, j) == 0
        decreases least - u
      {
        fu := CurveEqn(curve, u);
        if fu != 0 {
          break;
        }
        ModOfElem(u + 1, p);
        u := Add(u, 1, p);
      }
      assert u == least && fu == CurveRhs(curve, u);
      var threeUSquared := Mul(3, Square(u, p), p);
      this.curve := curve;
      this.backend := backend;
      this.u := u;
      this.fu := fu;
      this.invThreeUSquared := Inv(backend, threeUSquared, p);
      var sqrtNeg := Sqrt(backend, Neg(threeUSquared, p), p);
      this.sqrtNegThreeUSquared := sqrtNeg;
      this.sqrtNegThreeUSquaredMinusUOver2 := Mul(Sub(sqrtNeg, u, p), Inv(backend, 2, p), p);
    }

    /** `potential_xs_helper`: the three candidate x-coordinates, x1 using t2^2 = t^4. */
    function PotentialXsHelper(t2: int, alpha: int): (xs: seq<int>)
      requires Valid()
      ensures |xs| == 3
      ensures forall i :: 0 <= i < 3 ==> IsElem(xs[i], curve.p)
      ensures Add(xs[0], xs[1], curve.p) == Neg(u, curve.p)
    {
      var p := curve.p;
      var x1 := Sub(sqrtNegThreeUSquaredMinusUOver2,
                    Mul(Mul(Square(t2, p), alpha, p), sqrtNegThreeUSquared, p), p);
      var x2 := Sub(Neg(u, p), x1, p);
      var t2PlusFu := Add(t2, fu, p);
      var x3 := Sub(u, Mul(Mul(Mul(Square(t2PlusFu, p), alpha, p), t2PlusFu, p), invThreeUSquared, p), p);
      SumOfFirstTwo(x1, Neg(u, p), p);
      [x1, x2, x3]
    }

    /** `potential_xs`: t2 = t^2 and alpha = ((t2 + fu) * t2)^-1. */
    function PotentialXs(t: int): (xs: seq<int>)
      requires Valid()
      ensures |xs| == 3
      ensures forall i :: 0 <= i < 3 ==> IsElem(xs[i], curve.p)
      ensures Add(xs[0], xs[1], curve.p) == Neg(u, curve.p)
    {
      var p := curve.p;
      var t2 := Square(t, p);
      var alpha := Inv(backend, Mul(Add(t2, fu, p), t2, p), p);
      PotentialXsHelper(t2, alpha)
    }

    /** `get_y`: the backend's square root of curve_eqn(x). */
    function GetY(x: int): (y: int)
      requires Valid()
      ensures IsElem(y, curve.p)
    {
      Sqrt(backend, CurveRhs(curve, x), curve.p)
    }

    /** The check of `get_xy`: the square of y = sqrt(curve_eqn(x)) is x^3 + a x + b. */
    predicate Accepts(x: int)
      requires Valid()
    {
      Square(GetY(x), curve.p) == CurveRhs(curve, x)
    }

    /** The point for the first accepted candidate, in order, or the sentinel. */
    function FirstOnCurve(xs: seq<int>): Point
      requires Valid()
    {
      if xs == [] then Sentinel()
      else if Accepts(xs[0]) then Point(xs[0], GetY(xs[0]), 1)
      else FirstOnCurve(xs[1..])
    }

    /** `get_xy`: tries x1, x2, x3 in order and returns the first that passes. */
    method GetXY(t: int) returns (pt: Point)
      requires Valid()
      ensures pt == FirstOnCurve(PotentialXs(t))
    {
      var p := curve.p;
      var xvec := PotentialXs(t);
      for i := 0 to |xvec|
        invariant FirstOnCurve(xvec) == FirstOnCurve(xvec[i..])
      {
        assert xvec[i..][1..] == xvec[i + 1..];
        var x := xvec[i];
        var rhs := CurveEqn(curve, x);
        var y := Sqrt(backend, rhs, p);
        if Square(y, p) == CurveRhs(curve, x) {
          return Point(x, y, 1);
        }
      }
      return Point(0, 0, 1);
    }

    /**
     * `to_group`: the same point as `get_xy`; unless it is the sentinel, it
     * lies on the curve and its x is one of the three candidates.
     */
    method ToGroup(t: int) returns (pt: Point)
      requires Valid()
      ensures pt == FirstOnCurve(PotentialXs(t))
      ensures pt == Sentinel() || (pt.x in PotentialXs(t) && OnCurve(curve, pt))
    {
      pt := GetXY(t);
      FirstOnCurveIsOnCurve(this, PotentialXs(t));
    }
  }

  /** An affine point (z = 1) that satisfies y^2 = x^3 + a x + b. */
  predicate OnCurve(c: Curve, pt: Point)
    requires c.p > 0
  {
    pt.z == 1 && Square(pt.y, c.p) == CurveRhs(c, pt.x)
  }

  /**
   * With a backend that inverts non-zero elements, 3u^2 is non-zero,
   * invThreeUSquared is its inverse, and sqrtNegThreeUSquaredMinusUOver2
   * doubled is sqrtNegThreeUSquared - u.  Whether sqrtNegThreeUSquared is a
   * square root of -3u^2 depends on the backend, about which nothing is assumed.
   */
  lemma DerivedConstants(g: GroupMap)
    requires g.Valid() && InvertsNonZero(g.backend, g.curve.p)
    ensures g.ThreeUSquared() != 0
    ensures Mul(g.invThreeUSquared, g.ThreeUSquared(), g.curve.p) == 1
    ensures Mul(2, g.sqrtNegThreeUSquaredMinusUOver2, g.curve.p)
            == Sub(g.sqrtNegThreeUSquared, g.u, g.curve.p)
  {
    var p, be := g.curve.p, g.backend;
    NoZeroDivisors(be, g.u, g.u, p);
    NoZeroDivisors(be, 3, Square(g.u, p), p);
    var t := g.ThreeUSquared();
    assert Mul(t, Inv(be, t, p), p) == 1;
    TimesInverse(be, 2, Sub(g.sqrtNegThreeUSquared, g.u, p), p);
  }

  /** t^2 and t^2 + fu are non-zero, so ((t^2 + fu) * t^2) has an inverse alpha. */
  predicate Regular(g: GroupMap, t: int)
    requires g.Valid()
  {
    IsElem(t, g.curve.p) && t != 0 && Add(Square(t, g.curve.p), g.fu, g.curve.p) != 0
  }

  /** With a backend that inverts non-zero elements: alpha * (t^2 + fu) * t^2 == 1 modulo p. */
  lemma AlphaInverts(g: GroupMap, t: int)
    requires g.Valid() && InvertsNonZero(g.backend, g.curve.p) && Regular(g, t)
    ensures var p := g.curve.p;
            var t2 := Square(t, p);
            var w := Add(t2, g.fu, p);
            (w * t2 * Inv(g.backend, Mul(w, t2, p), p)) % p == 1
  {
    var p := g.curve.p;
    var t2 := Square(t, p);
    var w := Add(t2, g.fu, p);
    NoZeroDivisors(g.backend, t, t, p);
    NoZeroDivisors(g.backend, w, t2, p);
    var m := Mul(w, t2, p);
    var alpha := Inv(g.backend, m, p);
    assert Mul(m, alpha, p) == 1;
    MulModL(w * t2, alpha, p);
  }

  /**
   * x1 = c0 - t^2 * sqrt(-3u^2) / (t^2 + fu), written without division:
   * (x1 - c0) * (t^2 + fu) == -(t^2 * sqrt(-3u^2)).
   */
  lemma FirstCandidate(g: GroupMap, t: int)
    requires g.Valid() && InvertsNonZero(g.backend, g.curve.p) && Regular(g, t)
    ensures var p := g.curve.p;
            var t2 := Square(t, p);
            Mul(Sub(g.PotentialXs(t)[0], g.sqrtNegThreeUSquaredMinusUOver2, p), Add(t2, g.fu, p), p)
            == Neg(Mul(t2, g.sqrtNegThreeUSquared, p), p)
  {
    var p := g.curve.p;
    var t2 := Square(t, p);
    var w := Add(t2, g.fu, p);
    var alpha := Inv(g.backend, Mul(w, t2, p), p);
    var s, c0 := g.sqrtNegThreeUSquared, g.sqrtNegThreeUSquaredMinusUOver2;
    var k := Mul(Mul(Square(t2, p), alpha, p), s, p);
    assert g.PotentialXs(t)[0] == Sub(c0, k, p);
    SubThenSubBack(c0, k, p);
    NegTimes(k, w, p);
    AlphaInverts(g, t);
    KTimesW(t2, alpha, s, w, p);
  }

  lemma KTimesW(t2: int, alpha: int, s: int, w: int, p: nat)
    requires p > 0 && (w * t2 * alpha) % p == 1
    ensures Mul(Mul(Mul(Square(t2, p), alpha, p), s, p), w, p) == Mul(t2, s, p)
  {
    MulModL(t2 * t2, alpha, p);
    MulModL(t2 * t2 * alpha, s, p);
    MulModL(t2 * t2 * alpha * s, w, p);
    assert t2 * t2 * alpha * s * w == (t2 * s) * (w * t2 * alpha);
    MulByUnit(t2 * s, w * t2 * alpha, p);
  }

  /**
   * x3 = u - (t^2 + fu)^2 / (3u^2 t^2), written without division:
   * (u - x3) * 3u^2 * t^2 == (t^2 + fu)^2.
   */
  lemma ThirdCandidate(g: GroupMap, t: int)
    requires g.Valid() && InvertsNonZero(g.backend, g.curve.p) && Regular(g, t)
    ensures var p := g.curve.p;
            var t2 := Square(t, p);
            Mul(Mul(Sub(g.u, g.PotentialXs(t)[2], p), g.ThreeUSquared(), p), t2, p)
            == Square(Add(t2, g.fu, p), p)
  {
    var p := g.curve.p;
    var t2 := Square(t, p);
    var w := Add(t2, g.fu, p);
    var alpha := Inv(g.backend, Mul(w, t2, p), p);
    var j := Mul(Mul(Mul(Square(w, p), alpha, p), w, p), g.invThreeUSquared, p);
    assert g.PotentialXs(t)[2] == Sub(g.u, j, p);
    SubSubIsOriginal(g.u, j, p);
    AlphaInverts(g, t);
    DerivedConstants(g);
    JTimesDenominator(w, alpha, g.invThreeUSquared, g.ThreeUSquared(), t2, p);
  }

  lemma JTimesDenominator(w: int, alpha: int, inv3: int, three: int, t2: int, p: nat)
    requires p > 0 && (w * t2 * alpha) % p == 1 && (inv3 * three) % p == 1
    ensures Mul(Mul(Mul(Mul(Mul(Square(w, p), alpha, p), w, p), inv3, p), three, p), t2, p)
            == Square(w, p)
  {
    MulModL(w * w, alpha, p);
    MulModL(w * w * alpha, w, p);
    MulModL(w * w * alpha * w, inv3, p);
    MulModL(w * w * alpha * w * inv3, three, p);
    MulModL(w * w * alpha * w * inv3 * three, t2, p);
    assert w * w * alpha * w * inv3 * three * t2 == ((w * w) * (w * t2 * alpha)) * (inv3 * three);
    MulByUnit((w * w) * (w * t2 * alpha), inv3 * three, p);
    MulByUnit(w * w, w * t2 * alpha, p);
  }

  /** `get_xy` returns the sentinel when no candidate passes. */
  lemma {:induction false} NoneAcceptedGivesSentinel(g: GroupMap, xs: seq<int>)
    requires g.Valid()
    requires forall j :: 0 <= j < |xs| ==> !g.Accepts(xs[j])
    ensures g.FirstOnCurve(xs) == Sentinel()
  {
    if xs != [] {
      assert !g.Accepts(xs[0]);
      forall j | 0 <= j < |xs[1..]| ensures !g.Accepts(xs[1..][j]) {
        assert xs[1..][j] == xs[j + 1];
      }
      NoneAcceptedGivesSentinel(g, xs[1..]);
    }
  }

  /** `get_xy` returns the point of the first candidate, in order, that passes. */
  lemma {:induction false} FirstAcceptedIsChosen(g: GroupMap, xs: seq<int>, i: nat)
    requires g.Valid()
    requires i < |xs| && g.Accepts(xs[i])
    requires forall j :: 0 <= j < i ==> !g.Accepts(xs[j])
    ensures g.FirstOnCurve(xs) == Point(xs[i], g.GetY(xs[i]), 1)
    decreases i
  {
    if i > 0 {
      assert !g.Accepts(xs[0]);
      assert xs[1..][i - 1] == xs[i];
      forall j | 0 <= j < i - 1 ensures !g.Accepts(xs[1..][j]) {
        assert xs[1..][j] == xs[j + 1];
      }
      FirstAcceptedIsChosen(g, xs[1..], i - 1);
    }
  }

  /** A point other than the sentinel is on the curve, with x among the candidates. */
  lemma {:induction false} FirstOnCurveIsOnCurve(g: GroupMap, xs: seq<int>)
    requires g.Valid()
    ensures var r := g.FirstOnCurve(xs);
            r == Sentinel() || (r.x in xs && OnCurve(g.curve, r))
  {
    if xs != [] && !g.Accepts(xs[0]) {
      FirstOnCurveIsOnCurve(g, xs[1..]);
    }
  }

  lemma SumOfFirstTwo(x1: int, negU: int, p: nat)
    requires p > 0 && IsElem(x1, p) && IsElem(negU, p)
    ensures Add(x1, Sub(negU, x1, p), p) == negU
  {
    AddModR(x1, negU - x1, p);
    ModOfElem(negU, p);
  }
}
