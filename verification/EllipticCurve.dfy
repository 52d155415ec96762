/** Chord-and-tangent addition over a prime field, as the Python class computes it. */
module EllipticCurve {
  import opened Modular
  import opened NumberTheory
  import opened Fermat
  import opened Inverses

  datatype Curve = Curve(a: int, b: int, p: int)

  /** The identity is the pair of two missing coordinates. */
  datatype Point = Identity | Affine(x: int, y: int)

  function Cubic(c: Curve, x: int): int {
    x * x * x + c.a * x + c.b
  }

  /** What the constructor checks, on top of the modulus being a prime above three. */
  ghost predicate ValidCurve(c: Curve) {
    Prime(c.p) && 3 < c.p && Nonsingular(c)
  }

  predicate Nonsingular(c: Curve)
    requires c.p != 0
  {
    (4 * (c.a * c.a * c.a) + 27 * (c.b * c.b)) % c.p != 0
  }

  predicate IsOnCurve(c: Curve, x: int, y: int)
    requires c.p != 0
  {
    (y * y - Cubic(c, x)) % c.p == 0
  }

  ghost predicate OnCurve(c: Curve, x: int, y: int) {
    Cong(y * y, Cubic(c, x), c.p)
  }

  ghost predicate Reduced(c: Curve, pt: Point) {
    pt.Affine? ==> 0 <= pt.x < c.p && 0 <= pt.y < c.p
  }

  /** A reduced point of the curve, or the identity. */
  ghost predicate ValidPoint(c: Curve, pt: Point) {
    Reduced(c, pt) && (pt.Affine? ==> OnCurve(c, pt.x, pt.y))
  }

  lemma IsOnCurveMeans(c: Curve, x: int, y: int)
    requires 0 < c.p
    ensures IsOnCurve(c, x, y) <==> OnCurve(c, x, y)
  {
    DividesIffMod(c.p, y * y - Cubic(c, x));
  }

  /** `pow(x, p - 2, p)` */
  function InverseMod(x: int, p: int): int
    requires 2 <= p
  {
    Pow(x, p - 2) % p
  }

  function Slope(c: Curve, x1: int, y1: int, x2: int, y2: int): int
    requires 2 <= c.p
  {
    if x1 == x2 then (3 * (x1 * x1) + c.a) * InverseMod(2 * y1, c.p) % c.p
    else (y2 - y1) * InverseMod(x2 - x1, c.p) % c.p
  }

  /** The reflected third intersection of the line of slope `m` through the first point. */
  function Third(c: Curve, m: int, x1: int, y1: int, x2: int): Point
    requires 0 < c.p
  {
    var x3 := (m * m - x1 - x2) % c.p;
    var y3 := (m * (x1 - x3) - y1) % c.p;
    Affine(x3, y3)
  }

  function Add(c: Curve, u: Point, v: Point): Point
    requires 2 <= c.p
  {
    if u.Identity? then v
    else if v.Identity? then u
    else if u.x == v.x && u.y != v.y then Identity
    else Third(c, Slope(c, u.x, u.y, v.x, v.y), u.x, u.y, v.x)
  }

  function Negate(c: Curve, pt: Point): Point
    requires 0 < c.p
  {
    match pt
    case Identity => Identity
    case Affine(x, y) => Affine(x, -y % c.p)
  }

  // ----- The inverse

  /** Fermat's inverse is the inverse of every non-multiple, and zero otherwise. */
  lemma FermatInverse(x: int, p: int)
    requires Prime(p) && 2 < p
    ensures !Divides(p, x) ==> IsInverse(InverseMod(x, p), x, p)
    ensures Divides(p, x) ==> InverseMod(x, p) == 0
  {
    var w := Pow(x, p - 2);
    CongMod(w, p);
    if Divides(p, x) {
      DividesPow(p, x, p - 2);
      DividesIffMod(p, w);
    } else {
      LittleTheorem(p, x);
      assert x * w == Pow(x, p - 1);
      CongRefl(x, p);
      CongMul(x, x, w % p, w, p);
      CongTrans(x * (w % p), x * w, 1, p);
    }
  }

  /** Multiplying by the inverse divides. */
  lemma Quotients(z: int, inv: int, w: int, p: int)
    requires 0 < p && Cong(z * inv, 1, p)
    ensures Cong((w * inv % p) * z, w, p)
  {
    CongMod(w * inv, p);
    CongRefl(z, p);
    CongMul(w * inv % p, w * inv, z, z, p);
    CongRefl(w, p);
    CongMul(w, w, z * inv, 1, p);
    assert (w * inv) * z == w * (z * inv);
    CongTrans((w * inv % p) * z, (w * inv) * z, w, p);
  }

  lemma NotMultiple(p: int, n: int)
    requires Prime(p) && n != 0 && -p < n < p
    ensures !Divides(p, n)
  {
    if Divides(p, n) {
      SmallMultiple(p, n);
    }
  }

  lemma TwiceNotMultiple(p: int, y: int)
    requires Prime(p) && 2 < p && 0 < y < p
    ensures !Divides(p, 2 * y)
  {
    if Divides(p, 2 * y) {
      EuclidLemma(p, 2, y);
      NotMultiple(p, 2);
      NotMultiple(p, y);
    }
  }

  // ----- Slopes

  lemma ChordSlope(c: Curve, x1: int, y1: int, x2: int, y2: int)
    requires Prime(c.p) && 2 < c.p && x1 != x2 && !Divides(c.p, x2 - x1)
    ensures var m := Slope(c, x1, y1, x2, y2);
            0 <= m < c.p && Cong(m * (x2 - x1), y2 - y1, c.p)
  {
    FermatInverse(x2 - x1, c.p);
    Quotients(x2 - x1, InverseMod(x2 - x1, c.p), y2 - y1, c.p);
  }

  lemma TangentSlope(c: Curve, x: int, y: int)
    requires Prime(c.p) && 2 < c.p && !Divides(c.p, 2 * y)
    ensures var m := Slope(c, x, y, x, y);
            0 <= m < c.p && Cong(m * (2 * y), 3 * (x * x) + c.a, c.p)
  {
    FermatInverse(2 * y, c.p);
    Quotients(2 * y, InverseMod(2 * y, c.p), 3 * (x * x) + c.a, c.p);
  }

  // ----- Closure

  /** The offset of the third intersection of a line of slope `l` that meets the
      curve at abscissa `x` and again at offset `u` from it. */
  function ThirdOffset(x: int, l: int, u: int): int {
    l * l - 3 * x - u
  }

  /** The factor left over when the line of slope `l` through (x, y) meets the
      curve at offset `u`; at offset zero it vanishes for the tangent. */
  function Residual(c: Curve, x: int, y: int, l: int, u: int): int {
    2 * (y * l) - 3 * (x * x) - c.a + u * ThirdOffset(x, l, u)
  }

  lemma SquareOfSum(y: int, w: int)
    ensures (y + w) * (y + w) == y * y + 2 * (y * w) + w * w
  {}

  lemma CubeOfSum(x: int, u: int)
    ensures (x + u) * (x + u) * (x + u) == x * x * x + 3 * (x * x * u) + 3 * (u * u * x) + u * u * u
  {
    SquareOfSum(x, u);
    assert (x * x + 2 * (x * u) + u * u) * (x + u)
        == x * x * x + x * x * u + 2 * (x * u) * x + 2 * (x * u) * u + u * u * x + u * u * u;
  }

  lemma ResidualTimes(a: int, x: int, y: int, l: int, u: int, d: int)
    requires d == l * l - 3 * x - u
    ensures u * (2 * (y * l) - 3 * (x * x) - a + u * d)
         == 2 * (y * (l * u)) - 3 * (x * x * u) - a * u + (l * u) * (l * u) - 3 * (u * u * x) - u * u * u
  {
    assert u * (2 * (y * l) - 3 * (x * x) - a + u * d)
        == 2 * (y * l * u) - 3 * (x * x * u) - a * u + u * u * d;
    assert u * u * d == u * u * (l * l) - 3 * (u * u * x) - u * u * u;
    assert (l * u) * (l * u) == u * u * (l * l);
  }

  /** Moving along a line from (x, y). */
  lemma AlongLine(c: Curve, x: int, y: int, l: int, u: int)
    ensures (y + l * u) * (y + l * u) - Cubic(c, x + u)
         == (y * y - Cubic(c, x)) + u * Residual(c, x, y, l, u)
  {
    SquareOfSum(y, l * u);
    CubeOfSum(x, u);
    assert c.a * (x + u) == c.a * x + c.a * u;
    ResidualTimes(c.a, x, y, l, u, ThirdOffset(x, l, u));
  }

  /** The residual is symmetric in the two remaining intersections. */
  lemma ResidualSymmetric(c: Curve, x: int, y: int, l: int, u: int)
    ensures Residual(c, x, y, l, ThirdOffset(x, l, u)) == Residual(c, x, y, l, u)
  {
    assert ThirdOffset(x, l, ThirdOffset(x, l, u)) == u;
  }

  lemma OnCurveCong(c: Curve, x: int, y: int, x': int, y': int)
    requires 0 < c.p && Cong(x, x', c.p) && Cong(y, y', c.p)
    ensures OnCurve(c, x, y) <==> OnCurve(c, x', y')
  {
    CubicCong(c, x, x');
    CongMul(y, y', y, y', c.p);
    CongSym(y * y, y' * y', c.p);
    CongSym(Cubic(c, x), Cubic(c, x'), c.p);
    if OnCurve(c, x, y) {
      CongTrans(y' * y', y * y, Cubic(c, x), c.p);
      CongTrans(y' * y', Cubic(c, x), Cubic(c, x'), c.p);
    }
    if OnCurve(c, x', y') {
      CongTrans(y * y, y' * y', Cubic(c, x'), c.p);
      CongTrans(y * y, Cubic(c, x'), Cubic(c, x), c.p);
    }
  }

  lemma CubicCong(c: Curve, x: int, x': int)
    requires Cong(x, x', c.p)
    ensures Cong(Cubic(c, x), Cubic(c, x'), c.p)
  {
    CongMul(x, x', x, x', c.p);
    CongMul(x * x, x' * x', x, x', c.p);
    CongRefl(c.a, c.p);
    CongRefl(c.b, c.p);
    CongMul(c.a, c.a, x, x', c.p);
    CongAdd(x * x * x, x' * x' * x', c.a * x, c.a * x', c.p);
    CongAdd(x * x * x + c.a * x, x' * x' * x' + c.a * x', c.b, c.b, c.p);
  }

  lemma ThirdOffsetOf(m: int, x1: int, x2: int)
    ensures ThirdOffset(x1, m, x2 - x1) == m * m - x1 - x2 - x1
  {}

  /** A line through a curve point with vanishing residual leads to a curve point. */
  lemma ThirdOnCurve(c: Curve, m: int, x1: int, y1: int, x2: int)
    requires 0 < c.p && OnCurve(c, x1, y1)
    requires Divides(c.p, Residual(c, x1, y1, m, x2 - x1))
    ensures ValidPoint(c, Third(c, m, x1, y1, x2))
  {
    hide Divides, Residual, ThirdOffset;
    var p := c.p;
    var w := m * m - x1 - x2;
    var d := w - x1;
    ResidualSymmetric(c, x1, y1, m, x2 - x1);
    ThirdOffsetOf(m, x1, x2);
    AlongLine(c, x1, y1, m, d);
    DividesMul(p, Residual(c, x1, y1, m, d), d);
    DividesAdd(p, y1 * y1 - Cubic(c, x1), d * Residual(c, x1, y1, m, d));
    assert OnCurve(c, w, y1 + m * d);
    var t := Third(c, m, x1, y1, x2);
    ThirdCoordinates(c, m, x1, y1, x2);
    OnCurveCong(c, w, y1 + m * d, t.x, -t.y);
    assert (-t.y) * (-t.y) == t.y * t.y;
  }

  /** The reflected third point, before reduction. */
  lemma ThirdCoordinates(c: Curve, m: int, x1: int, y1: int, x2: int)
    requires 0 < c.p
    ensures var t := Third(c, m, x1, y1, x2);
            var w := m * m - x1 - x2;
            && t.Affine? && Reduced(c, t)
            && Cong(w, t.x, c.p)
            && Cong(y1 + m * (w - x1), -t.y, c.p)
            && Cong(m * (x1 - t.x) - y1, t.y, c.p)
  {
    hide Divides;
    var p := c.p;
    var w := m * m - x1 - x2;
    var t := Third(c, m, x1, y1, x2);
    CongMod(w, p);
    var y := m * (x1 - t.x) - y1;
    CongMod(y, p);
    CongRefl(m, p);
    CongRefl(x1, p);
    CongRefl(y1, p);
    CongAdd(w, t.x, x1, x1, p);
    CongMul(m, m, w - x1, t.x - x1, p);
    CongAdd(y1, y1, m * (w - x1), m * (t.x - x1), p);
    assert y1 + m * (t.x - x1) == -y by {
      assert m * (t.x - x1) == -(m * (x1 - t.x));
    }
    CongRefl(0, p);
    CongAdd(0, 0, y, t.y, p);
    assert 0 - y == -y && 0 - t.y == -t.y;
    CongTrans(y1 + m * (w - x1), -y, -t.y, p);
  }

  lemma ChordResidual(c: Curve, m: int, x1: int, y1: int, x2: int, y2: int)
    requires Prime(c.p) && OnCurve(c, x1, y1) && OnCurve(c, x2, y2)
    requires !Divides(c.p, x2 - x1) && Cong(m * (x2 - x1), y2 - y1, c.p)
    ensures Divides(c.p, Residual(c, x1, y1, m, x2 - x1))
  {
    var p, u := c.p, x2 - x1;
    CongRefl(y1, p);
    CongAdd(y1, y1, m * u, y2 - y1, p);
    CongRefl(x2, p);
    OnCurveCong(c, x2, y1 + m * u, x2, y2);
    AlongLine(c, x1, y1, m, u);
    DividesAdd(p, (y1 + m * u) * (y1 + m * u) - Cubic(c, x2), y1 * y1 - Cubic(c, x1));
    EuclidLemma(p, u, Residual(c, x1, y1, m, u));
  }

  lemma TangentResidual(c: Curve, m: int, x: int, y: int)
    requires Cong(m * (2 * y), 3 * (x * x) + c.a, c.p)
    ensures Divides(c.p, Residual(c, x, y, m, 0))
  {
    assert Residual(c, x, y, m, 0) == m * (2 * y) - (3 * (x * x) + c.a) by {
      assert m * (2 * y) == 2 * (y * m);
    }
  }

  /** Addition stays on the curve, doubling a point of order two apart. */
  lemma AddClosed(c: Curve, u: Point, v: Point)
    requires Prime(c.p) && 3 < c.p && ValidPoint(c, u) && ValidPoint(c, v)
    requires u.Identity? || u != v || u.y != 0
    ensures ValidPoint(c, Add(c, u, v))
  {
    if u.Affine? && v.Affine? && !(u.x == v.x && u.y != v.y) {
      var m := Slope(c, u.x, u.y, v.x, v.y);
      if u.x != v.x {
        NotMultiple(c.p, v.x - u.x);
        ChordSlope(c, u.x, u.y, v.x, v.y);
        ChordResidual(c, m, u.x, u.y, v.x, v.y);
      } else {
        TwiceNotMultiple(c.p, u.y);
        TangentSlope(c, u.x, u.y);
        TangentResidual(c, m, u.x, u.y);
      }
      ThirdOnCurve(c, m, u.x, u.y, v.x);
    }
  }
}
