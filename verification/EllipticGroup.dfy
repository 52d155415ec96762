/** The points of every nonsingular curve form an abelian group under `Sum`, the
    addition that also sends opposite points of ordinate zero to the identity.
    The addition of the source agrees with it except when it doubles such a point.
    Associativity is proved through lines: writing P and R as moves along two lines
    from Q makes every slope and every coordinate a polynomial in five parameters. */
module EllipticGroup {
  import opened Modular
  import opened NumberTheory
  import opened EllipticCurve
  import opened CurveIdentities

  ghost predicate Finite(c: Curve, pt: Point) {
    ValidPoint(c, pt) && pt.Affine?
  }

  /** The second point is the negation of the first, for points of the curve. */
  predicate Opposite(s: Point, t: Point) {
    s.Affine? && t.Affine? && s.x == t.x && (s.y != t.y || s.y == 0)
  }

  function Sum(c: Curve, s: Point, t: Point): Point
    requires 2 <= c.p
  {
    if Opposite(s, t) then Identity else Add(c, s, t)
  }

  /** The addition of the source is the group addition, one doubling apart. */
  lemma AddIsSum(c: Curve, s: Point, t: Point)
    requires 2 <= c.p
    ensures s.Identity? || s != t || s.y != 0 ==> Add(c, s, t) == Sum(c, s, t)
    ensures s.Affine? && s == t && s.y == 0 ==> Sum(c, s, t) == Identity != Add(c, s, t)
  {}

  /** A finite point whose coordinates are the residues of X and Y. */
  ghost predicate Represents(c: Curve, pt: Point, X: int, Y: int) {
    pt.Affine? && Cong(pt.x, X, c.p) && Cong(pt.y, Y, c.p)
  }

  lemma SamePoint(c: Curve, s: Point, t: Point, X: int, Y: int)
    requires Reduced(c, s) && Reduced(c, t) && Represents(c, s, X, Y) && Represents(c, t, X, Y)
    ensures s == t
  {
    hide Divides;
    CongSym(t.x, X, c.p);
    CongSym(t.y, Y, c.p);
    CongTrans(s.x, X, t.x, c.p);
    CongTrans(s.y, Y, t.y, c.p);
    CongUnique(s.x, t.x, c.p);
    CongUnique(s.y, t.y, c.p);
  }

  lemma RepresentsCong(c: Curve, s: Point, X: int, Y: int, X': int, Y': int)
    requires Represents(c, s, X, Y) && Cong(X, X', c.p) && Cong(Y, Y', c.p)
    ensures Represents(c, s, X', Y')
  {
    CongTrans(s.x, X, X', c.p);
    CongTrans(s.y, Y, Y', c.p);
  }

  // ----- Negation

  lemma NegateValid(c: Curve, s: Point)
    requires 0 < c.p && ValidPoint(c, s)
    ensures ValidPoint(c, Negate(c, s))
    ensures s.Affine? ==> Represents(c, Negate(c, s), s.x, -s.y)
  {
    hide Divides, Cubic;
    if s.Affine? {
      CongRefl(s.x, c.p);
      CongMod(-s.y, c.p);
      CongMul(-s.y % c.p, -s.y, -s.y % c.p, -s.y, c.p);
      assert (-s.y) * (-s.y) == s.y * s.y;
      CongTrans((-s.y % c.p) * (-s.y % c.p), s.y * s.y, Cubic(c, s.x), c.p);
    }
  }

  lemma NegateOrdinate(p: int, y: int)
    requires 0 < p && 0 <= y < p
    ensures -y % p == if y == 0 then 0 else p - y
  {
    if y == 0 {
      DivModUnique(0, p, 0, 0);
    } else {
      DivModUnique(-y, p, -1, p - y);
    }
  }

  /** On the curve, `Opposite` is negation. */
  lemma OppositeIsNegation(c: Curve, s: Point, t: Point)
    requires Prime(c.p) && 3 < c.p && Finite(c, s) && Finite(c, t)
    ensures Opposite(s, t) <==> t == Negate(c, s)
    ensures s.x == t.x ==> s == t || Opposite(s, t)
    ensures t == Negate(c, s) <==> s == Negate(c, t)
  {
    hide Divides, Cubic;
    var p := c.p;
    NegateOrdinate(p, s.y);
    NegateOrdinate(p, t.y);
    if s.x == t.x && s.y != t.y {
      CongSym(t.y * t.y, Cubic(c, t.x), p);
      CongTrans(s.y * s.y, Cubic(c, s.x), t.y * t.y, p);
      DifferenceOfSquares(s.y, t.y);
      EuclidLemma(p, s.y - t.y, s.y + t.y);
      NotMultiple(p, s.y - t.y);
      DividesBy(p, p, 1);
      DividesAdd(p, s.y + t.y, p);
      SmallMultiple(p, s.y + t.y - p);
    } else if 2 * s.y == p {
      DividesBy(2, p, s.y);
    }
  }

  lemma DifferenceOfSquares(y: int, z: int)
    ensures y * y - z * z == (y - z) * (y + z)
  {}

  // ----- No vertical tangent at a slope

  /** A common root of the cubic and of its derivative makes the curve singular. */
  lemma DoubleRootSingular(c: Curve, x: int)
    requires Divides(c.p, Cubic(c, x)) && Divides(c.p, 3 * (x * x) + c.a)
    ensures Divides(c.p, 4 * (c.a * c.a * c.a) + 27 * (c.b * c.b))
  {
    hide Divides, Cubic;
    var p, s, t := c.p, x * x, x * x * x;
    var a, b := c.a, c.b;
    DividesMul(p, 3 * s + a, x);
    DividesAdd(p, Cubic(c, x), (3 * s + a) * x);
    CubicSplit(c, x);
    assert Cong(a, -3 * s, p) by { assert a - -3 * s == 3 * s + a; }
    assert Cong(b, 2 * t, p) by { assert b - 2 * t == Cubic(c, x) - (3 * s + a) * x; }
    CongMul(a, -3 * s, a, -3 * s, p);
    CongMul(a * a, (-3 * s) * (-3 * s), a, -3 * s, p);
    CongMul(b, 2 * t, b, 2 * t, p);
    CongRefl(4, p);
    CongRefl(27, p);
    CongMul(4, 4, a * a * a, (-3 * s) * (-3 * s) * (-3 * s), p);
    CongMul(27, 27, b * b, (2 * t) * (2 * t), p);
    CongAdd(4 * (a * a * a), 4 * ((-3 * s) * (-3 * s) * (-3 * s)), 27 * (b * b), 27 * ((2 * t) * (2 * t)), p);
    DiscriminantCancels(x);
  }

  lemma CubicSplit(c: Curve, x: int)
    ensures Cubic(c, x) - (3 * (x * x) + c.a) * x == c.b - 2 * (x * x * x)
  {
    assert (3 * (x * x) + c.a) * x == 3 * (x * x * x) + c.a * x;
  }

  lemma DiscriminantCancels(x: int)
    ensures var s, t := x * x, x * x * x;
            4 * ((-3 * s) * (-3 * s) * (-3 * s)) + 27 * ((2 * t) * (2 * t)) == 0
  {
    var s, t := x * x, x * x * x;
    assert (-3 * s) * (-3 * s) * (-3 * s) == -27 * (s * s * s);
    assert (2 * t) * (2 * t) == 4 * (t * t);
    assert t * t == s * s * s;
  }

  lemma OrdinateZero(c: Curve, x: int)
    ensures OnCurve(c, x, 0) <==> Divides(c.p, Cubic(c, x))
  {
    hide Divides, Cubic;
    var f := Cubic(c, x);
    assert 0 * 0 - f == f * -1 && (0 * 0 - f) * -1 == f;
    if Divides(c.p, f) {
      DividesMul(c.p, f, -1);
    }
    if Divides(c.p, 0 * 0 - f) {
      DividesMul(c.p, 0 * 0 - f, -1);
    }
  }

  /** A point where a line is tangent to the curve has a nonzero ordinate. */
  lemma TangentNotVertical(c: Curve, s: Point, X: int, Y: int, l: int, u: int)
    requires ValidCurve(c) && Finite(c, s) && Represents(c, s, X, Y) && Cong(u, 0, c.p)
    requires Divides(c.p, Residual(c, X, Y, l, u))
    ensures s.y != 0
  {
    hide Divides, Residual, Cubic;
    TangentAgrees(c, s, X, Y, l, u);
    if s.y == 0 {
      OrdinateZero(c, s.x);
      CongSym(l * (2 * s.y), 3 * (s.x * s.x) + c.a, c.p);
      assert 3 * (s.x * s.x) + c.a - l * (2 * s.y) == 3 * (s.x * s.x) + c.a;
      DividesIffMod(c.p, 4 * (c.a * c.a * c.a) + 27 * (c.b * c.b));
      DoubleRootSingular(c, s.x);
    }
  }

  // ----- Commutativity

  lemma SlopeCommutes(c: Curve, s: Point, t: Point)
    requires Prime(c.p) && 3 < c.p && Reduced(c, s) && Reduced(c, t)
    requires s.Affine? && t.Affine? && s.x != t.x
    ensures Slope(c, s.x, s.y, t.x, t.y) == Slope(c, t.x, t.y, s.x, s.y)
  {
    hide Divides, Slope;
    var p, z := c.p, t.x - s.x;
    var m, m' := Slope(c, s.x, s.y, t.x, t.y), Slope(c, t.x, t.y, s.x, s.y);
    NotMultiple(p, z);
    NotMultiple(p, -z);
    ChordSlope(c, s.x, s.y, t.x, t.y);
    ChordSlope(c, t.x, t.y, s.x, s.y);
    DividesMul(p, m' * (s.x - t.x) - (s.y - t.y), -1);
    FlipChord(m', s.x, s.y, t.x, t.y);
    CancelSlope(p, m, z, t.y - s.y, m');
    CongUnique(m, m', p);
  }

  lemma FlipChord(m: int, x1: int, y1: int, x2: int, y2: int)
    ensures (m * (x1 - x2) - (y1 - y2)) * -1 == m * (x2 - x1) - (y2 - y1)
  {}

  lemma ThirdCommutes(c: Curve, m: int, x1: int, y1: int, x2: int, y2: int)
    requires 0 < c.p && Cong(m * (x2 - x1), y2 - y1, c.p)
    ensures Third(c, m, x1, y1, x2) == Third(c, m, x2, y2, x1)
  {
    hide Divides;
    var x3 := (m * m - x1 - x2) % c.p;
    DividesMul(c.p, m * (x2 - x1) - (y2 - y1), -1);
    LineShift(m, x1, y1, x2, y2, x3);
    CongIffMod(m * (x1 - x3) - y1, m * (x2 - x3) - y2, c.p);
  }

  lemma LineShift(m: int, x1: int, y1: int, x2: int, y2: int, x3: int)
    ensures (m * (x1 - x3) - y1) - (m * (x2 - x3) - y2) == (m * (x2 - x1) - (y2 - y1)) * -1
  {}

  /** The addition of the source is commutative on all reduced points. */
  lemma AddCommutes(c: Curve, s: Point, t: Point)
    requires Prime(c.p) && 3 < c.p && Reduced(c, s) && Reduced(c, t)
    ensures Add(c, s, t) == Add(c, t, s)
  {
    hide Divides, Slope, Third;
    if s.Affine? && t.Affine? && s.x != t.x {
      SlopeCommutes(c, s, t);
      NotMultiple(c.p, t.x - s.x);
      ChordSlope(c, s.x, s.y, t.x, t.y);
      ThirdCommutes(c, Slope(c, s.x, s.y, t.x, t.y), s.x, s.y, t.x, t.y);
    }
  }

  lemma SumCommutes(c: Curve, s: Point, t: Point)
    requires Prime(c.p) && 3 < c.p && ValidPoint(c, s) && ValidPoint(c, t)
    ensures Sum(c, s, t) == Sum(c, t, s)
  {
    hide Add, OnCurve;
    AddCommutes(c, s, t);
  }

  // ----- Sums along lines

  lemma ResidualAtOffset(c: Curve, X: int, Y: int, l: int, t: int, t': int)
    requires Cong(t, t', c.p) && Divides(c.p, Residual(c, X, Y, l, t))
    ensures Divides(c.p, Residual(c, X, Y, l, t'))
  {
    hide Divides, Residual;
    DividesMul(c.p, t - t', l * l - 3 * X - t - t');
    ResidualDifference(c, X, Y, l, t, t');
    var r, r' := Residual(c, X, Y, l, t), Residual(c, X, Y, l, t');
    DividesAdd(c.p, r, r - r');
    assert r - (r - r') == r';
  }

  lemma ResidualAtSlope(c: Curve, X: int, Y: int, l: int, l': int, u: int)
    requires Cong(l, l', c.p) && Divides(c.p, Residual(c, X, Y, l, u))
    ensures Divides(c.p, Residual(c, X, Y, l', u))
  {
    hide Divides, Residual;
    DividesMul(c.p, l - l', 2 * Y + u * (l + l'));
    SlopeDifference(c, X, Y, l, l', u);
    var r, r' := Residual(c, X, Y, l, u), Residual(c, X, Y, l', u);
    DividesAdd(c.p, r, r - r');
    assert r - (r - r') == r';
  }

  /** The slope that the code computes is the slope of the line. */
  lemma SlopeIs(c: Curve, s: Point, t: Point, X: int, Y: int, l: int, u: int)
    requires Prime(c.p) && 3 < c.p && Finite(c, s) && Finite(c, t) && !Opposite(s, t)
    requires Represents(c, s, X, Y) && Represents(c, t, X + u, Y + l * u)
    requires Divides(c.p, Residual(c, X, Y, l, u))
    ensures Cong(Slope(c, s.x, s.y, t.x, t.y), l, c.p)
  {
    hide Divides, Residual, Slope, OnCurve;
    CongAdd(t.x, X + u, s.x, X, c.p);
    CongAdd(t.y, Y + l * u, s.y, Y, c.p);
    if s.x != t.x {
      NotMultiple(c.p, t.x - s.x);
      ChordSlope(c, s.x, s.y, t.x, t.y);
      ChordAgrees(c.p, Slope(c, s.x, s.y, t.x, t.y), t.x - s.x, t.y - s.y, l, u);
    } else {
      TwiceNotMultiple(c.p, s.y);
      TangentSlope(c, s.x, s.y);
      CongSym(0, u, c.p);
      TangentAgrees(c, s, X, Y, l, u);
      CancelSlope(c.p, Slope(c, s.x, s.y, s.x, s.y), 2 * s.y, 3 * (s.x * s.x) + c.a, l);
    }
  }

  lemma ChordAgrees(p: int, m: int, z: int, w: int, l: int, u: int)
    requires Prime(p) && !Divides(p, z) && Cong(m * z, w, p) && Cong(z, u, p) && Cong(w, l * u, p)
    ensures Cong(m, l, p)
  {
    hide *;
    CongRefl(l, p);
    CongMul(l, l, z, u, p);
    CongSym(l * z, l * u, p);
    CongTrans(w, l * u, l * z, p);
    CongSym(w, l * z, p);
    CancelSlope(p, m, z, w, l);
  }

  lemma CancelSlope(p: int, m: int, z: int, w: int, l: int)
    requires Prime(p) && !Divides(p, z) && Cong(m * z, w, p) && Cong(l * z, w, p)
    ensures Cong(m, l, p)
  {
    hide *;
    CongSym(l * z, w, p);
    CongTrans(m * z, w, l * z, p);
    assert m * z == z * m && l * z == z * l;
    CongCancel(p, z, m, l);
  }

  lemma TangentAgrees(c: Curve, s: Point, X: int, Y: int, l: int, u: int)
    requires Represents(c, s, X, Y) && Cong(u, 0, c.p)
    requires Divides(c.p, Residual(c, X, Y, l, u))
    ensures Cong(l * (2 * s.y), 3 * (s.x * s.x) + c.a, c.p)
  {
    hide Divides, Residual;
    ResidualAtOffset(c, X, Y, l, u, 0);
    TangentForm(c, X, Y, l);
    TangentTransfer(c.p, c.a, s.x, s.y, X, Y, l);
  }

  lemma TangentForm(c: Curve, X: int, Y: int, l: int)
    ensures Residual(c, X, Y, l, 0) == l * (2 * Y) - (3 * (X * X) + c.a)
  {}

  lemma TangentTransfer(p: int, a: int, x: int, y: int, X: int, Y: int, l: int)
    requires Cong(x, X, p) && Cong(y, Y, p) && Cong(l * (2 * Y), 3 * (X * X) + a, p)
    ensures Cong(l * (2 * y), 3 * (x * x) + a, p)
  {
    hide *;
    CongMul(x, X, x, X, p);
    CongRefl(3, p);
    CongRefl(a, p);
    CongMul(3, 3, x * x, X * X, p);
    CongAdd(3 * (x * x), 3 * (X * X), a, a, p);
    CongSym(3 * (x * x) + a, 3 * (X * X) + a, p);
    CongRefl(2, p);
    CongRefl(l, p);
    CongMul(2, 2, y, Y, p);
    CongMul(l, l, 2 * y, 2 * Y, p);
    CongTrans(l * (2 * y), l * (2 * Y), 3 * (X * X) + a, p);
    CongTrans(l * (2 * y), 3 * (X * X) + a, 3 * (x * x) + a, p);
  }

  /** Adding two points on a line of slope `l`, one at offset `u` from the other. */
  lemma LineSum(c: Curve, s: Point, t: Point, X: int, Y: int, l: int, u: int)
    requires Prime(c.p) && 3 < c.p && Finite(c, s) && Finite(c, t) && !Opposite(s, t)
    requires Represents(c, s, X, Y) && Represents(c, t, X + u, Y + l * u)
    requires Divides(c.p, Residual(c, X, Y, l, u))
    ensures Finite(c, Sum(c, s, t))
    ensures var e := ThirdOffset(X, l, u); Represents(c, Sum(c, s, t), X + e, -(Y + l * e))
  {
    hide Divides, Residual, Slope, Third, Add, OnCurve, ThirdOffset;
    var m := Slope(c, s.x, s.y, t.x, t.y);
    SlopeIs(c, s, t, X, Y, l, u);
    AddClosed(c, s, t);
    AddIsThird(c, s, t);
    ThirdAlong(c, m, s.x, s.y, t.x, X, Y, l, u);
  }

  lemma AddIsThird(c: Curve, s: Point, t: Point)
    requires 2 <= c.p && s.Affine? && t.Affine? && (s.x != t.x || s.y == t.y)
    ensures Add(c, s, t) == Third(c, Slope(c, s.x, s.y, t.x, t.y), s.x, s.y, t.x)
  {}

  lemma ThirdAlong(c: Curve, m: int, x1: int, y1: int, x2: int, X: int, Y: int, l: int, u: int)
    requires 0 < c.p && Cong(m, l, c.p) && Cong(x1, X, c.p) && Cong(y1, Y, c.p) && Cong(x2, X + u, c.p)
    ensures var e := ThirdOffset(X, l, u);
            Represents(c, Third(c, m, x1, y1, x2), X + e, -(Y + l * e))
  {
    hide Divides, Third;
    var p, e := c.p, ThirdOffset(X, l, u);
    var r := Third(c, m, x1, y1, x2);
    ThirdCoordinates(c, m, x1, y1, x2);
    var w := m * m - x1 - x2;
    CongMul(m, l, m, l, p);
    CongAdd(m * m, l * l, x1, X, p);
    CongAdd(m * m - x1, l * l - X, x2, X + u, p);
    CongSym(w, r.x, p);
    CongTrans(r.x, w, X + e, p);
    CongAdd(x1, X, r.x, X + e, p);
    CongMul(m, l, x1 - r.x, -e, p);
    CongAdd(m * (x1 - r.x), l * -e, y1, Y, p);
    NegateProduct(l, e);
    CongSym(m * (x1 - r.x) - y1, r.y, p);
    CongTrans(r.y, m * (x1 - r.x) - y1, -(Y + l * e), p);
  }

  /** `s` is reached from `q` along the line of slope `l`. */
  ghost predicate Aligned(c: Curve, q: Point, s: Point, l: int, u: int) {
    && Finite(c, q) && Finite(c, s) && !Opposite(q, s)
    && Represents(c, s, q.x + u, q.y + l * u)
    && Divides(c.p, Residual(c, q.x, q.y, l, u))
  }

  /** Any two points that are not opposite lie on a line. */
  lemma LineThrough(c: Curve, q: Point, s: Point) returns (l: int)
    requires Prime(c.p) && 3 < c.p && Finite(c, q) && Finite(c, s) && !Opposite(q, s)
    ensures Aligned(c, q, s, l, s.x - q.x)
  {
    hide Divides, Residual, Slope, OnCurve;
    var p, u := c.p, s.x - q.x;
    l := Slope(c, q.x, q.y, s.x, s.y);
    CongRefl(s.x, p);
    CongRefl(q.y, p);
    if u != 0 {
      NotMultiple(p, u);
      ChordSlope(c, q.x, q.y, s.x, s.y);
      ChordResidual(c, l, q.x, q.y, s.x, s.y);
      CongSym(l * u, s.y - q.y, p);
      CongAdd(q.y, q.y, s.y - q.y, l * u, p);
      assert q.y + (s.y - q.y) == s.y;
    } else {
      TwiceNotMultiple(p, q.y);
      TangentSlope(c, q.x, q.y);
      TangentResidual(c, l, q.x, q.y);
      assert l * u == 0;
    }
  }

  /** The sum of two aligned points, in coordinates relative to the first. */
  lemma AlignedSum(c: Curve, q: Point, s: Point, l: int, u: int)
    requires Prime(c.p) && 3 < c.p && Aligned(c, q, s, l, u)
    ensures var e := ThirdOffset(q.x, l, u);
            Finite(c, Sum(c, q, s)) && Represents(c, Sum(c, q, s), q.x + e, -(q.y + l * e))
  {
    hide Divides, Residual, Sum, OnCurve;
    CongRefl(q.x, c.p);
    CongRefl(q.y, c.p);
    LineSum(c, q, s, q.x, q.y, l, u);
  }

  /** The slope and the offset of a line may be replaced by congruent ones. */
  lemma AlignedCong(c: Curve, q: Point, s: Point, l: int, u: int, l': int, u': int)
    requires Aligned(c, q, s, l, u) && Cong(u, u', c.p) && Cong(l, l', c.p)
    ensures Aligned(c, q, s, l', u')
  {
    hide Divides, Residual, OnCurve;
    var p := c.p;
    ResidualAtOffset(c, q.x, q.y, l, u, u');
    ResidualAtSlope(c, q.x, q.y, l, l', u');
    CongRefl(q.x, p);
    CongRefl(q.y, p);
    CongAdd(q.x, q.x, u, u', p);
    CongMul(l, l', u, u', p);
    CongAdd(q.y, q.y, l * u, l' * u', p);
    RepresentsCong(c, s, q.x + u, q.y + l * u, q.x + u', q.y + l' * u');
  }

  /** Two points on a common line, one seen from the other, are not opposite. */
  lemma NotOppositeOnLine(c: Curve, s: Point, t: Point, X: int, Y: int, l: int, u: int)
    requires ValidCurve(c) && Finite(c, s) && Finite(c, t)
    requires Represents(c, s, X, Y) && Represents(c, t, X + u, Y + l * u)
    requires Divides(c.p, Residual(c, X, Y, l, u))
    ensures !Opposite(s, t)
  {
    hide Divides, Residual, Nonsingular, OnCurve;
    if s.x == t.x {
      CongAdd(t.x, X + u, s.x, X, c.p);
      CongSym(0, u, c.p);
      TangentNotVertical(c, s, X, Y, l, u);
      DividesMul(c.p, u - 0, l);
      AddMultiple(c.p, Y, l * u);
      AddMultiple(c.p, X, u);
      RepresentsCong(c, t, X + u, Y + l * u, X, Y);
      SamePoint(c, s, t, X, Y);
    }
  }

  lemma AddMultiple(p: int, y: int, w: int)
    requires Divides(p, w)
    ensures Cong(y + w, y, p)
  {
    assert (y + w) - y == w;
  }

  // ----- Cancellation

  /** Seen from the opposite of q, a line through q is reflected. */
  lemma ReflectedLine(c: Curve, x: int, y: int, l: int, u: int)
    requires Divides(c.p, Residual(c, x, y, l, u))
    ensures var e := ThirdOffset(x, l, u);
            && Divides(c.p, Residual(c, x, -y, -l, e))
            && ThirdOffset(x, -l, e) == u
            && -y + (-l) * e == -(y + l * e)
            && -(-y + (-l) * u) == y + l * u
  {
    hide Divides;
    var e := ThirdOffset(x, l, u);
    NegateProduct(y, l);
    NegateProduct(l, l);
    NegateProduct(l, e);
    NegateProduct(l, u);
    ResidualSymmetric(c, x, y, l, u);
  }

  lemma CancellationOnLine(c: Curve, q: Point, r: Point, l: int, u: int)
    requires ValidCurve(c) && Aligned(c, q, r, l, u)
    ensures Sum(c, Negate(c, q), Sum(c, q, r)) == r
  {
    hide Divides, Residual, Sum, OnCurve, Nonsingular, Negate, ThirdOffset;
    var e := ThirdOffset(q.x, l, u);
    var n, s := Negate(c, q), Sum(c, q, r);
    AlignedSum(c, q, r, l, u);
    NegateValid(c, q);
    ReflectedLine(c, q.x, q.y, l, u);
    NotOppositeOnLine(c, n, s, q.x, -q.y, -l, e);
    LineSum(c, n, s, q.x, -q.y, -l, e);
    SamePoint(c, Sum(c, n, s), r, q.x + u, q.y + l * u);
  }

  /** Subtracting a summand. */
  lemma Cancellation(c: Curve, q: Point, r: Point)
    requires ValidCurve(c) && ValidPoint(c, q) && ValidPoint(c, r)
    ensures Sum(c, Negate(c, q), Sum(c, q, r)) == r
  {
    hide Divides, OnCurve, Nonsingular, Slope, Third;
    NegateValid(c, q);
    if q.Affine? && r.Affine? {
      OppositeIsNegation(c, q, r);
      if !Opposite(q, r) {
        var l := LineThrough(c, q, r);
        CancellationOnLine(c, q, r, l, r.x - q.x);
      }
    } else if q.Affine? {
      OppositeIsNegation(c, Negate(c, q), q);
      OppositeIsNegation(c, q, Negate(c, q));
    }
  }

  // ----- Associativity

  /** Twice the ordinate of Q, modulo p, when both lines are lines of the curve. */
  lemma TwiceOrdinate(c: Curve, x: int, y: int, al: int, be: int, u: int, k: int)
    requires Prime(c.p) && !Divides(c.p, be - al)
    requires Divides(c.p, Residual(c, x, y, al, u))
    requires Divides(c.p, Residual(c, x, y, be, OffsetR(al, be, u, k)))
    ensures Divides(c.p, 2 * y - TwiceY(x, al, be, u, k))
  {
    hide Divides, Residual, OffsetR, TwiceY;
    TwiceOrdinateIdentity(c, x, y, al, be, u, k);
    DividesAdd(c.p, Residual(c, x, y, be, OffsetR(al, be, u, k)), Residual(c, x, y, al, u));
    EuclidLemma(c.p, be - al, 2 * y - TwiceY(x, al, be, u, k));
  }

  /** The sum of P and Q, seen from R, is aligned with slope k - al. */
  lemma SecondLine(c: Curve, q: Point, s: Point, r: Point, al: int, be: int, u: int, k: int)
    requires Prime(c.p) && 3 < c.p && !Divides(c.p, be - al)
    requires Aligned(c, q, s, al, u) && Aligned(c, q, r, be, OffsetR(al, be, u, k))
    ensures var v := OffsetR(al, be, u, k);
            var X, Y, t := q.x + v, q.y + be * v, -Gap(q.x, al, u, v);
            && Divides(c.p, Residual(c, X, Y, k - al, t))
            && Represents(c, Sum(c, q, s), X + t, Y + (k - al) * t)
  {
    hide Divides, Residual, OffsetR, TwiceY, Gap, ThirdOffset, Sum, OnCurve, Prime;
    var p, x, y, v := c.p, q.x, q.y, OffsetR(al, be, u, k);
    var g, d := Gap(x, al, u, v), ThirdOffset(x, al, u);
    var w := 2 * y - TwiceY(x, al, be, u, k);
    TwiceOrdinate(c, x, y, al, be, u, k);
    SecondLineIdentity(c, x, y, al, be, u, k);
    DividesMul(p, w, k - al - be);
    DividesAdd(p, Residual(c, x, y, be, v), (k - al - be) * w);
    AlignedSum(c, q, s, al, u);
    GapDifference(x, al, be, u, v);
    MeetIdentity(x, y, al, be, u, k);
    var Y' := y + be * v + (k - al) * -g;
    assert Y' - -(y + al * d) == w by {
      NegateProduct(k - al, g);
    }
    assert Cong(Y', -(y + al * d), p);
    CongSym(Y', -(y + al * d), p);
    CongRefl(x + d, p);
    RepresentsCong(c, Sum(c, q, s), x + d, -(y + al * d), x + v - g, Y');
  }

  /** The coordinates of R + (Q + P). */
  lemma TripleSum(c: Curve, q: Point, s: Point, r: Point, al: int, be: int, u: int, k: int)
    requires ValidCurve(c) && !Divides(c.p, be - al)
    requires Aligned(c, q, s, al, u) && Aligned(c, q, r, be, OffsetR(al, be, u, k))
    ensures var v := OffsetR(al, be, u, k);
            var X, Y, t := q.x + v, q.y + be * v, -Gap(q.x, al, u, v);
            var e := ThirdOffset(X, k - al, t);
            var sum := Sum(c, r, Sum(c, q, s));
            Finite(c, sum) && Represents(c, sum, X + e, -(Y + (k - al) * e))
  {
    hide Divides, Residual, OffsetR, TwiceY, Gap, ThirdOffset, Sum, OnCurve, Nonsingular;
    var v := OffsetR(al, be, u, k);
    var X, Y, t := q.x + v, q.y + be * v, -Gap(q.x, al, u, v);
    var a := Sum(c, q, s);
    SecondLine(c, q, s, r, al, be, u, k);
    AlignedSum(c, q, s, al, u);
    NotOppositeOnLine(c, r, a, X, Y, k - al, t);
    LineSum(c, r, a, X, Y, k - al, t);
  }

  lemma NotDividesMinus(p: int, a: int, b: int)
    requires !Divides(p, b - a)
    ensures !Divides(p, a - b)
  {
    assert (a - b) * -1 == b - a;
    if Divides(p, a - b) {
      DividesMul(p, a - b, -1);
    }
  }

  /** P, Q and R on two different lines through Q. */
  lemma AssociativeGeneric(c: Curve, s: Point, q: Point, r: Point, al: int, be: int, u: int, k: int)
    requires ValidCurve(c) && !Divides(c.p, be - al)
    requires Aligned(c, q, s, al, u) && Aligned(c, q, r, be, OffsetR(al, be, u, k))
    ensures Sum(c, r, Sum(c, q, s)) == Sum(c, s, Sum(c, q, r))
  {
    hide Divides, Cong, Represents, Residual, TwiceY, Gap, ThirdOffset, Sum, OnCurve, Nonsingular, OffsetR, Prime;
    var v := OffsetR(al, be, u, k);
    TripleSum(c, q, s, r, al, be, u, k);
    OffsetBack(al, be, u, k);
    NotDividesMinus(c.p, al, be);
    TripleSum(c, q, r, s, be, al, v, k);
    GapSymmetric(q.x, be, u, v);
    FinalAbscissa(q.x, al, be, u, k);
    FinalOrdinate(q.x, q.y, al, be, u, k);
    var X := q.x + v;
    var e := ThirdOffset(X, k - al, -Gap(q.x, al, u, v));
    SamePoint(c, Sum(c, r, Sum(c, q, s)), Sum(c, s, Sum(c, q, r)), X + e, -(q.y + be * v + (k - al) * e));
  }

  /** The third intersection and the sum cancel. */
  lemma OppositeOfSum(c: Curve, q: Point, s: Point, r: Point, l: int, u: int)
    requires Prime(c.p) && 3 < c.p
    requires Aligned(c, q, s, l, u) && Aligned(c, q, r, l, ThirdOffset(q.x, l, u))
    ensures Sum(c, r, Sum(c, q, s)) == Identity
  {
    hide Divides, Residual, ThirdOffset, OnCurve, Add, Negate;
    var e := ThirdOffset(q.x, l, u);
    var a, n := Sum(c, q, s), Negate(c, r);
    AlignedSum(c, q, s, l, u);
    NegateValid(c, r);
    CongMinus(r.y, q.y + l * e, c.p);
    RepresentsCong(c, n, r.x, -r.y, q.x + e, -(q.y + l * e));
    SamePoint(c, n, a, q.x + e, -(q.y + l * e));
    OppositeIsNegation(c, r, a);
  }

  lemma CongMinus(a: int, b: int, p: int)
    requires Cong(a, b, p)
    ensures Cong(-a, -b, p)
  {
    DividesMul(p, a - b, -1);
    assert (a - b) * -1 == -a - -b;
  }

  /** P, Q and R on one line: R is P again, or the third intersection. */
  lemma AssociativeCollinear(c: Curve, s: Point, q: Point, r: Point, l: int, u: int, v: int)
    requires Prime(c.p) && 3 < c.p && Aligned(c, q, s, l, u) && Aligned(c, q, r, l, v)
    ensures Sum(c, r, Sum(c, q, s)) == Sum(c, s, Sum(c, q, r))
  {
    hide Divides, Residual, ThirdOffset, Sum, OnCurve;
    var p, x, y := c.p, q.x, q.y;
    ResidualDifference(c, x, y, l, u, v);
    DividesAdd(p, Residual(c, x, y, l, u), Residual(c, x, y, l, v));
    EuclidLemma(p, u - v, l * l - 3 * x - u - v);
    CongRefl(l, p);
    if Divides(p, u - v) {
      AlignedCong(c, q, s, l, u, l, v);
      SamePoint(c, s, r, x + v, y + l * v);
    } else {
      var d := ThirdOffset(x, l, u);
      ThirdOffsetIs(x, l, u);
      CongSym(d, v, p);
      AlignedCong(c, q, r, l, v, l, d);
      OppositeOfSum(c, q, s, r, l, u);
      ThirdOffsetTwice(x, l, u);
      OppositeOfSum(c, q, r, s, l, d);
    }
  }

  lemma DivideModulo(p: int, w: int, h: int) returns (k: int)
    requires Prime(p) && 3 < p && !Divides(p, h)
    ensures Cong(k * h, w, p)
  {
    FermatInverse(h, p);
    k := w * InverseMod(h, p) % p;
    Quotients(h, InverseMod(h, p), w, p);
  }

  /** Neither P nor R is the opposite of Q. */
  lemma AssociativeOnLines(c: Curve, s: Point, q: Point, r: Point)
    requires ValidCurve(c) && Finite(c, s) && Finite(c, q) && Finite(c, r)
    requires !Opposite(q, s) && !Opposite(q, r)
    ensures Sum(c, r, Sum(c, q, s)) == Sum(c, s, Sum(c, q, r))
  {
    hide Divides, Residual, Sum, OnCurve, Nonsingular;
    var p := c.p;
    var al := LineThrough(c, q, s);
    var be := LineThrough(c, q, r);
    var u, v := s.x - q.x, r.x - q.x;
    if Divides(p, be - al) {
      CongRefl(v, p);
      AlignedCong(c, q, r, be, v, al, v);
      AssociativeCollinear(c, s, q, r, al, u, v);
    } else {
      var k := DivideModulo(p, v - u, be - al);
      CongRefl(u, p);
      CongAdd(u, u, k * (be - al), v - u, p);
      CongSym(u + k * (be - al), u + (v - u), p);
      CongRefl(be, p);
      AlignedCong(c, q, r, be, v, be, OffsetR(al, be, u, k));
      AssociativeGeneric(c, s, q, r, al, be, u, k);
    }
  }

  lemma SumValid(c: Curve, s: Point, t: Point)
    requires Prime(c.p) && 3 < c.p && ValidPoint(c, s) && ValidPoint(c, t)
    ensures ValidPoint(c, Sum(c, s, t))
  {
    hide Divides, OnCurve, Add;
    if !Opposite(s, t) {
      AddClosed(c, s, t);
    }
  }

  /** Addition is associative on every nonsingular curve. */
  lemma SumAssociates(c: Curve, s: Point, q: Point, r: Point)
    requires ValidCurve(c) && ValidPoint(c, s) && ValidPoint(c, q) && ValidPoint(c, r)
    ensures Sum(c, Sum(c, s, q), r) == Sum(c, s, Sum(c, q, r))
  {
    hide Divides, OnCurve, Nonsingular, Slope, Third;
    if s.Affine? && q.Affine? && r.Affine? {
      SumValid(c, s, q);
      SumCommutes(c, s, q);
      SumCommutes(c, Sum(c, s, q), r);
      OppositeIsNegation(c, q, s);
      OppositeIsNegation(c, q, r);
      if Opposite(q, s) {
        Cancellation(c, q, r);
      } else if Opposite(q, r) {
        Cancellation(c, q, s);
      } else {
        AssociativeOnLines(c, s, q, r);
      }
    }
  }

  /** The group laws together. */
  lemma AbelianGroup(c: Curve, s: Point, t: Point, r: Point)
    requires ValidCurve(c) && ValidPoint(c, s) && ValidPoint(c, t) && ValidPoint(c, r)
    ensures ValidPoint(c, Sum(c, s, t))
    ensures Sum(c, s, t) == Sum(c, t, s)
    ensures Sum(c, Sum(c, s, t), r) == Sum(c, s, Sum(c, t, r))
    ensures Sum(c, Identity, s) == s == Sum(c, s, Identity)
    ensures ValidPoint(c, Negate(c, s)) && Sum(c, Negate(c, s), s) == Identity
  {
    hide Divides, OnCurve, Nonsingular, Slope, Third;
    SumValid(c, s, t);
    SumCommutes(c, s, t);
    SumAssociates(c, s, t, r);
    NegateValid(c, s);
    Cancellation(c, s, Identity);
  }
}
