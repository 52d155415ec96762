/** The integer identities behind associativity. Q is (x, y); P lies at offset u
    along the slope `al` from Q, R along the slope `be`, and k is the quotient of
    the differences of offsets and of slopes. */
module CurveIdentities {
  import opened EllipticCurve

  lemma NegateProduct(l: int, e: int)
    ensures l * -e == -(l * e) == (-l) * e
    ensures (-l) * (-e) == l * e
  {}

  lemma ThirdOffsetIs(x: int, l: int, u: int)
    ensures ThirdOffset(x, l, u) == l * l - 3 * x - u
  {}

  lemma ThirdOffsetTwice(x: int, l: int, u: int)
    ensures ThirdOffset(x, l, ThirdOffset(x, l, u)) == u
  {}

  lemma Replace(z: int, a: int, b: int, w: int)
    requires a - b == w
    ensures z * a - z * b == z * w
  {}

  lemma ResidualDifference(c: Curve, X: int, Y: int, l: int, t: int, t': int)
    ensures Residual(c, X, Y, l, t) - Residual(c, X, Y, l, t') == (t - t') * (l * l - 3 * X - t - t')
  {
    OffsetDifference(l * l - 3 * X, t, t');
  }

  lemma OffsetDifference(b: int, t: int, t': int)
    ensures t * (b - t) - t' * (b - t') == (t - t') * (b - t - t')
  {}

  lemma SlopeDifference(c: Curve, X: int, Y: int, l: int, l': int, u: int)
    ensures Residual(c, X, Y, l, u) - Residual(c, X, Y, l', u) == (l - l') * (2 * Y + u * (l + l'))
  {
    hide ThirdOffset;
    ThirdOffsetIs(X, l, u);
    ThirdOffsetIs(X, l', u);
    Replace(u, ThirdOffset(X, l, u), ThirdOffset(X, l', u), l * l - l' * l');
    SlopeProducts(Y, u, l, l');
  }

  lemma SlopeProducts(y: int, u: int, l: int, l': int)
    ensures 2 * (y * l) - 2 * (y * l') + u * (l * l - l' * l') == (l - l') * (2 * y + u * (l + l'))
  {}

  /** The offset of R, when P is at offset `u` along slope `al` from Q and R lies
      along slope `be`, `k` being the quotient of offset and slope differences. */
  function OffsetR(al: int, be: int, u: int, k: int): int {
    u + k * (be - al)
  }

  lemma OffsetBack(al: int, be: int, u: int, k: int)
    ensures OffsetR(be, al, OffsetR(al, be, u, k), k) == u
  {}

  function Gap(x: int, l: int, u: int, v: int): int {
    u + v + 3 * x - l * l
  }

  lemma GapSymmetric(x: int, l: int, u: int, v: int)
    ensures Gap(x, l, u, v) == Gap(x, l, v, u)
  {}

  lemma GapDifference(x: int, al: int, be: int, u: int, v: int)
    ensures Gap(x, al, u, v) - Gap(x, be, u, v) == (be - al) * (al + be)
    ensures ThirdOffset(x, al, u) == v - Gap(x, al, u, v)
    ensures ThirdOffset(x, be, v) == u - Gap(x, be, u, v)
  {}

  /** Twice the ordinate of Q is determined by the two lines. */
  function TwiceY(x: int, al: int, be: int, u: int, k: int): int {
    k * Gap(x, be, u, OffsetR(al, be, u, k)) - (al + be) * u
  }

  lemma TwiceOrdinateIdentity(c: Curve, x: int, y: int, al: int, be: int, u: int, k: int)
    ensures Residual(c, x, y, be, OffsetR(al, be, u, k)) - Residual(c, x, y, al, u)
         == (be - al) * (2 * y - TwiceY(x, al, be, u, k))
  {
    hide Gap, ThirdOffset;
    var h, v := be - al, OffsetR(al, be, u, k);
    var d, e := Gap(x, al, u, v), Gap(x, be, u, v);
    GapDifference(x, al, be, u, v);
    CrossProducts(u, v, d, e);
    FactorOut(u, k, h, e, al + be);
    CollectOrdinate(y, al, be, (al + be) * u, k * e);
  }

  lemma CrossProducts(u: int, v: int, d: int, e: int)
    ensures v * (u - e) - u * (v - d) == u * d - v * e
  {}

  lemma FactorOut(u: int, k: int, h: int, e: int, s: int)
    ensures u * (e + h * s) - (u + k * h) * e == h * (s * u - k * e)
  {}

  lemma CollectOrdinate(y: int, al: int, be: int, s: int, t: int)
    ensures 2 * (y * be) - 2 * (y * al) + (be - al) * (s - t) == (be - al) * (2 * y - (t - s))
  {
    assert (be - al) * (2 * y - (t - s)) == (be - al) * (2 * y) + (be - al) * (s - t);
  }

  /** The sum of P and Q lies on the line of slope k - al through R. */
  lemma MeetIdentity(x: int, y: int, al: int, be: int, u: int, k: int)
    ensures (2 * y + al * ThirdOffset(x, al, u) + be * OffsetR(al, be, u, k)
             - (k - al) * Gap(x, al, u, OffsetR(al, be, u, k)))
         == 2 * y - TwiceY(x, al, be, u, k)
  {
    hide Gap, ThirdOffset;
    var h, v := be - al, OffsetR(al, be, u, k);
    var d, e := Gap(x, al, u, v), Gap(x, be, u, v);
    GapDifference(x, al, be, u, v);
    SwapGap(k, h, al + be, u, e);
    assert al * (v - d) + be * v - (k - al) * d == (al + be) * v - k * d;
  }

  lemma SwapGap(k: int, h: int, s: int, u: int, e: int)
    ensures k * e - s * u == k * (e + h * s) - s * (u + k * h)
  {}

  /** The line from R with slope k - al has vanishing residual at the sum of P and Q. */
  lemma SecondLineIdentity(c: Curve, x: int, y: int, al: int, be: int, u: int, k: int)
    ensures Residual(c, x + OffsetR(al, be, u, k), y + be * OffsetR(al, be, u, k), k - al,
                     -Gap(x, al, u, OffsetR(al, be, u, k)))
         == Residual(c, x, y, be, OffsetR(al, be, u, k))
          + (k - al - be) * (2 * y - TwiceY(x, al, be, u, k))
  {
    hide Gap, ThirdOffset;
    var h, v := be - al, OffsetR(al, be, u, k);
    var d, e := Gap(x, al, u, v), Gap(x, be, u, v);
    GapDifference(x, al, be, u, v);
    SwapGap(k, h, al + be, u, e);
    SecondLineCore(al, be, k, u, v, d, e);
    AbscissaPart(x, al, u, v, k);
    NegateProduct(ThirdOffset(x + v, k - al, -d), d);
    OrdinatePart(y, be, v, k - al);
    Assemble(al + be, k, y, k * d - (al + be) * v);
  }

  lemma SecondLineCore(al: int, be: int, k: int, u: int, v: int, d: int, e: int)
    requires v - u == k * (be - al) && d - e == (be - al) * (al + be)
    ensures (2 * (v * (be * (k - al))) - (2 * (v * d) - 2 * (u * v) + v * v + 2 * (v * (al * al)))
             - d * (k * (k - 2 * al) + u - 2 * v) - v * (u - e))
         == (al + be - k) * (k * d - (al + be) * v)
  {
    var h, s := be - al, al + be;
    DistributeD(d, k * (k - 2 * al), u, v, e);
    Replace(v, d, e, h * s);
    Replace(v, v, u, k * h);
    Replace(d, v, u, k * h);
    LinearInV(al, be, k, v);
    LinearInD(al, be, k, d);
    ProductForm(s, k, d, v);
  }

  /** The abscissas enter only through the gap. */
  lemma AbscissaPart(x: int, al: int, u: int, v: int, k: int)
    ensures var d := Gap(x, al, u, v);
            && 3 * ((x + v) * (x + v)) - 3 * (x * x) == 2 * (v * d) - 2 * (u * v) + v * v + 2 * (v * (al * al))
            && ThirdOffset(x + v, k - al, -d) == k * (k - 2 * al) + u - 2 * v
  {
    var d := Gap(x, al, u, v);
    SquareOfSum(x, v);
    assert 3 * (x * v) == v * d - u * v - v * v + v * (al * al) by {
      assert v * d == v * u + v * v + 3 * (x * v) - v * (al * al);
    }
    SquareOfSum(k, -al);
    assert k * (k - 2 * al) == k * k - 2 * (k * al);
  }

  lemma OrdinatePart(y: int, be: int, v: int, g: int)
    ensures 2 * ((y + be * v) * g) - 2 * (y * be) == 2 * (v * (be * g)) + (g - be) * (2 * y)
  {}

  lemma Assemble(s: int, k: int, y: int, t: int)
    ensures (s - k) * t + (k - s) * (2 * y) == (k - s) * (2 * y - t)
  {}

  lemma LinearInV(al: int, be: int, k: int, v: int)
    ensures 2 * (v * (be * (k - al))) - 2 * (v * (al * al)) - v * (k * (be - al)) - v * ((be - al) * (al + be))
         == v * (k * (al + be)) - v * ((al + be) * (al + be))
  {
    QuadraticPart(al, be, k);
    var a, b, c, d := be * (k - al), al * al, k * (be - al), (be - al) * (al + be);
    var e, f := k * (al + be), (al + be) * (al + be);
    assert v * (2 * a - 2 * b - c - d) == 2 * (v * a) - 2 * (v * b) - v * c - v * d;
    assert v * (e - f) == v * e - v * f;
  }

  lemma QuadraticPart(al: int, be: int, k: int)
    ensures 2 * (be * (k - al)) - 2 * (al * al) - k * (be - al) - (be - al) * (al + be)
         == k * (al + be) - (al + be) * (al + be)
  {}

  lemma LinearInD(al: int, be: int, k: int, d: int)
    ensures d * (k * (be - al)) - d * (k * (k - 2 * al)) == d * (k * (al + be - k))
  {
    assert k * (be - al) - k * (k - 2 * al) == k * (al + be - k);
  }

  lemma ProductForm(s: int, k: int, d: int, v: int)
    ensures (s - k) * (k * d - s * v) == d * (k * (s - k)) - v * (s * s) + v * (k * s)
  {}

  lemma DistributeD(d: int, w: int, u: int, v: int, e: int)
    ensures d * (w + u - 2 * v) == d * w + d * u - 2 * (v * d)
    ensures v * (u - e) == u * v - v * e
  {}

  lemma FinalAbscissa(x: int, al: int, be: int, u: int, k: int)
    ensures var v := OffsetR(al, be, u, k);
            (x + v + ThirdOffset(x + v, k - al, -Gap(x, al, u, v))
             == x + u + ThirdOffset(x + u, k - be, -Gap(x, be, u, v)))
  {
    hide Gap, ThirdOffset;
    var v := OffsetR(al, be, u, k);
    FinalOffset(x, al, u, v, k);
    FinalOffset(x, be, v, u, k);
    assert Gap(x, be, v, u) == Gap(x, be, u, v) by { GapSymmetric(x, be, u, v); }
    assert k * (k - 2 * al) - k * (k - 2 * be) == 2 * (k * (be - al));
  }

  lemma FinalOffset(x: int, al: int, u: int, v: int, k: int)
    ensures ThirdOffset(x + v, k - al, -Gap(x, al, u, v)) == k * (k - 2 * al) + u - 2 * v
  {
    AbscissaPart(x, al, u, v, k);
  }

  lemma FinalOrdinate(x: int, y: int, al: int, be: int, u: int, k: int)
    ensures var v := OffsetR(al, be, u, k);
            (y + be * v + (k - al) * ThirdOffset(x + v, k - al, -Gap(x, al, u, v))
             == y + al * u + (k - be) * ThirdOffset(x + u, k - be, -Gap(x, be, u, v)))
  {
    hide Gap, ThirdOffset;
    var v := OffsetR(al, be, u, k);
    FinalOffset(x, al, u, v, k);
    FinalOffset(x, be, v, u, k);
    GapSymmetric(x, be, u, v);
    FinalOrdinateCore(al, be, u, v, k);
  }

  lemma FinalOrdinateCore(al: int, be: int, u: int, v: int, k: int)
    requires v == u + k * (be - al)
    ensures be * v + (k - al) * (k * (k - 2 * al) + u - 2 * v)
         == al * u + (k - be) * (k * (k - 2 * be) + v - 2 * u)
  {
    ShiftSlope(al, be, k);
    LastProduct(al, be - al, k);
    LastStep(al, be, u, v, k, k * (k - 2 * al));
  }

  lemma ShiftSlope(al: int, be: int, k: int)
    ensures k * (k - 2 * be) == k * (k - 2 * al) - 2 * (k * (be - al))
  {}

  lemma LastProduct(al: int, h: int, k: int)
    ensures h * (k * (k - 2 * al)) == k * (k * h) - 2 * (al * (k * h))
  {}

  lemma LastStep(al: int, be: int, u: int, v: int, k: int, w: int)
    requires (be - al) * w == k * (v - u) - 2 * (al * (v - u))
    ensures be * v + (k - al) * (w + u - 2 * v) == al * u + (k - be) * (w - 2 * (v - u) + v - 2 * u)
  {
    assert w - 2 * (v - u) + v - 2 * u == w - v;
    assert (k - al) * (w + u - 2 * v) == (k - al) * (w - v) - (k - al) * (v - u);
    assert (k - be) * (w - v) == (k - al) * (w - v) - (be - al) * (w - v);
    assert (be - al) * (w - v) == (be - al) * w - (be - al) * v;
    assert (k - al) * (v - u) == k * (v - u) - al * (v - u);
  }
}
