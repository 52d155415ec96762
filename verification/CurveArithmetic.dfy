/** Where the addition of the source leaves the curve, the scalar multiple that
    both classes compute, and the Ruby class against the Python one. */
module CurveArithmetic {
  import opened Modular
  import opened NumberTheory
  import opened Inverses
  import opened MillerRabin
  import opened EllipticCurve
  import opened EllipticGroup

  // ----- Doubling a point of order two

  predicate OrderTwo(pt: Point) {
    pt.Affine? && pt.y == 0
  }

  lemma VerticalDouble(c: Curve, x: int)
    requires Prime(c.p) && 3 < c.p
    ensures Add(c, Affine(x, 0), Affine(x, 0)) == Affine((-2 * x) % c.p, 0)
  {
    DividesBy(c.p, 0, 0);
    FermatInverse(0, c.p);
    assert Slope(c, x, 0, x, 0) == 0;
    DivModUnique(0, c.p, 0, 0);
  }

  lemma CubicAtMinusTwice(c: Curve, x: int)
    ensures Cubic(c, x) - Cubic(c, -2 * x) == 3 * (x * (3 * (x * x) + c.a))
  {
    assert (-2 * x) * (-2 * x) * (-2 * x) == -8 * (x * x * x);
    assert x * (3 * (x * x) + c.a) == 3 * (x * x * x) + c.a * x;
  }

  lemma VerticalDoubleOnCurve(c: Curve, x: int)
    requires ValidCurve(c) && ValidPoint(c, Affine(x, 0))
    ensures ValidPoint(c, Add(c, Affine(x, 0), Affine(x, 0))) <==> x == 0
  {
    hide Divides, Add, Cubic;
    var p, w := c.p, (-2 * x) % c.p;
    VerticalDouble(c, x);
    CongMod(-2 * x, p);
    CongRefl(0, p);
    OnCurveCong(c, w, 0, -2 * x, 0);
    OrdinateZero(c, x);
    OrdinateZero(c, -2 * x);
    CubicAtMinusTwice(c, x);
    var f, g, h := Cubic(c, x), Cubic(c, -2 * x), 3 * (x * x) + c.a;
    if Divides(p, g) {
      DividesAdd(p, f, g);
      EuclidLemma(p, 3, x * h);
      NotMultiple(p, 3);
      EuclidLemma(p, x, h);
      if Divides(p, h) {
        DividesIffMod(p, 4 * (c.a * c.a * c.a) + 27 * (c.b * c.b));
        DoubleRootSingular(c, x);
      } else {
        SmallMultiple(p, x);
      }
    }
  }

  /** The addition of the source leaves a nonsingular curve in one case only:
      doubling a point with ordinate zero whose abscissa is not zero. */
  lemma ClosedExactly(c: Curve, u: Point, v: Point)
    requires ValidCurve(c) && ValidPoint(c, u) && ValidPoint(c, v)
    ensures ValidPoint(c, Add(c, u, v)) <==> !(u == v && OrderTwo(u) && u.x != 0)
  {
    hide Divides, Add, OnCurve, Nonsingular;
    if u == v && OrderTwo(u) {
      VerticalDoubleOnCurve(c, u.x);
    } else {
      AddClosed(c, u, v);
    }
  }

  /** A sum of finite points is the identity exactly when they are opposite and
      distinct: the opposite of a point with ordinate zero is itself. */
  lemma IdentityExactly(c: Curve, u: Point, v: Point)
    requires Prime(c.p) && 3 < c.p && ValidPoint(c, u) && ValidPoint(c, v) && u.Affine? && v.Affine?
    ensures Add(c, u, v) == Identity <==> v == Negate(c, u) && !OrderTwo(u)
  {
    hide Divides, OnCurve, Slope;
    OppositeIsNegation(c, u, v);
  }

  // ----- Multiples

  /** The k-fold sum. */
  function Multiple(c: Curve, pt: Point, k: nat): Point
    requires 2 <= c.p
  {
    if k == 0 then Identity else Sum(c, Multiple(c, pt, k - 1), pt)
  }

  lemma {:induction false} MultipleValid(c: Curve, pt: Point, k: nat)
    requires ValidCurve(c) && ValidPoint(c, pt)
    ensures ValidPoint(c, Multiple(c, pt, k))
    decreases k
  {
    hide Sum, OnCurve, Nonsingular, Divides;
    if k > 0 {
      MultipleValid(c, pt, k - 1);
      SumValid(c, Multiple(c, pt, k - 1), pt);
    }
  }

  /** Multiples add up. */
  lemma {:induction false} MultipleAdd(c: Curve, pt: Point, j: nat, k: nat)
    requires ValidCurve(c) && ValidPoint(c, pt)
    ensures Sum(c, Multiple(c, pt, j), Multiple(c, pt, k)) == Multiple(c, pt, j + k)
    decreases k
  {
    hide Sum, OnCurve, Nonsingular, Divides;
    var m := Multiple(c, pt, j);
    if k == 0 {
      Neutral(c, m);
    } else {
      MultipleAdd(c, pt, j, k - 1);
      MultipleValid(c, pt, j);
      MultipleValid(c, pt, k - 1);
      SumAssociates(c, m, Multiple(c, pt, k - 1), pt);
    }
  }

  lemma Neutral(c: Curve, s: Point)
    requires 2 <= c.p
    ensures Sum(c, Identity, s) == s == Sum(c, s, Identity)
  {}

  // ----- Orders

  ghost predicate Annihilates(c: Curve, pt: Point, n: nat)
    requires 2 <= c.p
  {
    Multiple(c, pt, n) == Identity
  }

  lemma AnnihilatesDifference(c: Curve, pt: Point, m: nat, n: nat)
    requires ValidCurve(c) && ValidPoint(c, pt)
    requires Multiple(c, pt, m) == Multiple(c, pt, m + n)
    ensures Annihilates(c, pt, n)
  {
    hide Sum, OnCurve, Nonsingular, Divides, Negate;
    var q, r := Multiple(c, pt, m), Multiple(c, pt, n);
    MultipleAdd(c, pt, m, n);
    MultipleValid(c, pt, m);
    MultipleValid(c, pt, n);
    Cancellation(c, q, r);
    Cancellation(c, q, Identity);
    Neutral(c, q);
  }

  lemma {:induction false} AnnihilatesMultiple(c: Curve, pt: Point, n: nat, k: nat)
    requires ValidCurve(c) && ValidPoint(c, pt) && Annihilates(c, pt, n)
    ensures n * k >= 0 && Annihilates(c, pt, n * k)
    decreases k
  {
    hide Sum, OnCurve, Nonsingular, Divides;
    if k > 0 {
      AnnihilatesMultiple(c, pt, n, k - 1);
      assert n * k == n * (k - 1) + n;
      MultipleAdd(c, pt, n * (k - 1), n);
      Neutral(c, Identity);
    } else {
      assert n * k == 0;
    }
  }

  lemma {:induction false} AnnihilatesGcd(c: Curve, pt: Point, a: nat, b: nat)
    requires ValidCurve(c) && ValidPoint(c, pt) && Annihilates(c, pt, a) && Annihilates(c, pt, b)
    ensures Annihilates(c, pt, Gcd(a, b))
    decreases b
  {
    hide Sum, OnCurve, Nonsingular, Divides, Prime, Multiple;
    if b > 0 {
      var w, r := b * (a / b), a % b;
      AnnihilatesMultiple(c, pt, b, a / b);
      QuotientAndRest(a, b);
      MultipleAdd(c, pt, w, r);
      Neutral(c, Multiple(c, pt, r));
      AnnihilatesGcd(c, pt, b, r);
    }
  }

  lemma QuotientAndRest(a: nat, b: nat)
    requires 0 < b
    ensures a == b * (a / b) + a % b && b * (a / b) >= 0
  {}

  /** A divisor of a power of two that is not the whole power divides its half. */
  lemma {:induction false} TwoPowerDivisor(d: nat, i: nat)
    requires Divides(d, TwoPow(i + 1)) && 0 < d <= TwoPow(i)
    ensures Divides(d, TwoPow(i))
    decreases i
  {
    hide Divides;
    var w := TwoPow(i);
    assert TwoPow(i + 1) == 2 * w;
    if d % 2 == 1 {
      assert 2 * (-(d / 2)) + 1 * d == 1;
      CoprimeBy(d, 2, 1, -(d / 2));
      CoprimeCancel(d, 2, w);
    } else {
      var h := d / 2;
      var q := Quotient(d, 2 * w);
      assert 2 * w == q * (2 * h) && q * (2 * h) == 2 * (q * h);
      DividesBy(h, w, q);
      TwoPowerDivisor(h, i - 1);
      var r := Quotient(h, TwoPow(i - 1));
      assert 2 * (r * h) == r * d;
      DividesBy(d, w, r);
    }
  }

  /** No smaller multiple meets a power-of-two multiple of ordinate zero. */
  lemma NoEarlyMeeting(c: Curve, pt: Point, low: nat, i: nat)
    requires ValidCurve(c) && ValidPoint(c, pt) && low < TwoPow(i)
    requires OrderTwo(Multiple(c, pt, TwoPow(i)))
    ensures Multiple(c, pt, low) != Multiple(c, pt, TwoPow(i))
  {
    hide Sum, OnCurve, Nonsingular, Divides;
    var w := TwoPow(i);
    if Multiple(c, pt, low) == Multiple(c, pt, w) {
      var n := w - low;
      AnnihilatesDifference(c, pt, low, n);
      MultipleAdd(c, pt, w, w);
      OrderTwoDoubles(c, Multiple(c, pt, w));
      assert TwoPow(i + 1) == w + w;
      AnnihilatesGcd(c, pt, n, w + w);
      var d := Gcd(n, w + w);
      GcdDivides(n, w + w);
      GcdPositive(n, w + w);
      DividesBound(d, n);
      TwoPowerDivisor(d, i);
      var k := Quotient(d, w);
      NonNegativeQuotient(k, d, w);
      assert d * k == w;
      AnnihilatesMultiple(c, pt, d, k);
    }
  }

  lemma NonNegativeQuotient(k: int, d: nat, w: nat)
    requires w == k * d && 0 < d
    ensures 0 <= k
  {}

  lemma OrderTwoDoubles(c: Curve, t: Point)
    requires 2 <= c.p && OrderTwo(t)
    ensures Sum(c, t, t) == Identity
  {}

  // ----- Double and add

  /** The doublings whose results the loop goes on to use never start from a point
      with ordinate zero. */
  ghost predicate SafeDoublings(c: Curve, pt: Point, k: nat)
    requires 2 <= c.p
  {
    forall j: nat :: TwoPow(j + 1) <= k ==> !OrderTwo(Multiple(c, pt, TwoPow(j)))
  }

  /** After i rounds: the accumulated low bits, and the next power of two. */
  ghost predicate Progress(c: Curve, pt: Point, k: nat, i: nat, low: nat, rest: nat, acc: Point, addend: Point)
    requires 2 <= c.p
  {
    && k == rest * TwoPow(i) + low && low < TwoPow(i)
    && acc == Multiple(c, pt, low)
    && (rest > 0 ==> addend == Multiple(c, pt, TwoPow(i)))
  }

  ghost predicate Sound(c: Curve, pt: Point, k: nat) {
    ValidCurve(c) && ValidPoint(c, pt) && SafeDoublings(c, pt, k)
  }

  lemma HalveRest(rest: nat, w: nat)
    requires 0 < rest && 0 < w
    ensures rest * w == (rest / 2) * (2 * w) + (if rest % 2 == 1 then w else 0)
    ensures rest > 1 ==> 2 * w <= rest * w
  {
    var h := rest / 2;
    SplitRest(h, rest % 2, w);
    if rest > 1 {
      AtLeast(rest, w);
    }
  }

  lemma SplitRest(h: int, b: int, w: int)
    ensures (2 * h + b) * w == h * (2 * w) + b * w
  {}

  lemma AtLeast(rest: int, w: int)
    requires 2 <= rest && 0 < w
    ensures 2 * w <= rest * w
  {}

  /** One round keeps the progress, with the additions of the source, when the doubling
      is safe or its result is not used. */
  lemma ProgressStep(c: Curve, pt: Point, k: nat, i: nat, low: nat, rest: nat, acc: Point, addend: Point)
    requires ValidCurve(c) && ValidPoint(c, pt) && Progress(c, pt, k, i, low, rest, acc, addend)
    requires 0 < rest && (1 < rest ==> !OrderTwo(addend))
    ensures var odd := rest % 2 == 1;
            Progress(c, pt, k, i + 1, if odd then low + TwoPow(i) else low, rest / 2,
                     if odd then Add(c, acc, addend) else acc, Add(c, addend, addend))
  {
    hide Add, Sum, OnCurve, Nonsingular, Divides;
    var w := TwoPow(i);
    HalveRest(rest, w);
    NeverMeets(c, pt, k, i, low, rest, acc, addend);
    AddIsSum(c, acc, addend);
    MultipleAdd(c, pt, low, w);
    assert TwoPow(i + 1) == 2 * w;
    if rest > 1 {
      AddIsSum(c, addend, addend);
      MultipleAdd(c, pt, w, w);
    }
  }

  /** The accumulator and the next power are curve points, and not the same point with
      ordinate zero. */
  lemma NeverMeets(c: Curve, pt: Point, k: nat, i: nat, low: nat, rest: nat, acc: Point, addend: Point)
    requires ValidCurve(c) && ValidPoint(c, pt) && Progress(c, pt, k, i, low, rest, acc, addend) && 0 < rest
    ensures ValidPoint(c, acc) && ValidPoint(c, addend)
    ensures acc != addend || !OrderTwo(addend)
  {
    hide Sum, OnCurve, Nonsingular, Divides, Multiple;
    MultipleValid(c, pt, low);
    MultipleValid(c, pt, TwoPow(i));
    if OrderTwo(addend) {
      NoEarlyMeeting(c, pt, low, i);
    }
  }

  /** In a sound run a doubling whose result is used is safe. */
  lemma SafeHere(c: Curve, pt: Point, k: nat, i: nat, low: nat, rest: nat, acc: Point, addend: Point)
    requires Sound(c, pt, k) && Progress(c, pt, k, i, low, rest, acc, addend) && 1 < rest
    ensures !OrderTwo(addend)
  {
    hide Multiple, OnCurve, Nonsingular;
    HalveRest(rest, TwoPow(i));
    assert TwoPow(i + 1) == 2 * TwoPow(i);
  }

  lemma ProgressStart(c: Curve, pt: Point, k: nat)
    requires 2 <= c.p && ValidPoint(c, pt)
    ensures Progress(c, pt, k, 0, 0, k, Identity, pt)
  {
    hide OnCurve;
    assert TwoPow(0) == 1;
    assert Multiple(c, pt, 1) == Sum(c, Multiple(c, pt, 0), pt);
    Neutral(c, pt);
  }

  lemma ProgressEnd(c: Curve, pt: Point, k: nat, i: nat, low: nat, acc: Point, addend: Point)
    requires Sound(c, pt, k) && Progress(c, pt, k, i, low, 0, acc, addend)
    ensures acc == Multiple(c, pt, k) && ValidPoint(c, acc)
  {
    hide OnCurve, Nonsingular;
    assert 0 * TwoPow(i) == 0;
    MultipleValid(c, pt, k);
  }

  lemma SoundField(c: Curve, pt: Point, k: nat)
    requires Sound(c, pt, k)
    ensures ValidPoint(c, pt)
  {}

  /** What is left of the loop. */
  function DoubleAndAdd(c: Curve, rest: nat, acc: Point, addend: Point): Point
    requires 2 <= c.p
    decreases rest
  {
    if rest == 0 then acc
    else DoubleAndAdd(c, rest / 2, if rest % 2 == 1 then Add(c, acc, addend) else acc, Add(c, addend, addend))
  }

  lemma {:induction false} SoundRun(c: Curve, pt: Point, k: nat, i: nat, low: nat, rest: nat, acc: Point, addend: Point)
    requires Sound(c, pt, k) && Progress(c, pt, k, i, low, rest, acc, addend)
    ensures DoubleAndAdd(c, rest, acc, addend) == Multiple(c, pt, k) && ValidPoint(c, Multiple(c, pt, k))
    decreases rest
  {
    hide Add, Progress, SafeDoublings, Multiple, OnCurve, TwoPow, Nonsingular;
    if rest == 0 {
      ProgressEnd(c, pt, k, i, low, acc, addend);
    } else {
      if rest > 1 {
        SafeHere(c, pt, k, i, low, rest, acc, addend);
      }
      ProgressStep(c, pt, k, i, low, rest, acc, addend);
      SoundRun(c, pt, k, i + 1, if rest % 2 == 1 then low + TwoPow(i) else low, rest / 2,
               if rest % 2 == 1 then Add(c, acc, addend) else acc, Add(c, addend, addend));
    }
  }

  /** Double and add computes the k-fold sum and stays on the curve, whenever no
      doubling that it needs starts from a point with ordinate zero. */
  method ScalarMultiplication(c: Curve, k: nat, pt: Point) returns (result: Point)
    requires 2 <= c.p
    ensures result == DoubleAndAdd(c, k, Identity, pt)
    ensures Sound(c, pt, k) ==> result == Multiple(c, pt, k) && ValidPoint(c, result)
  {
    hide Add, Progress, Sound, Multiple, OnCurve;
    result := Identity;
    var addend, rest := pt, k;
    while rest != 0
      invariant DoubleAndAdd(c, rest, result, addend) == DoubleAndAdd(c, k, Identity, pt)
      decreases rest
    {
      if rest % 2 == 1 {
        result := Add(c, result, addend);
      }
      addend := Add(c, addend, addend);
      rest := rest / 2;
    }
    if Sound(c, pt, k) {
      SoundField(c, pt, k);
      ProgressStart(c, pt, k);
      SoundRun(c, pt, k, 0, 0, k, Identity, pt);
    }
  }

  /** After a point with ordinate zero every further doubling is the identity. */
  lemma OnlyOneOrderTwo(c: Curve, pt: Point, i: nat, j: nat)
    requires ValidCurve(c) && ValidPoint(c, pt) && j < i && OrderTwo(Multiple(c, pt, TwoPow(j)))
    ensures Multiple(c, pt, TwoPow(i)) == Identity
  {
    hide Sum, OnCurve, Nonsingular, Divides, Multiple;
    var w := TwoPow(j);
    MultipleAdd(c, pt, w, w);
    OrderTwoDoubles(c, Multiple(c, pt, w));
    assert TwoPow(j + 1) == w + w;
    AnnihilatesMultiple(c, pt, TwoPow(j + 1), TwoPow(i - j - 1));
    TwoPowAdd(j + 1, i - j - 1);
  }

  /** Doublings from safe points reach the power-of-two multiple. */
  lemma {:induction false} SafeDoublingRun(c: Curve, pt: Point, i: nat, r: nat)
    requires ValidCurve(c) && ValidPoint(c, pt) && 0 < r
    requires forall j: nat :: j < i ==> !OrderTwo(Multiple(c, pt, TwoPow(j)))
    ensures r * TwoPow(i) >= 0
    ensures DoubleAndAdd(c, r * TwoPow(i), Identity, pt) == DoubleAndAdd(c, r, Identity, Multiple(c, pt, TwoPow(i)))
    decreases i
  {
    hide Add, Sum, OnCurve, Nonsingular, Divides, Multiple;
    if i == 0 {
      assert Multiple(c, pt, 1) == pt by { MultipleOne(c, pt); }
    } else {
      var m := Multiple(c, pt, TwoPow(i - 1));
      SafeDoublingRun(c, pt, i - 1, 2 * r);
      assert 2 * r * TwoPow(i - 1) == r * TwoPow(i);
      AddIsSum(c, m, m);
      MultipleAdd(c, pt, TwoPow(i - 1), TwoPow(i - 1));
      assert 2 * r / 2 == r && 2 * r % 2 == 0;
    }
  }

  lemma MultipleOne(c: Curve, pt: Point)
    requires 2 <= c.p
    ensures Multiple(c, pt, 1) == pt
  {
    Neutral(c, pt);
    assert Multiple(c, pt, 1) == Sum(c, Multiple(c, pt, 0), pt);
  }

  /** Points with ordinate zero add to another one, on the curve or off it. */
  lemma FlatAdd(c: Curve, s: Point, t: Point)
    requires Prime(c.p) && 3 < c.p && OrderTwo(s) && OrderTwo(t)
    ensures OrderTwo(Add(c, s, t))
  {
    if s.x == t.x {
      VerticalDouble(c, s.x);
    } else {
      FlatSlope(InverseMod(t.x - s.x, c.p), c.p);
    }
  }

  lemma FlatSlope(inv: int, p: int)
    requires 0 < p
    ensures (0 - 0) * inv % p == 0
  {
    assert (0 - 0) * inv == 0;
  }

  /** From there the loop never comes back to the identity. */
  lemma {:induction false} FlatRun(c: Curve, rest: nat, acc: Point, addend: Point)
    requires Prime(c.p) && 3 < c.p && OrderTwo(addend)
    requires OrderTwo(acc) || (acc.Identity? && 0 < rest)
    ensures OrderTwo(DoubleAndAdd(c, rest, acc, addend))
    decreases rest
  {
    hide Prime;
    if rest > 0 {
      FlatAdd(c, addend, addend);
      if OrderTwo(acc) {
        FlatAdd(c, acc, addend);
      }
      assert Add(c, Identity, addend) == addend;
      hide Add;
      FlatRun(c, rest / 2, if rest % 2 == 1 then Add(c, acc, addend) else acc, Add(c, addend, addend));
    }
  }

  /** When the power-of-two multiple 2^i has ordinate zero, the loop is wrong for every
      positive multiple of 2^(i+1). */
  lemma LostAtDouble(c: Curve, pt: Point, i: nat, r: nat)
    requires ValidCurve(c) && ValidPoint(c, pt) && OrderTwo(Multiple(c, pt, TwoPow(i))) && 0 < r
    ensures TwoPow(i + 1) * r >= 0
    ensures Multiple(c, pt, TwoPow(i + 1) * r) == Identity != DoubleAndAdd(c, TwoPow(i + 1) * r, Identity, pt)
  {
    hide Add, Sum, OnCurve, Nonsingular, Divides, Multiple, Prime;
    SafeBefore(c, pt, i);
    var w := TwoPow(i);
    OnlyOneOrderTwo(c, pt, i + 1, i);
    AnnihilatesMultiple(c, pt, TwoPow(i + 1), r);
    SafeDoublingRun(c, pt, i, 2 * r);
    assert 2 * r * w == TwoPow(i + 1) * r by { assert TwoPow(i + 1) == 2 * w; }
    FlatRun(c, 2 * r, Identity, Multiple(c, pt, w));
  }

  /** The loop is right for every scalar if and only if no power-of-two multiple of
      the point has ordinate zero. */
  lemma ExactOverAllScalars(c: Curve, pt: Point)
    requires ValidCurve(c) && ValidPoint(c, pt)
    ensures (forall k: nat :: DoubleAndAdd(c, k, Identity, pt) == Multiple(c, pt, k))
       <==> (forall i: nat :: !OrderTwo(Multiple(c, pt, TwoPow(i))))
  {
    hide Add, OnCurve, Nonsingular, Multiple, DoubleAndAdd, TwoPow;
    if forall i: nat :: !OrderTwo(Multiple(c, pt, TwoPow(i))) {
      forall k: nat ensures DoubleAndAdd(c, k, Identity, pt) == Multiple(c, pt, k) {
        ProgressStart(c, pt, k);
        SoundRun(c, pt, k, 0, 0, k, Identity, pt);
      }
    } else {
      var i: nat :| OrderTwo(Multiple(c, pt, TwoPow(i)));
      LostAtDouble(c, pt, i, 1);
    }
  }

  // ----- A single scalar, when the point with ordinate zero is the origin

  /** The parity of the one bits. */
  predicate OddOnes(h: nat) {
    h != 0 && ((h % 2 == 1) != OddOnes(h / 2))
  }

  /** The safe doublings bring the loop to bit i. */
  lemma {:induction false} ReachBit(c: Curve, pt: Point, k: nat, i: nat,
                                    j: nat, low: nat, rest: nat, acc: Point, addend: Point)
    requires ValidCurve(c) && ValidPoint(c, pt) && Progress(c, pt, k, j, low, rest, acc, addend)
    requires j <= i && AllSafe(c, pt, i) && TwoPow(i) <= k
    ensures DoubleAndAdd(c, rest, acc, addend)
         == DoubleAndAdd(c, k / TwoPow(i), Multiple(c, pt, k % TwoPow(i)), Multiple(c, pt, TwoPow(i)))
    decreases i - j
  {
    hide Add, Sum, OnCurve, Nonsingular, Prime, Multiple;
    assert rest > 0 by { RestPositive(k, i, j, low, rest); }
    if j == i {
      DivModUnique(k, TwoPow(i), rest, low);
    } else {
      ProgressStep(c, pt, k, j, low, rest, acc, addend);
      hide Progress;
      ReachBit(c, pt, k, i, j + 1, if rest % 2 == 1 then low + TwoPow(j) else low, rest / 2,
               if rest % 2 == 1 then Add(c, acc, addend) else acc, Add(c, addend, addend));
    }
  }

  lemma RestPositive(k: nat, i: nat, j: nat, low: nat, rest: nat)
    requires j <= i && TwoPow(i) <= k == rest * TwoPow(j) + low && low < TwoPow(j)
    ensures rest > 0
  {
    if j < i {
      PowersGrow(j, i);
    }
    assert rest == 0 ==> rest * TwoPow(j) == 0;
  }

  /** One more turn, the last whose addend is right. */
  lemma PassBit(c: Curve, pt: Point, k: nat, i: nat)
    requires ValidCurve(c) && ValidPoint(c, pt) && OrderTwo(Multiple(c, pt, TwoPow(i))) && TwoPow(i) <= k
    ensures var t := Multiple(c, pt, TwoPow(i));
            DoubleAndAdd(c, k, Identity, pt)
            == DoubleAndAdd(c, k / TwoPow(i + 1), Multiple(c, pt, k % TwoPow(i + 1)), Add(c, t, t))
  {
    hide Add, Sum, OnCurve, Nonsingular, Prime, Multiple, DoubleAndAdd;
    var w, t := TwoPow(i), Multiple(c, pt, TwoPow(i));
    assert AllSafe(c, pt, i) by { SafeBefore(c, pt, i); }
    ProgressStart(c, pt, k);
    ReachBit(c, pt, k, i, 0, 0, k, Identity, pt);
    var rest, low := k / w, k % w;
    QuotientAndRest(k, w);
    var acc := Multiple(c, pt, low);
    assert rest > 0 by { RestPositive(k, i, i, low, rest); }
    SplitBit(k, w, rest, low);
    NeverMeets(c, pt, k, i, low, rest, acc, t);
    AddIsSum(c, acc, t);
    MultipleAdd(c, pt, low, w);
    assert TwoPow(i + 1) == 2 * w;
    hide TwoPow, Progress;
    OneTurn(c, rest, acc, t);
  }

  lemma OneTurn(c: Curve, rest: nat, acc: Point, addend: Point)
    requires 2 <= c.p && 0 < rest
    ensures DoubleAndAdd(c, rest, acc, addend)
         == DoubleAndAdd(c, rest / 2, if rest % 2 == 1 then Add(c, acc, addend) else acc, Add(c, addend, addend))
  {
    hide Add;
  }

  /** Division by the double of a number. */
  lemma SplitBit(k: nat, w: nat, rest: nat, low: nat)
    requires k == rest * w + low && low < w && 0 < rest
    ensures k / (2 * w) == rest / 2 && k % (2 * w) == if rest % 2 == 1 then low + w else low
  {
    HalveRest(rest, w);
    DivModUnique(k, 2 * w, rest / 2, if rest % 2 == 1 then low + w else low);
  }

  lemma SafeBefore(c: Curve, pt: Point, i: nat)
    requires ValidCurve(c) && ValidPoint(c, pt) && OrderTwo(Multiple(c, pt, TwoPow(i)))
    ensures AllSafe(c, pt, i)
  {
    hide OnCurve, Nonsingular, Prime, Multiple;
    forall j: nat | j < i ensures !OrderTwo(Multiple(c, pt, TwoPow(j))) {
      if OrderTwo(Multiple(c, pt, TwoPow(j))) {
        OnlyOneOrderTwo(c, pt, i, j);
      }
    }
  }

  const ORIGIN := Affine(0, 0)

  /** Adding the origin to another finite point moves it, and twice brings it back. */
  lemma OriginMoves(c: Curve, s: Point)
    requires ValidCurve(c) && ValidPoint(c, ORIGIN) && ValidPoint(c, s) && s != Identity && s != ORIGIN
    ensures ValidPoint(c, Sum(c, s, ORIGIN)) && Sum(c, s, ORIGIN) != Identity && Sum(c, s, ORIGIN) != ORIGIN
    ensures Sum(c, s, ORIGIN) != s && Sum(c, Sum(c, s, ORIGIN), ORIGIN) == s
  {
    OriginDoubles(c);
    hide Sum, OnCurve, Nonsingular, Prime, Negate;
    var m := Sum(c, s, ORIGIN);
    AbelianGroup(c, s, ORIGIN, ORIGIN);
    Neutral(c, s);
    Neutral(c, ORIGIN);
    Cancellation(c, s, ORIGIN);
  }

  lemma OriginDoubles(c: Curve)
    requires Prime(c.p) && 3 < c.p
    ensures Add(c, ORIGIN, ORIGIN) == ORIGIN && Sum(c, ORIGIN, ORIGIN) == Identity
  {
    VerticalDouble(c, 0);
    OrderTwoDoubles(c, ORIGIN);
    DivModUnique(0, c.p, 0, 0);
    hide Add, Sum;
  }

  /** What the loop makes of the origin as addend, which its doublings do not change. */
  lemma {:induction false} OriginRun(c: Curve, h: nat, acc: Point)
    requires ValidCurve(c) && ValidPoint(c, ORIGIN) && ValidPoint(c, acc)
    ensures DoubleAndAdd(c, h, acc, ORIGIN)
         == if h == 0 then acc
            else if acc == Identity || acc == ORIGIN then ORIGIN
            else if OddOnes(h) then Sum(c, acc, ORIGIN) else acc
    decreases h
  {
    OriginDoubles(c);
    AddIsSum(c, acc, ORIGIN);
    Neutral(c, ORIGIN);
    hide Add, Sum, OnCurve, Nonsingular, Prime;
    if h > 0 {
      if acc != Identity && acc != ORIGIN {
        OriginMoves(c, acc);
      }
      OriginRun(c, h / 2, if h % 2 == 1 then Add(c, acc, ORIGIN) else acc);
    }
  }

  /** When 2^i times the point is the origin, the loop is right for a scalar if and only
      if it has no bits above i, or those up to i already lead to the origin, or they
      lead to another finite point and the one bits above are even in number. */
  lemma ExactAtOrigin(c: Curve, pt: Point, i: nat, k: nat)
    requires ValidCurve(c) && ValidPoint(c, pt) && Multiple(c, pt, TwoPow(i)) == ORIGIN
    ensures var h, a := k / TwoPow(i + 1), Multiple(c, pt, k % TwoPow(i + 1));
            DoubleAndAdd(c, k, Identity, pt) == Multiple(c, pt, k)
            <==> h == 0 || a == ORIGIN || (a != Identity && !OddOnes(h))
  {
    hide Add, Sum, OnCurve, Nonsingular, Prime, Multiple, DoubleAndAdd;
    var w := TwoPow(i + 1);
    var h, low := k / w, k % w;
    var a := Multiple(c, pt, low);
    QuotientAndRest(k, w);
    MultipleValid(c, pt, TwoPow(i));
    MultipleValid(c, pt, low);
    OnlyOneOrderTwo(c, pt, i + 1, i);
    AnnihilatesMultiple(c, pt, w, h);
    MultipleAdd(c, pt, w * h, low);
    Neutral(c, a);
    OriginDoubles(c);
    OriginRun(c, h, a);
    if a != Identity && a != ORIGIN {
      OriginMoves(c, a);
    }
    if TwoPow(i) <= k {
      PassBit(c, pt, k, i);
    } else {
      BelowBit(c, pt, i, k);
    }
  }

  /** Scalars that do not reach the bit are safe. */
  lemma BelowBit(c: Curve, pt: Point, i: nat, k: nat)
    requires ValidCurve(c) && ValidPoint(c, pt) && OrderTwo(Multiple(c, pt, TwoPow(i))) && k < TwoPow(i)
    ensures k / TwoPow(i + 1) == 0 && DoubleAndAdd(c, k, Identity, pt) == Multiple(c, pt, k)
  {
    hide Add, OnCurve, Nonsingular, Prime, Multiple, DoubleAndAdd;
    assert TwoPow(i + 1) == 2 * TwoPow(i);
    DivModUnique(k, TwoPow(i + 1), 0, k);
    assert SafeDoublings(c, pt, k) by {
      SafeBefore(c, pt, i);
      forall j: nat | TwoPow(j + 1) <= k ensures !OrderTwo(Multiple(c, pt, TwoPow(j))) {
        if i < j + 1 {
          PowersGrow(i, j + 1);
        }
      }
    }
    ProgressStart(c, pt, k);
    SoundRun(c, pt, k, 0, 0, k, Identity, pt);
  }

  /** So for a single scalar the condition of the loop is not necessary: on y^2 = x^3 + x
      over F_7 the double of (1, 3) is the origin, and yet 13 comes out right, the two
      wrong summands cancelling. */
  lemma UnsafeYetRight()
    ensures var c, pt := Curve(1, 0, 7), Affine(1, 3);
            && ValidCurve(c) && ValidPoint(c, pt) && !SafeDoublings(c, pt, 13)
            && DoubleAndAdd(c, 13, Identity, pt) == Multiple(c, pt, 13)
  {
    hide Add, OnCurve, Nonsingular, Multiple, TwoPow, Prime, DoubleAndAdd;
    var c, pt := Curve(1, 0, 7), Affine(1, 3);
    SmallCurve();
    SmallPowers();
    MultipleOne(c, pt);
    AddIsSum(c, pt, pt);
    MultipleAdd(c, pt, 1, 1);
    assert OrderTwo(Multiple(c, pt, TwoPow(1))) && TwoPow(1 + 1) <= 13;
    assert !OddOnes(3) by { assert OddOnes(1); }
    ExactAtOrigin(c, pt, 1, 13);
  }

  lemma SmallCurve()
    ensures var c, pt := Curve(1, 0, 7), Affine(1, 3);
            ValidCurve(c) && ValidPoint(c, pt) && Add(c, pt, pt) == ORIGIN
  {
    hide Prime, OnCurve;
    TrialDivisionExact(7, 2);
    IsOnCurveMeans(Curve(1, 0, 7), 1, 3);
    assert Pow(6, 5) == 6 * (6 * (6 * (6 * 6)));
    assert InverseMod(6, 7) == 6;
  }

  /** The curve and the point of the example usage are valid, and the curve has a point
      with ordinate zero, for which the loop is wrong at the scalar 2. */
  lemma ExampleCurve()
    ensures var c := Curve(2, 3, 97);
            && ValidCurve(c) && ValidPoint(c, Affine(3, 6)) && ValidPoint(c, Affine(96, 0))
            && DoubleAndAdd(c, 2, Identity, Affine(96, 0)) != Multiple(c, Affine(96, 0), 2)
  {
    hide DoubleAndAdd, Multiple, TwoPow, Prime, OnCurve;
    var c, t := Curve(2, 3, 97), Affine(96, 0);
    assert Prime(97) by {
      assert forall i :: 2 <= i <= 9 ==> 97 % i != 0;
      TrialDivisionExact(97, 9);
    }
    IsOnCurveMeans(c, 3, 6);
    IsOnCurveMeans(c, 96, 0);
    MultipleOne(c, t);
    SmallPowers();
    LostAtDouble(c, t, 0, 1);
  }

  lemma SmallPowers()
    ensures TwoPow(0) == 1 && TwoPow(1) == 2 && TwoPow(2) == 4
  {}

  // ----- The Ruby class

  /** The inverse that the Ruby loop finds is the one that Python raises to. */
  lemma InversesAgree(x: int, t: int, p: int)
    requires Prime(p) && 2 < p && IsInverse(t, x, p)
    ensures t == InverseMod(x, p)
  {
    if Divides(p, x) {
      DividesMul(p, x, t);
      DividesAdd(p, x * t, x * t - 1);
      assert x * t - (x * t - 1) == 1;
      DividesBound(p, 1);
    }
    FermatInverse(x, p);
    InverseUnique(t, InverseMod(x, p), x, p);
  }

  lemma CoprimeResidue(x: int, p: int)
    requires Prime(p)
    ensures Coprime(x % p, p) <==> !Divides(p, x)
  {
    DividesIffMod(p, x);
    var r := x % p;
    if r == 0 {
      assert Gcd(0, p) == Gcd(p, 0 % p) by { DivModUnique(0, p, 0, 0); }
    } else {
      NotMultiple(p, r);
      PrimeCoprime(p, r);
      CoprimeSym(p, r);
    }
  }

  /** The inverse that the addition needs does not exist. */
  ghost predicate Raises(c: Curve, u: Point, v: Point) {
    && u.Affine? && v.Affine?
    && ((u == v && Divides(c.p, 2 * u.y)) || (u.x != v.x && Divides(c.p, v.x - u.x)))
  }

  /** The Ruby addition raises exactly when the inverse it needs does not exist,
      and otherwise agrees with the Python one. */
  method RubyPointAddition(c: Curve, u: Point, v: Point) returns (r: Option<Point>)
    requires Prime(c.p) && 2 < c.p
    ensures r.None? <==> Raises(c, u, v)
    ensures r.Some? ==> r.value == Add(c, u, v)
  {
    hide Divides, Coprime, Prime, IsInverse, InverseMod, Third, Cong;
    PrimeAbove(c.p);
    if u.Identity? {
      return Some(v);
    }
    if v.Identity? {
      return Some(u);
    }
    if u.x == v.x && u.y != v.y {
      return Some(Identity);
    }
    var z := if u.x == v.x then 2 * u.y else v.x - u.x;
    var inv := RubyCurveInverse(z, c.p);
    CoprimeResidue(z, c.p);
    if inv.None? {
      return None;
    }
    InversesAgree(z, inv.value, c.p);
    var m := if u.x == v.x then (3 * (u.x * u.x) + c.a) * inv.value % c.p
             else (v.y - u.y) * inv.value % c.p;
    return Some(Third(c, m, u.x, u.y, v.x));
  }

  lemma PrimeAbove(p: int)
    requires Prime(p)
    ensures 2 <= p
  {}

  /** On reduced points the Ruby addition raises only when doubling a point with
      ordinate zero. */
  lemma RaisesOnlyAtOrderTwo(c: Curve, u: Point, v: Point)
    requires Prime(c.p) && 2 < c.p && Reduced(c, u) && Reduced(c, v)
    ensures Raises(c, u, v) <==> u == v && OrderTwo(u)
  {
    hide Divides;
    if u.Affine? && v.Affine? {
      if u.x != v.x {
        NotMultiple(c.p, v.x - u.x);
      }
      if u.y == 0 {
        DividesBy(c.p, 2 * u.y, 0);
      } else {
        TwiceNotMultiple(c.p, u.y);
      }
    }
  }

  lemma {:induction false} PowersGrow(i: nat, j: nat)
    requires i < j
    ensures TwoPow(i + 1) <= TwoPow(j)
    decreases j
  {
    if i + 1 < j {
      PowersGrow(i, j - 1);
    }
  }

  /** Some doubling that the loop makes starts from a point with ordinate zero. */
  ghost predicate MeetsOrderTwo(c: Curve, pt: Point, k: nat)
    requires 2 <= c.p
  {
    exists i: nat :: TwoPow(i) <= k && OrderTwo(Multiple(c, pt, TwoPow(i)))
  }

  /** The first i doublings started elsewhere. */
  ghost predicate AllSafe(c: Curve, pt: Point, i: nat)
    requires 2 <= c.p
  {
    forall j: nat :: j < i ==> !OrderTwo(Multiple(c, pt, TwoPow(j)))
  }

  lemma RaisesInLoop(c: Curve, pt: Point, k: nat, i: nat, low: nat, rest: nat, acc: Point, addend: Point)
    requires ValidCurve(c) && ValidPoint(c, pt) && Progress(c, pt, k, i, low, rest, acc, addend) && 0 < rest
    requires AllSafe(c, pt, i)
    ensures !Raises(c, acc, addend)
    ensures Raises(c, addend, addend) <==> OrderTwo(addend)
    ensures OrderTwo(addend) ==> MeetsOrderTwo(c, pt, k)
    ensures !OrderTwo(addend) ==> AllSafe(c, pt, i + 1)
  {
    hide Divides, OnCurve, Nonsingular, Raises, Multiple;
    NeverMeets(c, pt, k, i, low, rest, acc, addend);
    RaisesOnlyAtOrderTwo(c, acc, addend);
    RaisesOnlyAtOrderTwo(c, addend, addend);
    AtLeastOnce(rest, TwoPow(i));
  }

  lemma AtLeastOnce(rest: nat, w: nat)
    requires 0 < rest
    ensures w <= rest * w
  {
    assert rest * w == (rest - 1) * w + w && (rest - 1) * w >= 0;
  }

  lemma SafeToTheEnd(c: Curve, pt: Point, k: nat, i: nat, low: nat, acc: Point, addend: Point)
    requires ValidCurve(c) && ValidPoint(c, pt) && Progress(c, pt, k, i, low, 0, acc, addend) && AllSafe(c, pt, i)
    ensures !MeetsOrderTwo(c, pt, k) && acc == Multiple(c, pt, k)
  {
    hide OnCurve, Nonsingular, Multiple;
    assert 0 * TwoPow(i) == 0;
    forall j: nat | TwoPow(j) <= k
      ensures j < i
    {
      if i < j {
        PowersGrow(i, j);
      }
    }
  }

  /** The Ruby scalar multiplication raises if and only if one of its doublings starts
      from a point with ordinate zero, and otherwise gives the k-fold sum. */
  method RubyScalarMultiplication(c: Curve, k: nat, pt: Point) returns (r: Option<Point>)
    requires Prime(c.p) && 2 < c.p
    ensures ValidCurve(c) && ValidPoint(c, pt) ==> (r.None? <==> MeetsOrderTwo(c, pt, k))
    ensures ValidCurve(c) && ValidPoint(c, pt) && r.Some? ==> r.value == Multiple(c, pt, k)
  {
    hide *;
    PrimeAbove(c.p);
    var result, addend, rest := Identity, pt, k;
    ghost var valid := ValidCurve(c) && ValidPoint(c, pt);
    ghost var i: nat, low: nat := 0, 0;
    if valid {
      ProgressStart(c, pt, k);
      assert AllSafe(c, pt, 0) by { NothingUnsafe(c, pt); }
    }
    while rest > 0
      invariant valid ==> Progress(c, pt, k, i, low, rest, result, addend) && AllSafe(c, pt, i)
      decreases rest
    {
      if valid {
        RaisesInLoop(c, pt, k, i, low, rest, result, addend);
        if !OrderTwo(addend) {
          ProgressStep(c, pt, k, i, low, rest, result, addend);
        }
      }
      if rest % 2 == 1 {
        var sum := RubyPointAddition(c, result, addend);
        if sum.None? {
          return None;
        }
        result := sum.value;
        low := if valid then low + TwoPow(i) else low;
      }
      var double := RubyPointAddition(c, addend, addend);
      if double.None? {
        return None;
      }
      addend := double.value;
      rest := rest / 2;
      i := i + 1;
    }
    if valid {
      SafeToTheEnd(c, pt, k, i, low, result, addend);
    }
    return Some(result);
  }

  lemma NothingUnsafe(c: Curve, pt: Point)
    requires 2 <= c.p
    ensures AllSafe(c, pt, 0)
  {}
}
