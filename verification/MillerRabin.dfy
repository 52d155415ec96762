/** Square-and-multiply and the two primality tests: Miller-Rabin as written in
    JavaScript and trial division as written in Ruby. */
module MillerRabin {
  import opened Modular
  import opened NumberTheory
  import opened Fermat

  /** What `modPow` answers: a residue, except that an empty exponent loop leaves
      the initial one untouched even when the modulus is one. */
  function ModPow(b: int, e: nat, m: nat): (r: int)
    requires 0 < m
    ensures Cong(r, Pow(b, e), m)
  {
    CongMod(Pow(b, e), m);
    CongRefl(1, m);
    if e == 0 then 1 else Pow(b, e) % m
  }

  lemma ModPowRange(b: int, e: nat, m: nat)
    requires 2 <= m
    ensures 0 <= ModPow(b, e, m) < m
  {}

  /** The residue is determined by its class. */
  lemma ModPowIs(b: int, e: nat, m: nat, r: int)
    requires 2 <= m && 0 <= r < m
    ensures ModPow(b, e, m) == r <==> Cong(Pow(b, e), r, m)
  {
    ModPowRange(b, e, m);
    var v := ModPow(b, e, m);
    if Cong(Pow(b, e), r, m) {
      CongTrans(v, Pow(b, e), r, m);
      CongUnique(v, r, m);
    }
    if v == r {
      CongSym(v, Pow(b, e), m);
    }
  }

  /** One halving of the exponent. */
  lemma HalveExponent(b: int, e: nat, m: int, c: int)
    requires 0 < m && Cong(c, b, m)
    ensures Cong(Pow((c * c) % m, e / 2) * (if e % 2 == 1 then c else 1), Pow(b, e), m)
  {
    var h, s := e / 2, (c * c) % m;
    CongMod(c * c, m);
    CongMul(c, b, c, b, m);
    CongTrans(s, c * c, b * b, m);
    PowCong(s, b * b, h, m);
    PowMul(b, 2, h);
    assert Pow(b, 2) == b * (b * Pow(b, 0));
    if e % 2 == 1 {
      CongMul(Pow(s, h), Pow(b, 2 * h), c, b, m);
      assert Pow(b, e) == b * Pow(b, 2 * h);
    }
  }

  /** The remainder of JavaScript, which has the sign of the dividend. */
  function JsRem(a: int, m: nat): int
    requires 0 < m
  {
    if a >= 0 then a % m else -((-a) % m)
  }

  /** The remainder is the dividend less a multiple of the modulus, is smaller than the
      modulus and has the dividend's sign, if any. */
  lemma JsRemMeans(a: int, m: nat)
    requires 0 < m
    ensures Cong(a, JsRem(a, m), m) && 0 < JsRem(a, m) + m && JsRem(a, m) < m
    ensures (a >= 0 ==> JsRem(a, m) >= 0) && (a <= 0 ==> JsRem(a, m) <= 0)
  {
    if a >= 0 {
      CongMod(a, m);
      if a == 0 {
        DivModUnique(0, m, 0, 0);
      }
    } else {
      CongMod(-a, m);
      CongBy(a, -((-a) % m), m, -((-a) / m));
    }
  }

  lemma JsRemNegate(a: int, m: nat)
    requires 0 < m
    ensures JsRem(-a, m) == -JsRem(a, m)
  {
    if a == 0 {
      DivModUnique(0, m, 0, 0);
    }
  }

  function Signed(negative: bool, a: int): int {
    if negative then -a else a
  }

  lemma SignedProduct(negative: bool, a: nat, c: nat, m: nat)
    requires 0 < m
    ensures JsRem(Signed(negative, a) * c, m) == Signed(negative, a * c % m)
  {
    SignTimes(a, c);
    JsRemNegate(a * c, m);
  }

  lemma {:induction false} PowSign(b: int, e: nat)
    ensures Pow(-b, e) == Signed(e % 2 == 1, Pow(b, e))
  {
    if e > 0 {
      PowSign(b, e - 1);
      SignTimes(b, Pow(b, e - 1));
    }
  }

  lemma SignTimes(b: int, w: int)
    ensures (-b) * w == -(b * w) && (-b) * -w == b * w
  {}

  lemma {:induction false} PowNonNegative(b: nat, e: nat)
    ensures 0 <= Pow(b, e)
  {
    if e > 0 {
      PowNonNegative(b, e - 1);
    }
  }

  /** The magnitude of the answer is that for the magnitude of the base, and its sign
      that of the power. */
  lemma SignedPower(base: int, exp: nat, mod: nat)
    requires 0 < mod && 0 < exp
    ensures var size := if base < 0 then -base else base;
            Signed(base < 0 && exp % 2 == 1, ModPow(size, exp, mod)) == JsRem(Pow(base, exp), mod)
  {
    var size := if base < 0 then -base else base;
    PowSign(size, exp);
    PowNonNegative(size, exp);
    JsRemNegate(Pow(size, exp), mod);
    hide Pow, Cong;
  }

  /** Square-and-multiply, with the remainder of the language at every step. */
  method JsModPow(base: int, exp: nat, mod: nat) returns (result: int)
    requires 0 < mod
    ensures result == if exp == 0 then 1 else JsRem(Pow(base, exp), mod)
    ensures 0 <= base ==> result == ModPow(base, exp, mod)
  {
    hide Pow, Cong, Divides, JsRem, ModPow;
    result := 1;
    var b, e: nat := JsRem(base, mod), exp;
    ghost var size: nat := if base < 0 then -base else base;
    ghost var negative := base < 0 && exp % 2 == 1;
    ghost var a: nat, c: nat := 1, size % mod;
    StartSigned(base, size, mod);
    CongMod(size, mod);
    PowCong(c, size, e, mod);
    while e > 0
      invariant Cong(a * Pow(c, e), Pow(size, exp), mod)
      invariant e == exp ==> a == 1 && result == 1 && b == Signed(base < 0, c)
      invariant e < exp ==> b == c && result == Signed(negative, a)
      invariant e <= exp && (0 < exp && e == 0 ==> a < mod)
      decreases e
    {
      LoopStep(a, c, e, mod, Pow(size, exp));
      Residues(a, c, mod);
      if e == exp {
        SquareSigned(base < 0, c, mod);
        SignedProduct(base < 0, c, 1, mod);
      } else {
        SquareSigned(false, c, mod);
        SignedProduct(negative, a, c, mod);
      }
      if e % 2 == 1 {
        result := JsRem(result * b, mod);
        a := a * c % mod;
      }
      e := e / 2;
      b := JsRem(b * b, mod);
      c := c * c % mod;
    }
    LoopEnd(a, c, size, exp, mod);
    if exp == 0 {
      ModPowZero(base, mod);
    } else {
      SignedPower(base, exp, mod);
    }
  }

  lemma StartSigned(base: int, size: nat, m: nat)
    requires 0 < m && size == if base < 0 then -base else base
    ensures JsRem(base, m) == Signed(base < 0, size % m) && size % m >= 0
  {}

  lemma Residues(a: nat, c: nat, m: nat)
    requires 0 < m
    ensures 0 <= a * c % m < m && 0 <= c * c % m && 1 * c == c
  {}

  lemma SquareSigned(negative: bool, c: nat, m: nat)
    requires 0 < m
    ensures JsRem(Signed(negative, c) * Signed(negative, c), m) == c * c % m
  {
    SignTimes(c, c);
  }

  lemma ModPowZero(base: int, m: nat)
    requires 0 < m
    ensures ModPow(base, 0, m) == 1
  {}

  lemma LoopEnd(acc: int, b: int, base: int, exp: nat, m: nat)
    requires 0 < m && Cong(acc * Pow(b, 0), Pow(base, exp), m)
    requires if exp == 0 then acc == 1 else 0 <= acc < m
    ensures acc == ModPow(base, exp, m)
  {
    assert acc * Pow(b, 0) == acc;
    if exp > 0 {
      CongMod(Pow(base, exp), m);
      CongTrans(acc, Pow(base, exp), Pow(base, exp) % m, m);
      CongUnique(acc, Pow(base, exp) % m, m);
    }
  }

  /** The accumulator times the remaining power never changes its class. */
  lemma LoopStep(acc: int, b: int, e: nat, m: int, target: int)
    requires 0 < m && 0 < e && Cong(acc * Pow(b, e), target, m)
    ensures var acc' := if e % 2 == 1 then (acc * b) % m else acc;
            Cong(acc' * Pow((b * b) % m, e / 2), target, m)
    ensures e == 1 ==> 0 <= (acc * b) % m < m
  {
    var w := Pow((b * b) % m, e / 2);
    CongRefl(b, m);
    HalveExponent(b, e, m, b);
    CongRefl(acc, m);
    if e % 2 == 1 {
      CongMul(acc, acc, w * b, Pow(b, e), m);
      CongMod(acc * b, m);
      CongRefl(w, m);
      CongMul((acc * b) % m, acc * b, w, w, m);
      assert acc * (w * b) == (acc * b) * w;
      CongTrans(((acc * b) % m) * w, (acc * b) * w, acc * Pow(b, e), m);
      CongTrans(((acc * b) % m) * w, acc * Pow(b, e), target, m);
    } else {
      CongMul(acc, acc, w, Pow(b, e), m);
      CongTrans(acc * w, acc * Pow(b, e), target, m);
    }
  }

  // ----- Miller-Rabin

  /** The power of two in `m`, and what is left of `m` without it. */
  function Twos(m: nat): nat
    requires 0 < m
  {
    if m % 2 == 0 then 1 + Twos(m / 2) else 0
  }

  function OddPart(m: nat): nat
    requires 0 < m
  {
    if m % 2 == 0 then OddPart(m / 2) else m
  }

  lemma {:induction false} TwosOddPart(m: nat)
    requires 0 < m
    ensures m == OddPart(m) * Pow(2, Twos(m)) && OddPart(m) % 2 == 1
    decreases m
  {
    if m % 2 == 0 {
      TwosOddPart(m / 2);
      var r, w := OddPart(m / 2), Pow(2, Twos(m / 2));
      assert m == r * w * 2;
      assert r * w * 2 == r * (2 * w);
    } else {
      assert m * 1 == m;
    }
  }

  /** The exponents that the test squares through. */
  function Level(n: nat, j: nat): nat
    requires 1 < n
  {
    PowPositive(2, j);
    OddPart(n - 1) * Pow(2, j)
  }

  /** `a` does not witness the compositeness of `n`. */
  ghost predicate Passes(n: nat, a: int)
    requires 1 < n
  {
    || ModPow(a, Level(n, 0), n) == 1
    || exists j :: 0 <= j < Twos(n - 1) && ModPow(a, Level(n, j), n) == n - 1
  }

  /** A draw of the generator, brought into [min, max]. */
  function RandBetween(rand: nat, min: nat, max: nat): (r: nat)
    requires min <= max
    ensures min <= r <= max
  {
    min + rand % (max - min + 1)
  }

  /** Each number of the range is drawn by one class of values of the generator. */
  lemma RandReaches(rand: nat, min: nat, max: nat, r: nat)
    requires min <= r <= max
    ensures RandBetween(rand, min, max) == r <==> Cong(rand, r - min, max - min + 1)
  {
    var w := max - min + 1;
    CongIffMod(rand, r - min, w);
    DivModUnique(r - min, w, 0, r - min);
    hide Cong;
  }

  /** The answer of the test for the draws `rands`. */
  ghost predicate ProbablePrime(n: int, rands: seq<nat>) {
    || n == 2
    || n == 3
    || (3 < n && n % 2 == 1 && forall i :: 0 <= i < |rands| ==> Passes(n, RandBetween(rands[i], 2, n - 2)))
  }

  lemma LevelDoubles(n: nat, j: nat)
    requires 1 < n
    ensures Level(n, j + 1) == Level(n, j) * 2
  {
    hide OddPart;
    Regroup(OddPart(n - 1), Pow(2, j));
  }

  lemma Regroup(r: int, w: int)
    ensures r * (2 * w) == r * w * 2
  {}

  lemma LevelNext(n: nat, a: int, j: nat, x: int)
    requires 1 < n && x == ModPow(a, Level(n, j), n)
    ensures ModPow(x, 2, n) == ModPow(a, Level(n, j + 1), n)
  {
    hide Pow, Divides, Cong, OddPart, Level;
    var e := Level(n, j);
    LevelDoubles(n, j);
    PowMul(a, e, 2);
    PowCong(x, Pow(a, e), 2, n);
    ModPowRange(a, e * 2, n);
    CongSym(ModPow(a, e * 2, n), Pow(a, e * 2), n);
    CongTrans(Pow(x, 2), Pow(a, e * 2), ModPow(a, e * 2, n), n);
    ModPowIs(x, 2, n, ModPow(a, e * 2, n));
  }

  /** One round of the test, for one base. */
  method Round(n: nat, a: nat, r: nat, s: nat) returns (ok: bool)
    requires 3 < n && n % 2 == 1
    requires r == OddPart(n - 1) && s == Twos(n - 1)
    ensures ok <==> Passes(n, a)
  {
    assert Level(n, 0) == r by { assert r * 1 == r; }
    assert s > 0;
    hide Pow, JsRem, Cong, Divides, ModPow, OddPart, Twos, Level;
    var x := JsModPow(a, r, n);
    if x == 1 || x == n - 1 {
      return true;
    }
    var j := 0;
    ModPowRange(a, r, n);
    while j < s - 1
      invariant 0 <= j <= s - 1
      invariant x == ModPow(a, Level(n, j), n) && 0 <= x < n
      invariant forall i :: 0 <= i <= j ==> ModPow(a, Level(n, i), n) != n - 1
    {
      LevelNext(n, a, j, x);
      ModPowRange(x, 2, n);
      x := JsModPow(x, 2, n);
      if x == n - 1 {
        return true;
      }
      j := j + 1;
    }
    return false;
  }

  method JsIsPrime(n: int, rands: seq<nat>) returns (answer: bool)
    ensures answer <==> ProbablePrime(n, rands)
  {
    if n == 2 || n == 3 {
      return true;
    }
    if n <= 1 || n % 2 == 0 {
      return false;
    }
    var s, r: nat := 0, n - 1;
    while r % 2 == 0
      invariant 0 < r
      invariant s + Twos(r) == Twos(n - 1) && OddPart(r) == OddPart(n - 1)
      decreases r
    {
      s := s + 1;
      r := r / 2;
    }
    for i := 0 to |rands|
      invariant forall h :: 0 <= h < i ==> Passes(n, RandBetween(rands[h], 2, n - 2))
    {
      var ok := Round(n, RandBetween(rands[i], 2, n - 2), r, s);
      if !ok {
        return false;
      }
    }
    return true;
  }

  /** Square roots of one modulo a prime. */
  lemma SquareRootOfOne(p: int, x: int)
    requires Prime(p) && Cong(x * x, 1, p)
    ensures Cong(x, 1, p) || Cong(x, -1, p)
  {
    assert x * x - 1 == (x - 1) * (x + 1);
    EuclidLemma(p, x - 1, x + 1);
    assert x + 1 == x - -1;
  }

  /** Walking back from a level that yields one reaches minus one or level zero. */
  lemma {:induction false} WalkBack(n: nat, a: int, j: nat)
    requires Prime(n) && j <= Twos(n - 1) && Cong(Pow(a, Level(n, j)), 1, n)
    ensures Passes(n, a)
    decreases j
  {
    ModPowIs(a, Level(n, j), n, 1);
    if j > 0 {
      var x := ModPow(a, Level(n, j - 1), n);
      LevelNext(n, a, j - 1, x);
      ModPowIs(x, 2, n, 1);
      assert Pow(x, 2) == x * (x * Pow(x, 0));
      SquareRootOfOne(n, x);
      ModPowRange(a, Level(n, j - 1), n);
      if Cong(x, 1, n) {
        ModPowIs(a, Level(n, j - 1), n, 1);
        CongUnique(x, 1, n);
        WalkBack(n, a, j - 1);
      } else {
        CongBy(-1, n - 1, n, -1);
        CongTrans(x, -1, n - 1, n);
        CongUnique(x, n - 1, n);
      }
    }
  }

  /** No base witnesses against a prime. */
  lemma PrimePasses(n: nat, a: nat)
    requires Prime(n) && 1 <= a < n
    ensures Passes(n, a)
  {
    if Divides(n, a) {
      DividesBound(n, a);
    }
    LittleTheorem(n, a);
    TwosOddPart(n - 1);
    WalkBack(n, a, Twos(n - 1));
  }

  // ----- What passing means

  /** Level `j` of the base is in the class of `r`. */
  ghost predicate LevelIs(n: nat, a: int, j: nat, r: int)
    requires 1 < n
  {
    Cong(Pow(a, Level(n, j)), r, n)
  }

  lemma LevelSquares(n: nat, a: int, j: nat, r: int)
    requires 1 < n && LevelIs(n, a, j, r)
    ensures LevelIs(n, a, j + 1, r * r)
  {
    hide Pow, Divides, Cong, Level;
    var w := Pow(a, Level(n, j));
    LevelDoubles(n, j);
    PowMul(a, Level(n, j), 2);
    PowTwo(w);
    CongMul(w, r, w, r, n);
  }

  lemma PowTwo(b: int)
    ensures Pow(b, 2) == b * b
  {
    assert Pow(b, 2) == b * (b * Pow(b, 0));
  }

  lemma {:induction false} OneStays(n: nat, a: int, i: nat, j: nat)
    requires 1 < n && i <= j && LevelIs(n, a, i, 1)
    ensures LevelIs(n, a, j, 1)
    decreases j - i
  {
    hide LevelIs;
    if i < j {
      LevelSquares(n, a, i, 1);
      OneStays(n, a, i + 1, j);
    }
  }

  lemma OneNotMinusOne(n: nat, w: int)
    requires 2 < n && Cong(w, 1, n)
    ensures !Cong(w, -1, n)
  {
    if Cong(w, -1, n) {
      CongSym(w, 1, n);
      CongTrans(1, w, -1, n);
      DividesBound(n, 2);
    }
  }

  /** The loop's reading of a level in the two classes it looks for. */
  lemma PassesByLevels(n: nat, a: int)
    requires 2 < n
    ensures Passes(n, a) <==> LevelIs(n, a, 0, 1) || exists j :: 0 <= j < Twos(n - 1) && LevelIs(n, a, j, -1)
  {
    hide Pow, Level, Twos, ModPow;
    ModPowIs(a, Level(n, 0), n, 1);
    forall j: nat
      ensures ModPow(a, Level(n, j), n) == n - 1 <==> LevelIs(n, a, j, -1)
    {
      MinusOne(Pow(a, Level(n, j)), n);
      ModPowIs(a, Level(n, j), n, n - 1);
    }
    hide LevelIs, Cong;
  }

  lemma MinusOne(w: int, n: nat)
    ensures Cong(w, -1, n) <==> Cong(w, n - 1, n)
  {
    CongBy(-1, n - 1, n, -1);
    CongBy(n - 1, -1, n, 1);
    if Cong(w, -1, n) {
      CongTrans(w, -1, n - 1, n);
    }
    if Cong(w, n - 1, n) {
      CongTrans(w, n - 1, -1, n);
    }
  }

  /** Every one among the levels is the square of one or of minus one. */
  ghost predicate OnlyTrivialRoots(n: nat, a: int)
    requires 1 < n
  {
    forall j :: 0 <= j < Twos(n - 1) && LevelIs(n, a, j + 1, 1) ==> LevelIs(n, a, j, 1) || LevelIs(n, a, j, -1)
  }

  /** A base passes exactly when it meets the little theorem and shows no square root of
      one other than one and minus one. */
  lemma PassesMeans(n: nat, a: int)
    requires 2 < n
    ensures Passes(n, a) <==> Cong(Pow(a, n - 1), 1, n) && OnlyTrivialRoots(n, a)
  {
    TwosOddPart(n - 1);
    var s := Twos(n - 1);
    assert LevelIs(n, a, s, 1) <==> Cong(Pow(a, n - 1), 1, n);
    hide Pow, Cong, Level, Twos, Passes;
    PassesByLevels(n, a);
    if LevelIs(n, a, 0, 1) {
      OneStays(n, a, 0, s);
      forall j | 0 <= j < s
        ensures LevelIs(n, a, j, 1)
      {
        OneStays(n, a, 0, j);
      }
    } else if j0 :| 0 <= j0 < s && LevelIs(n, a, j0, -1) {
      RootsAround(n, a, j0);
    } else if LevelIs(n, a, s, 1) && OnlyTrivialRoots(n, a) {
      WalkDown(n, a, s);
    }
  }

  lemma RootsAround(n: nat, a: int, m: nat)
    requires 2 < n && m < Twos(n - 1) && LevelIs(n, a, m, -1)
    ensures LevelIs(n, a, Twos(n - 1), 1) && OnlyTrivialRoots(n, a)
  {
    hide LevelIs, Twos;
    LevelSquares(n, a, m, -1);
    OneStays(n, a, m + 1, Twos(n - 1));
    forall j | 0 <= j < Twos(n - 1) && LevelIs(n, a, j + 1, 1)
      ensures LevelIs(n, a, j, 1) || LevelIs(n, a, j, -1)
    {
      if j < m {
        OneStays(n, a, j + 1, m);
        LevelApart(n, a, m);
      } else if m < j {
        OneStays(n, a, m + 1, j);
      }
    }
  }

  lemma LevelApart(n: nat, a: int, j: nat)
    requires 2 < n
    ensures !(LevelIs(n, a, j, 1) && LevelIs(n, a, j, -1))
  {
    hide Pow, Cong, Level;
    if LevelIs(n, a, j, 1) {
      OneNotMinusOne(n, Pow(a, Level(n, j)));
    }
  }

  lemma {:induction false} WalkDown(n: nat, a: int, j: nat)
    requires 2 < n && j <= Twos(n - 1) && LevelIs(n, a, j, 1) && OnlyTrivialRoots(n, a)
    ensures LevelIs(n, a, 0, 1) || exists i :: 0 <= i < Twos(n - 1) && LevelIs(n, a, i, -1)
    decreases j
  {
    hide LevelIs, Twos;
    if 0 < j && LevelIs(n, a, j - 1, 1) {
      WalkDown(n, a, j - 1);
    } else if 0 < j {
      assert LevelIs(n, a, (j - 1) + 1, 1);
      assert LevelIs(n, a, j - 1, -1);
    }
  }

  /** A base sharing a prime factor with n is a witness. */
  lemma FactorFails(n: nat, q: nat)
    requires 3 < n && Prime(q) && Divides(q, n)
    ensures !Passes(n, q)
  {
    FactorLevel(n, q, 0);
    forall j | 0 <= j < Twos(n - 1)
      ensures ModPow(q, Level(n, j), n) != n - 1
    {
      FactorLevel(n, q, j);
    }
  }

  lemma FactorLevel(n: nat, q: nat, j: nat)
    requires 3 < n && Prime(q) && Divides(q, n)
    ensures ModPow(q, Level(n, j), n) != 1 && ModPow(q, Level(n, j), n) != n - 1
  {
    var e := Level(n, j);
    assert e > 0 by {
      TwosOddPart(n - 1);
      PowPositive(2, j);
    }
    DividesBy(q, q, 1);
    DividesPow(q, q, e);
    var v := ModPow(q, e, n);
    DividesTrans(q, n, v - Pow(q, e));
    DividesAdd(q, v - Pow(q, e), Pow(q, e));
    DividesAdd(q, n, v);
    if v == 1 || v == n - 1 {
      DividesBound(q, 1);
    }
  }

  /** An odd composite has a witness among the bases from 2 to n-2. */
  lemma CompositeWitness(n: nat) returns (a: nat)
    requires 3 < n && n % 2 == 1 && !Prime(n)
    ensures 2 <= a <= n - 2 && !Passes(n, a)
  {
    var d :| 2 <= d < n && Divides(d, n);
    a := PrimeDivisor(d);
    DividesTrans(a, d, n);
    if a == n - 1 {
      DividesAdd(a, n, n - 1);
      DividesBound(a, 1);
    }
    FactorFails(n, a);
  }

  /** Of the candidates for which k rounds are made, primes are accepted whatever is
      drawn and only primes are: a refusal certifies compositeness, and every composite
      is refused for some k draws. */
  lemma ExactOverAllDraws(n: int, k: nat)
    requires 1 <= k
    ensures Prime(n) <==> forall rands :: |rands| == k ==> ProbablePrime(n, rands)
  {
    hide Passes;
    if Prime(n) {
      assert n > 3 ==> n % 2 == 1 by {
        DividesIffMod(2, n);
      }
      forall rands
        ensures ProbablePrime(n, rands)
      {
        if n > 3 {
          forall i | 0 <= i < |rands|
            ensures Passes(n, RandBetween(rands[i], 2, n - 2))
          {
            PrimePasses(n, RandBetween(rands[i], 2, n - 2));
          }
        }
      }
    } else {
      var draw := 0;
      if 3 < n && n % 2 == 1 {
        var a := CompositeWitness(n);
        draw := a - 2;
        DivModUnique(a - 2, n - 3, 0, a - 2);
      } else if n == 2 || n == 3 {
        SmallPrimes();
      }
      var rands := seq(k, _ => draw);
      assert |rands| == k && rands[0] == draw;
      assert !ProbablePrime(n, rands) by {
        if 3 < n && n % 2 == 1 {
          assert !Passes(n, RandBetween(rands[0], 2, n - 2));
        }
      }
    }
  }

  lemma SmallPrimes()
    ensures Prime(2) && Prime(3)
  {
    DividesIffMod(2, 3);
  }

  // ----- Trial division

  /** The Ruby test, its square root taken as exact. */
  predicate RubyPrime(number: int, root: nat) {
    2 <= number && forall i :: 2 <= i <= root ==> number % i != 0
  }

  lemma TrialDivisionExact(number: int, root: nat)
    requires 0 <= number ==> root * root <= number < (root + 1) * (root + 1)
    ensures RubyPrime(number, root) <==> Prime(number)
  {
    hide Divides;
    if Prime(number) {
      forall i | 2 <= i <= root
        ensures number % i != 0
      {
        RootBelow(number, root);
        DividesIffMod(i, number);
      }
    } else if 2 <= number {
      var d :| 2 <= d < number && Divides(d, number);
      var i := SmallFactor(d, number, root);
      DividesIffMod(i, number);
    }
  }

  lemma RootBelow(n: int, root: int)
    requires root * root <= n && 2 <= root
    ensures root < n
  {
    assert 2 * root <= root * root;
  }

  /** Of two complementary factors one is at most the root. */
  lemma SmallFactor(d: int, n: int, root: nat) returns (i: int)
    requires 2 <= d < n && Divides(d, n) && n < (root + 1) * (root + 1)
    ensures 2 <= i <= root && Divides(i, n)
  {
    var k := Quotient(d, n);
    DividesBy(k, n, d);
    assert 2 <= k;
    i := if d <= root then d else k;
    if root < d {
      LargeProduct(k, d, root + 1);
    }
  }

  lemma LargeProduct(k: int, d: int, r: nat)
    requires k * d < r * r && r <= d
    ensures k < r
  {
    assert k * d == (k - r) * d + r * (d - r) + r * r;
    assert r * (d - r) >= 0;
  }
}
