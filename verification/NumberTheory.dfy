/** Primes, greatest common divisors, Bezout coefficients and powers. */
module NumberTheory {
  import opened Modular

  ghost predicate Prime(p: int) {
    2 <= p && forall d :: 2 <= d < p ==> !Divides(d, p)
  }

  // ----- Greatest common divisor

  function Gcd(a: nat, b: nat): nat
    decreases b
  {
    if b == 0 then a else Gcd(b, a % b)
  }

  ghost predicate Coprime(a: nat, b: nat) {
    Gcd(a, b) == 1
  }

  /** The greatest common divisor is a combination of its arguments. */
  ghost function Bezout(a: nat, b: nat): (c: (int, int))
    ensures c.0 * a + c.1 * b == Gcd(a, b)
    decreases b
  {
    if b == 0 then (1, 0)
    else
      var (x, y) := Bezout(b, a % b);
      BezoutStep(a, b, a / b, a % b, x, y);
      (y, x - y * (a / b))
  }

  lemma BezoutStep(a: int, b: int, q: int, r: int, x: int, y: int)
    requires a == q * b + r
    ensures y * a + (x - y * q) * b == x * b + y * r
  {
    assert y * (q * b + r) == (y * q) * b + y * r;
    assert (x - y * q) * b == x * b - (y * q) * b;
  }

  lemma {:induction false} GcdDivides(a: nat, b: nat)
    ensures Divides(Gcd(a, b), a) && Divides(Gcd(a, b), b)
    decreases b
  {
    if b == 0 {
      DividesBy(a, a, 1);
      DividesBy(a, 0, 0);
    } else {
      GcdDivides(b, a % b);
      var g := Gcd(a, b);
      DividesMul(g, b, a / b);
      DividesAdd(g, b * (a / b), a % b);
    }
  }

  /** Every common divisor divides the greatest one. */
  lemma GcdGreatest(a: nat, b: nat, d: int)
    requires Divides(d, a) && Divides(d, b)
    ensures Divides(d, Gcd(a, b))
  {
    var c := Bezout(a, b);
    DividesMul(d, a, c.0);
    DividesMul(d, b, c.1);
    DividesAdd(d, c.0 * a, c.1 * b);
  }

  lemma GcdPositive(a: nat, b: nat)
    requires 0 < a || 0 < b
    ensures 0 < Gcd(a, b)
  {
    GcdDivides(a, b);
    assert a == Quotient(Gcd(a, b), a) * Gcd(a, b);
    assert b == Quotient(Gcd(a, b), b) * Gcd(a, b);
  }

  /** A combination equal to one certifies coprimality. */
  lemma CoprimeBy(a: nat, b: nat, x: int, y: int)
    requires x * a + y * b == 1
    ensures Coprime(a, b)
  {
    var g := Gcd(a, b);
    GcdDivides(a, b);
    DividesMul(g, a, x);
    DividesMul(g, b, y);
    DividesAdd(g, x * a, y * b);
    assert a != 0 || b != 0;
    GcdPositive(a, b);
    DividesBound(g, 1);
  }

  lemma CoprimeSym(a: nat, b: nat)
    requires Coprime(a, b)
    ensures Coprime(b, a)
  {
    var c := Bezout(a, b);
    CoprimeBy(b, a, c.1, c.0);
  }

  /** A divisor of a product that is coprime to one factor divides the other. */
  lemma CoprimeCancel(d: nat, a: nat, n: int)
    requires Coprime(d, a) && Divides(d, a * n)
    ensures Divides(d, n)
  {
    var (x, y) := Bezout(d, a);
    Spread(x, d, y, a, n);
    DividesBy(d, (x * n) * d, x * n);
    DividesMul(d, a * n, y);
    DividesAdd(d, (x * n) * d, y * (a * n));
  }

  lemma Spread(x: int, d: int, y: int, a: int, n: int)
    ensures (x * d + y * a) * n == (x * n) * d + y * (a * n)
  {
    assert (x * d + y * a) * n == x * d * n + y * a * n;
  }

  /** Coprime divisors multiply. */
  lemma CoprimeProduct(a: nat, b: nat, n: int)
    requires Coprime(a, b) && Divides(a, n) && Divides(b, n)
    ensures Divides(a * b, n)
  {
    var i := Quotient(a, n);
    CommuteProduct(i, a);
    CoprimeSym(a, b);
    CoprimeCancel(b, a, i);
    var j := Quotient(b, i);
    AssociateProduct(j, b, a);
    DividesBy(a * b, n, j);
  }

  lemma CommuteProduct(x: int, y: int)
    ensures x * y == y * x
  {}

  lemma AssociateProduct(x: int, y: int, z: int)
    ensures (x * y) * z == x * (z * y)
  {}

  // ----- Primes

  lemma PrimeCoprime(p: int, a: nat)
    requires Prime(p) && !Divides(p, a)
    ensures Coprime(p, a)
  {
    var g := Gcd(p, a);
    GcdDivides(p, a);
    GcdPositive(p, a);
    DividesBound(g, p);
    assert g != p;
  }

  lemma DistinctPrimesCoprime(p: int, q: int)
    requires Prime(p) && Prime(q) && p != q
    ensures Coprime(p, q)
  {
    if Divides(p, q) {
      DividesBound(p, q);
      assert false;
    }
    PrimeCoprime(p, q);
  }

  /** Euclid's lemma. */
  lemma EuclidLemma(p: int, a: int, b: int)
    requires Prime(p) && Divides(p, a * b)
    ensures Divides(p, a) || Divides(p, b)
  {
    if !Divides(p, a) {
      CongMod(a, p);
      var r := a % p;
      assert !Divides(p, r) by {
        if Divides(p, r) {
          DividesAdd(p, a - r, r);
        }
        assert (a - r) + r == a;
      }
      PrimeCoprime(p, r);
      DividesMul(p, a - r, b);
      DividesAdd(p, a * b, (a - r) * b);
      assert a * b - (a - r) * b == r * b;
      CoprimeCancel(p, r, b);
    }
  }

  /** Multiplication by a unit modulo a prime can be cancelled. */
  lemma CongCancel(p: int, c: int, a: int, b: int)
    requires Prime(p) && !Divides(p, c) && Cong(c * a, c * b, p)
    ensures Cong(a, b, p)
  {
    assert c * a - c * b == c * (a - b);
    EuclidLemma(p, c, a - b);
  }

  /** Every number above one has a prime divisor. */
  lemma {:induction false} PrimeDivisor(n: int) returns (p: int)
    requires 2 <= n
    ensures Prime(p) && Divides(p, n) && p <= n
    decreases n
  {
    if Prime(n) {
      p := n;
      DividesBy(n, n, 1);
    } else {
      var d :| 2 <= d < n && Divides(d, n);
      p := PrimeDivisor(d);
      DividesTrans(p, d, n);
    }
  }

  // ----- Powers

  function Pow(b: int, e: nat): int {
    if e == 0 then 1 else b * Pow(b, e - 1)
  }

  function TwoPow(i: nat): (w: nat)
    ensures w > 0
  {
    if i == 0 then 1 else 2 * TwoPow(i - 1)
  }

  lemma {:induction false} TwoPowAdd(i: nat, j: nat)
    ensures TwoPow(i + j) == TwoPow(i) * TwoPow(j)
    decreases i
  {
    if i != 0 {
      TwoPowAdd(i - 1, j);
      assert TwoPow(i + j) == 2 * TwoPow(i - 1 + j);
    }
  }

  lemma {:induction false} PowAdd(b: int, e: nat, f: nat)
    ensures Pow(b, e + f) == Pow(b, e) * Pow(b, f)
    decreases e
  {
    if e != 0 {
      PowAdd(b, e - 1, f);
      assert Pow(b, e + f) == b * Pow(b, e - 1 + f);
    }
  }

  lemma {:induction false} PowMul(b: int, e: nat, f: nat)
    ensures e * f >= 0 && Pow(b, e * f) == Pow(Pow(b, e), f)
    decreases f
  {
    if f == 0 {
      assert e * f == 0;
    } else {
      PowMul(b, e, f - 1);
      assert e * f == e + e * (f - 1);
      PowAdd(b, e, e * (f - 1));
    }
  }

  lemma {:induction false} PowPositive(b: int, e: nat)
    requires 0 < b
    ensures 0 < Pow(b, e)
    decreases e
  {
    if e != 0 {
      PowPositive(b, e - 1);
    }
  }

  lemma {:induction false} PowOne(e: nat)
    ensures Pow(1, e) == 1
  {
    if e != 0 {
      PowOne(e - 1);
    }
  }

  lemma {:induction false} PowCong(a: int, b: int, e: nat, m: int)
    requires Cong(a, b, m)
    ensures Cong(Pow(a, e), Pow(b, e), m)
    decreases e
  {
    if e == 0 {
      CongRefl(1, m);
    } else {
      PowCong(a, b, e - 1, m);
      CongMul(a, b, Pow(a, e - 1), Pow(b, e - 1), m);
    }
  }

  lemma DividesPow(d: int, b: int, e: nat)
    requires Divides(d, b) && 0 < e
    ensures Divides(d, Pow(b, e))
  {
    DividesMul(d, b, Pow(b, e - 1));
  }
}
