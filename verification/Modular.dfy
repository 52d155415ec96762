/** Divisibility and congruence over the unbounded integers.
    Both are stated with an explicit witness, so that a congruence is used by
    naming its quotient and never by reasoning about `%` directly. */
module Modular {

  /** The product, named so that the quantifiers below have a term to hang on. */
  function Times(k: int, m: int): int {
    k * m
  }

  ghost predicate Divides(d: int, n: int) {
    exists k :: n == Times(k, d)
  }

  ghost predicate Cong(a: int, b: int, m: int) {
    Divides(m, a - b)
  }

  lemma DividesBy(d: int, n: int, k: int)
    requires n == k * d
    ensures Divides(d, n)
  {
    assert n == Times(k, d);
  }

  ghost function Quotient(d: int, n: int): (k: int)
    requires Divides(d, n)
    ensures n == k * d
  {
    var k :| n == Times(k, d);
    k
  }

  lemma CongBy(a: int, b: int, m: int, k: int)
    requires a - b == k * m
    ensures Cong(a, b, m)
  {
    DividesBy(m, a - b, k);
  }

  lemma DividesAdd(d: int, x: int, y: int)
    requires Divides(d, x) && Divides(d, y)
    ensures Divides(d, x + y) && Divides(d, x - y)
  {
    var i, j := Quotient(d, x), Quotient(d, y);
    DividesBy(d, x + y, i + j);
    DividesBy(d, x - y, i - j);
  }

  lemma DividesMul(d: int, x: int, y: int)
    requires Divides(d, x)
    ensures Divides(d, x * y) && Divides(d, y * x)
  {
    var i := Quotient(d, x);
    assert x * y == (i * y) * d;
    DividesBy(d, x * y, i * y);
  }

  lemma DividesTrans(d: int, x: int, y: int)
    requires Divides(d, x) && Divides(x, y)
    ensures Divides(d, y)
  {
    var i, j := Quotient(d, x), Quotient(x, y);
    assert y == (j * i) * d;
    DividesBy(d, y, j * i);
  }

  /** A positive number has no divisor above itself. */
  lemma DividesBound(d: int, n: int)
    requires Divides(d, n) && 0 < n && 0 < d
    ensures d <= n
  {
    var k := Quotient(d, n);
    assert (k - 1) * d >= 0;
  }

  /** Two multiples of m less than m apart are equal. */
  lemma SmallMultiple(m: int, n: int)
    requires Divides(m, n) && -m < n < m
    ensures n == 0
  {
    if n > 0 {
      DividesBound(m, n);
    } else if n < 0 {
      var k := Quotient(m, n);
      DividesBy(m, -n, -k);
      DividesBound(m, -n);
    }
  }

  lemma DivModUnique(x: int, d: int, q: int, r: int)
    requires 0 <= r < d && x == q * d + r
    ensures x / d == q && x % d == r
  {
    var k := x / d - q;
    assert r - x % d == k * d;
    DividesBy(d, r - x % d, k);
    SmallMultiple(d, r - x % d);
    assert k == 0;
  }

  lemma DivNonneg(x: int, d: int)
    requires 0 <= x && 0 < d
    ensures 0 <= x / d
  {
    var q := x / d;
    assert (q + 1) * d == q * d + d > 0;
  }

  lemma CongRefl(a: int, m: int)
    ensures Cong(a, a, m)
  {
    CongBy(a, a, m, 0);
  }

  lemma CongSym(a: int, b: int, m: int)
    requires Cong(a, b, m)
    ensures Cong(b, a, m)
  {
    var k := Quotient(m, a - b);
    CongBy(b, a, m, -k);
  }

  lemma CongTrans(a: int, b: int, c: int, m: int)
    requires Cong(a, b, m) && Cong(b, c, m)
    ensures Cong(a, c, m)
  {
    DividesAdd(m, a - b, b - c);
    assert (a - b) + (b - c) == a - c;
  }

  lemma CongAdd(a: int, b: int, c: int, d: int, m: int)
    requires Cong(a, b, m) && Cong(c, d, m)
    ensures Cong(a + c, b + d, m) && Cong(a - c, b - d, m)
  {
    DividesAdd(m, a - b, c - d);
    assert (a - b) + (c - d) == (a + c) - (b + d);
    assert (a - b) - (c - d) == (a - c) - (b - d);
  }

  lemma CongMul(a: int, b: int, c: int, d: int, m: int)
    requires Cong(a, b, m) && Cong(c, d, m)
    ensures Cong(a * c, b * d, m)
  {
    DividesMul(m, a - b, c);
    DividesMul(m, c - d, b);
    DividesAdd(m, (a - b) * c, b * (c - d));
    assert (a - b) * c + b * (c - d) == a * c - b * d;
  }

  /** Reducing modulo m stays in the residue class. */
  lemma CongMod(a: int, m: int)
    requires 0 < m
    ensures Cong(a % m, a, m) && Cong(a, a % m, m) && 0 <= a % m < m
  {
    CongBy(a, a % m, m, a / m);
    CongSym(a, a % m, m);
  }

  /** Two residues of the same class coincide. */
  lemma CongUnique(a: int, b: int, m: int)
    requires Cong(a, b, m) && 0 <= a < m && 0 <= b < m
    ensures a == b
  {
    SmallMultiple(m, a - b);
  }

  lemma CongIffMod(a: int, b: int, m: int)
    requires 0 < m
    ensures Cong(a, b, m) <==> a % m == b % m
  {
    CongMod(a, m);
    CongMod(b, m);
    if Cong(a, b, m) {
      CongTrans(a % m, a, b, m);
      CongTrans(a % m, b, b % m, m);
      CongUnique(a % m, b % m, m);
    } else if a % m == b % m {
      CongTrans(a, a % m, b, m);
    }
  }

  lemma DividesIffMod(d: int, n: int)
    requires 0 < d
    ensures Divides(d, n) <==> n % d == 0
  {
    CongIffMod(n, 0, d);
    DivModUnique(0, d, 0, 0);
    assert n - 0 == n;
  }
}
