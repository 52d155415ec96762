/** Euclid's algorithm and the three modular inverses computed with it:
    `modInverse` of the JavaScript key generator, `mod_inverse` of the Ruby one
    and `inverse_mod` of the Ruby curve. */
module Inverses {
  import opened Modular
  import opened NumberTheory

  datatype Option<+T> = None | Some(value: T)

  /** `t` is the inverse of `a` among the residues modulo `m`. */
  ghost predicate IsInverse(t: int, a: int, m: int) {
    0 <= t < m && Cong(a * t, 1, m)
  }

  lemma InverseUnique(t: int, u: int, a: int, m: int)
    requires IsInverse(t, a, m) && IsInverse(u, a, m)
    ensures t == u
  {
    // t == t * (a * u) == (a * t) * u == u modulo m.
    CongRefl(t, m);
    CongRefl(u, m);
    CongMul(a * u, 1, t, t, m);
    CongMul(a * t, 1, u, u, m);
    assert (a * u) * t == (a * t) * u;
    CongSym((a * u) * t, t, m);
    CongTrans(t, (a * u) * t, u, m);
    CongUnique(t, u, m);
  }

  /** Only a number coprime to the modulus has an inverse. */
  lemma InverseCoprime(t: int, a: nat, m: nat)
    requires IsInverse(t, a, m)
    ensures Coprime(a, m)
  {
    var k := Quotient(m, a * t - 1);
    assert t * a + (-k) * m == 1 by {
      assert a * t == t * a && (-k) * m == -(k * m);
    }
    CoprimeBy(a, m, t, -k);
  }

  /** A multiple of the modulus can be moved into the quotient. */
  lemma BezoutCong(s: int, e: int, t: int, m: int, r: int)
    requires s * e + t * m == r
    ensures Cong(e * s, r, m) && Cong(e * (s + m), r, m)
  {
    assert e * s - r == (-t) * m by { assert (-t) * m == -(t * m); }
    CongBy(e * s, r, m, -t);
    assert e * (s + m) - r == (e - t) * m by {
      assert e * (s + m) == e * s + e * m;
      assert (e - t) * m == e * m - t * m;
    }
    CongBy(e * (s + m), r, m, e - t);
  }

  /** One step keeps a row of Bezout coefficients. */
  lemma RowStep(s0: int, t0: int, r0: int, s1: int, t1: int, r1: int, e: int, m: int, q: int)
    requires s0 * e + t0 * m == r0 && s1 * e + t1 * m == r1
    ensures (s0 - q * s1) * e + (t0 - q * t1) * m == r0 - q * r1
  {
    assert (s0 - q * s1) * e == s0 * e - q * (s1 * e);
    assert (t0 - q * t1) * m == t0 * m - q * (t1 * m);
    assert q * (s1 * e) + q * (t1 * m) == q * r1;
  }

  function Abs(x: int): nat {
    if x < 0 then -x else x
  }

  /** Consecutive coefficients have opposite signs and, weighted by the opposite
      remainders, always add up to the modulus. */
  ghost predicate Balanced(s0: int, r0: nat, s1: int, r1: nat, m: nat) {
    (s0 <= 0 <= s1 || s1 <= 0 <= s0) && Abs(s0) * r1 + Abs(s1) * r0 == m
  }

  lemma BalancedStep(s0: int, r0: nat, s1: int, r1: nat, m: nat, q: nat)
    requires Balanced(s0, r0, s1, r1, m) && q * r1 <= r0
    ensures Balanced(s1, r1, s0 - q * s1, r0 - q * r1, m)
  {
    var a, b := Abs(s0), Abs(s1);
    if s1 >= 0 {
      assert q * s1 >= 0;
    } else {
      assert q * s1 <= 0;
    }
    assert Abs(s0 - q * s1) == a + q * b;
    assert b * (r0 - q * r1) + (a + q * b) * r1 == a * r1 + b * r0 by {
      assert b * (r0 - q * r1) == b * r0 - b * (q * r1);
      assert (a + q * b) * r1 == a * r1 + (q * b) * r1;
      assert (q * b) * r1 == b * (q * r1);
    }
  }

  /** A balanced pair bounds the coefficient that becomes the answer. */
  lemma BalancedBound(s0: int, r0: nat, s1: int, r1: nat, m: nat, k: nat)
    requires Balanced(s0, r0, s1, r1, m) && k <= r0
    ensures k * Abs(s1) <= m
  {
    assert Abs(s0) * r1 >= 0;
    assert Abs(s1) * r0 == Abs(s1) * (r0 - k) + Abs(s1) * k;
    assert Abs(s1) * (r0 - k) >= 0;
  }

  /** What every round of the extended algorithm keeps: two rows of Bezout
      coefficients, a balanced first column, and the greatest common divisor. */
  ghost predicate Rows(s0: int, t0: int, r0: nat, s1: int, t1: int, r1: nat, e: nat, m: nat) {
    && Gcd(r0, r1) == Gcd(m, e)
    && s0 * e + t0 * m == r0
    && s1 * e + t1 * m == r1
    && Balanced(s0, r0, s1, r1, m)
    && 1 <= r0
    && Abs(s0) <= m
    && (2 <= m ==> (r1 != 0 ==> 2 <= r0) && 2 * Abs(s0) <= m)
  }

  lemma RowsStart(e: nat, m: nat)
    requires 1 <= m
    ensures Rows(0, 1, m, 1, 0, e, e, m)
  {}

  lemma EuclidStep(r0: nat, r1: nat)
    requires r1 != 0
    ensures r0 / r1 * r1 <= r0 && r0 - r0 / r1 * r1 == r0 % r1
    ensures Gcd(r1, r0 % r1) == Gcd(r0, r1)
  {}

  lemma RowsStep(s0: int, t0: int, r0: nat, s1: int, t1: int, r1: nat, e: nat, m: nat, q: nat)
    requires Rows(s0, t0, r0, s1, t1, r1, e, m) && r1 != 0 && q == r0 / r1
    ensures r0 - q * r1 == r0 % r1
    ensures Rows(s1, t1, r1, s0 - q * s1, t0 - q * t1, r0 % r1, e, m)
  {
    hide Balanced, Abs, Gcd;
    EuclidStep(r0, r1);
    RowStep(s0, t0, r0, s1, t1, r1, e, m, q);
    BalancedStep(s0, r0, s1, r1, m, q);
    BalancedBound(s0, r0, s1, r1, m, 1);
    if 2 <= m {
      BalancedBound(s0, r0, s1, r1, m, 2);
    }
  }

  /** The last row holds the greatest common divisor and a residue for it. */
  lemma RowsEnd(s0: int, t0: int, r0: nat, s1: int, t1: int, e: nat, m: nat)
    requires Rows(s0, t0, r0, s1, t1, 0, e, m) && 1 <= m
    ensures r0 == Gcd(m, e) && 1 <= r0
    ensures var d := if s0 < 0 then s0 + m else s0;
            && 0 <= d <= m && Cong(e * d, r0, m)
            && (2 <= m ==> d < m && (IsInverse(d, e, m) <==> r0 == 1))
    ensures Coprime(e, m) <==> r0 == 1
    ensures Cong(e * s0, r0, m)
  {
    BezoutCong(s0, e, t0, m, r0);
    if Coprime(e, m) {
      CoprimeSym(e, m);
    }
    if r0 == 1 {
      CoprimeSym(m, e);
    }
    var d := if s0 < 0 then s0 + m else s0;
    if IsInverse(d, e, m) {
      InverseCoprime(d, e, m);
    }
  }

  // ----- The loops

  method GcdLoop(a: nat, b: nat) returns (g: nat)
    ensures g == Gcd(a, b)
    ensures Divides(g, a) && Divides(g, b)
    ensures forall d :: Divides(d, a) && Divides(d, b) ==> Divides(d, g)
  {
    var x, y := a, b;
    while y != 0
      invariant Gcd(x, y) == Gcd(a, b)
      decreases y
    {
      x, y := y, x % y;
    }
    g := x;
    GcdDivides(a, b);
    forall d | Divides(d, a) && Divides(d, b)
      ensures Divides(d, g)
    {
      GcdGreatest(a, b, d);
    }
  }

  /** The JavaScript inverse never fails: it answers with a residue that sends
      `e` to the greatest common divisor, which is an inverse exactly when the
      arguments are coprime. */
  method JsModInverse(e: nat, phi: nat) returns (d: int)
    requires 1 <= phi
    ensures 0 <= d <= phi
    ensures Cong(e * d, Gcd(phi, e), phi)
    ensures 2 <= phi ==> d < phi && (IsInverse(d, e, phi) <==> Coprime(e, phi))
  {
    hide *;
    var oldR: nat, r: nat := phi, e;
    var oldS, s := 0, 1;
    var oldT, t := 1, 0;
    RowsStart(e, phi);
    while r != 0
      invariant Rows(oldS, oldT, oldR, s, t, r, e, phi)
      decreases r
    {
      var quotient := oldR / r;
      RowsStep(oldS, oldT, oldR, s, t, r, e, phi, quotient);
      oldR, r := r, oldR - quotient * r;
      oldS, s := s, oldS - quotient * s;
      oldT, t := t, oldT - quotient * t;
    }
    RowsEnd(oldS, oldT, oldR, s, t, e, phi);
    return if oldS < 0 then oldS + phi else oldS;
  }

  /** The Ruby inverse raises, rather than answer, exactly when none exists. */
  method RubyModInverse(a: nat, m: nat) returns (result: Option<int>)
    requires 1 <= m
    ensures result.None? <==> !Coprime(a, m)
    ensures result.Some? ==> 0 <= result.value <= m && Cong(a * result.value, 1, m)
    ensures result.Some? && 2 <= m ==> IsInverse(result.value, a, m)
  {
    hide *;
    var t, newT := 0, 1;
    var r: nat, newR: nat := m, a;
    ghost var u, newU := 1, 0;
    RowsStart(a, m);
    while newR != 0
      invariant Rows(t, u, r, newT, newU, newR, a, m)
      decreases newR
    {
      var quotient := r / newR;
      RowsStep(t, u, r, newT, newU, newR, a, m, quotient);
      t, newT := newT, t - quotient * newT;
      u, newU := newU, u - quotient * newU;
      r, newR := newR, r - quotient * newR;
    }
    RowsEnd(t, u, r, newT, newU, a, m);
    if r > 1 {
      return None;
    }
    if t < 0 {
      t := t + m;
    }
    return Some(t);
  }

  /** The Ruby curve's inverse, for any integer: it reduces first, and raises
      exactly when the argument shares a factor with the modulus. */
  method RubyCurveInverse(x: int, p: nat) returns (result: Option<int>)
    requires 2 <= p
    ensures result.None? <==> !Coprime(x % p, p)
    ensures result.Some? ==> IsInverse(result.value, x, p)
  {
    hide *;
    var a: nat := x % p;
    var z: nat, y: nat := a, p;
    var m, n := 0, 1;
    ghost var u, v := 1, 0;
    RowsStart(a, p);
    while z > 0
      invariant Rows(m, u, y, n, v, z, a, p)
      decreases z
    {
      var t := y / z;
      RowsStep(m, u, y, n, v, z, a, p, t);
      y, z := z, y % z;
      m, n := n, m - t * n;
      u, v := v, u - t * v;
    }
    RowsEnd(m, u, y, n, v, a, p);
    if y != 1 {
      return None;
    }
    CurveInverseValue(x, m, p);
    return Some(m % p);
  }

  lemma CurveInverseValue(x: int, m: int, p: nat)
    requires 2 <= p && Cong((x % p) * m, 1, p)
    ensures IsInverse(m % p, x, p)
  {
    CongMod(m, p);
    CongMod(x, p);
    CongMul(x, x % p, m % p, m, p);
    CongTrans(x * (m % p), (x % p) * m, 1, p);
  }
}
