/** Fermat's little theorem, through the binomial theorem, and the bound on the
    number of roots of unity modulo a prime. */
module Fermat {
  import opened Modular
  import opened NumberTheory

  function Binomial(n: nat, k: nat): nat {
    if k == 0 then 1
    else if n == 0 then 0
    else Binomial(n - 1, k - 1) + Binomial(n - 1, k)
  }

  lemma {:induction false} BinomialAbove(n: nat, k: nat)
    requires n < k
    ensures Binomial(n, k) == 0
    decreases n
  {
    if n != 0 {
      BinomialAbove(n - 1, k - 1);
      BinomialAbove(n - 1, k);
    }
  }

  lemma {:induction false} BinomialDiagonal(n: nat)
    ensures Binomial(n, n) == 1
  {
    if n != 0 {
      BinomialDiagonal(n - 1);
      BinomialAbove(n - 1, n);
    }
  }

  /** Absorption: (k+1) C(n+1, k+1) = (n+1) C(n, k). */
  lemma {:induction false} Absorption(n: nat, k: nat)
    ensures (k + 1) * Binomial(n + 1, k + 1) == (n + 1) * Binomial(n, k)
    decreases n
  {
    if n == 0 {
      if k != 0 {
        BinomialAbove(0, k);
        BinomialAbove(1, k + 1);
      }
    } else {
      Absorption(n - 1, k);
      if k == 0 {
        assert Binomial(n + 1, 1) == 1 + Binomial(n, 1);
      } else {
        Absorption(n - 1, k - 1);
        AbsorptionStep(n, k, Binomial(n, k), Binomial(n, k + 1),
                       Binomial(n - 1, k - 1), Binomial(n - 1, k));
      }
    }
  }

  lemma AbsorptionStep(n: int, k: int, c: int, c1: int, d: int, e: int)
    requires c == d + e
    requires (k + 1) * c1 == n * e
    requires k * c == n * d
    ensures (k + 1) * (c + c1) == (n + 1) * c
  {
    assert (k + 1) * (c + c1) == k * c + c + (k + 1) * c1;
    assert n * d + n * e == n * (d + e);
  }

  /** The sum of the first `k` terms of the expansion of (a+1)^n. */
  function Expansion(n: nat, a: int, k: nat): int {
    if k == 0 then 0
    else Expansion(n, a, k - 1) + Binomial(n, k - 1) * Pow(a, k - 1)
  }

  lemma {:induction false} ExpansionPascal(n: nat, a: int, k: nat)
    ensures Expansion(n + 1, a, k + 1) == Expansion(n, a, k + 1) + a * Expansion(n, a, k)
    decreases k
  {
    if k == 0 {
      assert Expansion(n + 1, a, 1) == 1 && Expansion(n, a, 1) == 1;
    } else {
      ExpansionPascal(n, a, k - 1);
      ExpansionNext(n + 1, a, k);
      ExpansionNext(n, a, k);
      ExpansionNext(n, a, k - 1);
      BinomialNext(n, k);
      PowNext(a, k);
      hide Expansion, Binomial, Pow;
      ExpansionStep(Binomial(n, k), Binomial(n, k - 1), a, Pow(a, k - 1), Expansion(n, a, k - 1));
    }
  }

  lemma ExpansionNext(n: nat, a: int, k: nat)
    ensures Expansion(n, a, k + 1) == Expansion(n, a, k) + Binomial(n, k) * Pow(a, k)
  {
    hide Binomial, Pow;
  }

  lemma BinomialNext(n: nat, k: nat)
    requires 0 < k
    ensures Binomial(n + 1, k) == Binomial(n, k - 1) + Binomial(n, k)
  {}

  lemma PowNext(a: int, k: nat)
    requires 0 < k
    ensures Pow(a, k) == a * Pow(a, k - 1)
  {}

  lemma ExpansionStep(c: int, d: int, a: int, w: int, s: int)
    ensures (d + c) * (a * w) + a * s == c * (a * w) + a * (s + d * w)
  {
    assert (d + c) * (a * w) == d * (a * w) + c * (a * w);
    assert a * (s + d * w) == a * s + a * (d * w);
    assert d * (a * w) == a * (d * w);
  }

  lemma {:induction false} BinomialTheorem(n: nat, a: int)
    ensures Pow(a + 1, n) == Expansion(n, a, n + 1)
  {
    if n == 0 {
      assert Expansion(0, a, 1) == Expansion(0, a, 0) + Binomial(0, 0) * Pow(a, 0);
    } else {
      BinomialTheorem(n - 1, a);
      ExpansionPascal(n - 1, a, n);
      BinomialAbove(n - 1, n);
      assert Expansion(n - 1, a, n + 1) == Expansion(n - 1, a, n) + 0 * Pow(a, n);
      var s := Expansion(n - 1, a, n);
      assert (a + 1) * s == s + a * s;
    }
  }

  /** A prime divides its inner binomial coefficients. */
  lemma PrimeBinomial(p: int, k: nat)
    requires Prime(p) && 0 < k < p
    ensures Divides(p, Binomial(p, k))
  {
    hide *;
    Absorption(p - 1, k - 1);
    DividesBy(p, k * Binomial(p, k), Binomial(p - 1, k - 1));
    EuclidLemma(p, k, Binomial(p, k));
    if Divides(p, k) {
      DividesBound(p, k);
    }
  }

  lemma {:induction false} ExpansionModPrime(p: int, a: int, k: nat)
    requires Prime(p) && 0 < k <= p
    ensures Cong(Expansion(p, a, k), 1, p)
    decreases k
  {
    if k == 1 {
      assert Expansion(p, a, 1) == Expansion(p, a, 0) + 1 * Pow(a, 0);
      CongRefl(1, p);
    } else {
      ExpansionModPrime(p, a, k - 1);
      PrimeBinomial(p, k - 1);
      var t := Binomial(p, k - 1) * Pow(a, k - 1);
      DividesMul(p, Binomial(p, k - 1), Pow(a, k - 1));
      DividesAdd(p, Expansion(p, a, k - 1) - 1, t);
      assert Expansion(p, a, k - 1) - 1 + t == Expansion(p, a, k) - 1;
    }
  }

  lemma {:induction false} FermatNat(p: int, a: nat)
    requires Prime(p)
    ensures Cong(Pow(a, p), a, p)
    decreases a
  {
    if a == 0 {
      assert Pow(0, p) == 0 * Pow(0, p - 1);
      CongRefl(0, p);
    } else {
      FermatNat(p, a - 1);
      BinomialTheorem(p, a - 1);
      ExpansionModPrime(p, a - 1, p);
      BinomialDiagonal(p);
      assert Expansion(p, a - 1, p + 1) == Expansion(p, a - 1, p) + 1 * Pow(a - 1, p);
      CongAdd(Expansion(p, a - 1, p), 1, Pow(a - 1, p), a - 1, p);
    }
  }

  /** Fermat's little theorem, for every integer. */
  lemma LittleTheorem(p: int, a: int)
    requires Prime(p)
    ensures Cong(Pow(a, p), a, p)
    ensures !Divides(p, a) ==> Cong(Pow(a, p - 1), 1, p)
  {
    CongMod(a, p);
    FermatNat(p, a % p);
    PowCong(a, a % p, p, p);
    CongTrans(Pow(a, p), Pow(a % p, p), a % p, p);
    CongTrans(Pow(a, p), a % p, a, p);
    if !Divides(p, a) {
      assert Pow(a, p) == a * Pow(a, p - 1) && a * 1 == a;
      CongCancel(p, a, Pow(a, p - 1), 1);
    }
  }

  /** Exponents congruent to one modulo p-1 fix every residue modulo p. */
  lemma ExponentFixes(p: int, a: int, e: nat, k: nat)
    requires Prime(p) && e == 1 + k * (p - 1)
    ensures Cong(Pow(a, e), a, p)
  {
    if Divides(p, a) {
      DividesPow(p, a, e);
      DividesAdd(p, Pow(a, e), a);
    } else {
      LittleTheorem(p, a);
      var f := (p - 1) * k;
      PowMul(a, p - 1, k);
      PowCong(Pow(a, p - 1), 1, k, p);
      PowOne(k);
      CongRefl(a, p);
      CongMul(a, a, Pow(a, f), 1, p);
      assert f == e - 1;
      assert Pow(a, e) == a * Pow(a, f) && a * 1 == a;
    }
  }

  // ----- Roots of unity

  /** The value at `x` of the polynomial with coefficients `c`, lowest degree first. */
  function Eval(c: seq<int>, x: int): int {
    if c == [] then 0 else c[0] + x * Eval(c[1..], x)
  }

  /** Synthetic division by (x - r). */
  function Deflate(c: seq<int>, r: int): (q: seq<int>)
    requires c != []
    ensures |q| == |c| - 1
    ensures q != [] ==> q[|q| - 1] == c[|c| - 1]
  {
    if |c| == 1 then []
    else
      assert |c| == 2 ==> Eval(c[1..][1..], r) == 0;
      [Eval(c[1..], r)] + Deflate(c[1..], r)
  }

  lemma {:induction false} DeflateEval(c: seq<int>, r: int, x: int)
    requires c != []
    ensures Eval(c, x) == Eval(c, r) + (x - r) * Eval(Deflate(c, r), x)
    decreases |c|
  {
    if |c| == 1 {
      assert c[1..] == [];
      assert x * 0 == 0 && r * 0 == 0 && (x - r) * 0 == 0;
    } else {
      var t := c[1..];
      DeflateEval(t, r, x);
      assert Deflate(c, r)[1..] == Deflate(t, r);
      HornerStep(c[0], x, r, Eval(t, x), Eval(t, r), Eval(Deflate(t, r), x));
    }
  }

  lemma HornerStep(c: int, x: int, r: int, u: int, v: int, w: int)
    requires u == v + (x - r) * w
    ensures c + x * u == c + r * v + (x - r) * (v + x * w)
  {
    assert x * u == x * v + x * ((x - r) * w);
    assert x * ((x - r) * w) == (x - r) * (x * w);
    assert (x - r) * (v + x * w) == (x - r) * v + (x - r) * (x * w);
  }

  /** A polynomial whose leading coefficient is a unit modulo p does not vanish
      at as many consecutive points as it has coefficients. */
  lemma {:induction false} RootBound(p: int, c: seq<int>)
    requires Prime(p) && 0 < |c| <= p && !Divides(p, c[|c| - 1])
    ensures exists i :: 1 <= i <= |c| && !Divides(p, Eval(c, i))
    decreases |c|
  {
    if |c| == 1 {
      assert c[1..] == [];
      assert Eval(c, 1) == c[0] + 1 * 0;
    } else if Divides(p, Eval(c, |c|)) {
      var r := |c|;
      var q := Deflate(c, r);
      RootBound(p, q);
      var i :| 1 <= i <= |q| && !Divides(p, Eval(q, i));
      assert !Divides(p, Eval(c, i)) by {
        DeflateEval(c, r, i);
        if Divides(p, Eval(c, i)) {
          DividesAdd(p, Eval(c, i), Eval(c, r));
          EuclidLemma(p, i - r, Eval(q, i));
          DividesMul(p, i - r, -1);
          DividesBound(p, r - i);
        }
      }
    }
  }

  /** The coefficients of x^n. */
  function Monomial(n: nat): (c: seq<int>)
    ensures |c| == n + 1 && c[n] == 1
  {
    if n == 0 then [1] else [0] + Monomial(n - 1)
  }

  lemma {:induction false} MonomialEval(n: nat, x: int)
    ensures Eval(Monomial(n), x) == Pow(x, n)
    decreases n
  {
    if n == 0 {
      assert Monomial(0)[1..] == [];
      assert x * 0 == 0;
    } else {
      assert Monomial(n)[1..] == Monomial(n - 1);
      MonomialEval(n - 1, x);
    }
  }

  /** No exponent below p-1 annihilates the whole multiplicative group. */
  lemma NotAllRootsOfUnity(p: int, n: nat) returns (a: nat)
    requires Prime(p) && 0 < n < p - 1
    ensures 1 <= a < p && !Cong(Pow(a, n), 1, p)
  {
    var c := [-1] + Monomial(n - 1);
    if Divides(p, 1) {
      DividesBound(p, 1);
    }
    RootBound(p, c);
    var i :| 1 <= i <= |c| && !Divides(p, Eval(c, i));
    a := i;
    assert c[1..] == Monomial(n - 1);
    MonomialEval(n - 1, a);
  }
}
