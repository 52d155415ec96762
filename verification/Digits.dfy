/** Positional notation: what `toString(b)` prints and what parsing it reads,
    a numeral being the sequence of its digit values, most significant first. */
module Digits {
  import opened Modular
  import opened NumberTheory

  function ToDigits(n: nat, b: nat): (ds: seq<nat>)
    requires 2 <= b
    ensures ds != []
    decreases n
  {
    if n < b then [n] else
      assert n / b < n by { Shrinks(n, b); }
      ToDigits(n / b, b) + [n % b]
  }

  function FromDigits(ds: seq<nat>, b: nat): nat {
    if ds == [] then 0
    else FromDigits(ds[..|ds| - 1], b) * b + ds[|ds| - 1]
  }

  predicate AreDigits(ds: seq<nat>, b: nat) {
    forall i :: 0 <= i < |ds| ==> ds[i] < b
  }

  lemma Shrinks(n: nat, b: nat)
    requires 2 <= b <= n
    ensures n / b < n
  {
    Twice(n / b, b);
  }

  lemma Twice(q: nat, b: int)
    requires 2 <= b
    ensures 2 * q <= q * b
  {}

  lemma {:induction false} ToDigitsAreDigits(n: nat, b: nat)
    requires 2 <= b
    ensures AreDigits(ToDigits(n, b), b)
    decreases n
  {
    if n >= b {
      Shrinks(n, b);
      ToDigitsAreDigits(n / b, b);
    }
  }

  /** Reading what was printed. */
  lemma {:induction false} PrintParse(n: nat, b: nat)
    requires 2 <= b
    ensures FromDigits(ToDigits(n, b), b) == n
    decreases n
  {
    if n < b {
      assert [n][..0] == [];
    } else {
      Shrinks(n, b);
      PrintParse(n / b, b);
      var ds := ToDigits(n / b, b) + [n % b];
      assert ds[..|ds| - 1] == ToDigits(n / b, b);
    }
  }

  /** Leading zeros, all but a last lone digit, are lost in the number. */
  function Strip(ds: seq<nat>): (r: seq<nat>)
    ensures |r| <= |ds|
  {
    if |ds| > 1 && ds[0] == 0 then Strip(ds[1..]) else ds
  }

  lemma PrintAppend(q: nat, d: nat, b: nat)
    requires 0 < q && d < b && 2 <= b
    ensures ToDigits(q * b + d, b) == ToDigits(q, b) + [d]
  {
    DivModUnique(q * b + d, b, q, d);
    assert q * b == (q - 1) * b + b && (q - 1) * b >= 0;
  }

  /** Printing what was read. */
  lemma {:induction false} ParsePrint(ds: seq<nat>, b: nat)
    requires 2 <= b && AreDigits(ds, b) && ds != []
    ensures ToDigits(FromDigits(ds, b), b) == Strip(ds)
    decreases |ds|
  {
    var k := |ds| - 1;
    if k == 0 {
      assert ds[..0] == [] && ds == [ds[0]];
    } else if ds[0] == 0 {
      LeadingZero(ds, b);
      ParsePrint(ds[1..], b);
    } else {
      ParsePrint(ds[..k], b);
      LeadingPositive(ds[..k], b);
      PrintAppend(FromDigits(ds[..k], b), ds[k], b);
      assert Strip(ds[..k]) == ds[..k];
      assert ds == ds[..k] + [ds[k]];
    }
  }

  lemma {:induction false} LeadingZero(ds: seq<nat>, b: nat)
    requires ds != [] && ds[0] == 0
    ensures FromDigits(ds, b) == FromDigits(ds[1..], b)
    decreases |ds|
  {
    if |ds| == 1 {
      assert ds[..0] == [];
      assert 0 * b == 0;
    } else {
      LeadingZero(ds[..|ds| - 1], b);
      assert ds[..|ds| - 1][1..] == ds[1..][..|ds| - 2];
    }
  }

  lemma {:induction false} LeadingPositive(ds: seq<nat>, b: nat)
    requires 2 <= b && ds != [] && ds[0] != 0
    ensures FromDigits(ds, b) > 0
    decreases |ds|
  {
    if |ds| == 1 {
      assert ds[..0] == [];
    } else {
      LeadingPositive(ds[..|ds| - 1], b);
    }
  }

  // ----- A fixed number of digits

  /** The `n` low digits of `x`, most significant first. */
  function Fixed(x: nat, b: nat, n: nat): (ds: seq<nat>)
    requires 0 < b
    ensures |ds| == n && AreDigits(ds, b)
    decreases n
  {
    if n == 0 then [] else
      DivNonneg(x, b);
      Fixed(x / b, b, n - 1) + [x % b]
  }

  /** A place selects a digit. */
  lemma {:induction false} FixedAt(x: nat, b: nat, n: nat, i: nat, place: nat)
    requires 0 < b && i < n && place == Pow(b, n - 1 - i)
    ensures 0 < place && Fixed(x, b, n)[i] == x / place % b
    decreases n
  {
    PowPositive(b, n - 1 - i);
    DivNonneg(x, b);
    if i == n - 1 {
      DivModUnique(x, 1, x, 0);
    } else {
      var q := Pow(b, n - 2 - i);
      PowPositive(b, n - 2 - i);
      FixedAt(x / b, b, n - 1, i, q);
      DivDiv(x, b, q);
    }
  }

  lemma DivDiv(x: nat, a: nat, b: nat)
    requires 0 < a && 0 < b
    ensures 0 < a * b && x / a / b == x / (a * b)
  {
    var q, r := x / a, x % a;
    var s, t := q / b, q % b;
    assert 0 < a * b;
    NestedRemainder(t, r, a, b);
    assert x == s * (a * b) + (t * a + r) by {
      assert q == s * b + t;
      assert (s * b + t) * a == s * (a * b) + t * a;
    }
    DivModUnique(x, a * b, s, t * a + r);
  }

  lemma NestedRemainder(t: int, r: int, a: int, b: int)
    requires 0 <= r < a && 0 <= t < b
    ensures 0 <= t * a + r < a * b
  {
    assert a * b == t * a + a + (b - 1 - t) * a;
    assert (b - 1 - t) * a >= 0;
  }

  /** Fixed numerals are determined by the number, below the size they hold. */
  lemma {:induction false} FixedInjective(x: nat, y: nat, b: nat, n: nat)
    requires 0 < b && x < Pow(b, n) && y < Pow(b, n) && Fixed(x, b, n) == Fixed(y, b, n)
    ensures x == y
    decreases n
  {
    if n != 0 {
      var f, g := Fixed(x, b, n), Fixed(y, b, n);
      DivNonneg(x, b);
      DivNonneg(y, b);
      assert f[n - 1] == x % b && g[n - 1] == y % b;
      assert f[..n - 1] == Fixed(x / b, b, n - 1) && g[..n - 1] == Fixed(y / b, b, n - 1);
      BelowQuotient(x, b, Pow(b, n - 1));
      BelowQuotient(y, b, Pow(b, n - 1));
      FixedInjective(x / b, y / b, b, n - 1);
    }
  }

  lemma BelowQuotient(x: nat, b: nat, w: nat)
    requires 0 < b && x < b * w
    ensures x / b < w
  {
    assert (x / b - w) * b < 0;
  }
}
