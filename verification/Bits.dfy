/** Bitwise operations on unbounded integers, two's complement for the negative
    ones, and what they become on 32-bit words. */
module Bits {
  import opened Modular
  import opened NumberTheory

  /** `a & b`, the second operand not negative. */
  function And(a: int, b: nat): (r: nat)
    ensures r <= b
    decreases b
  {
    if b == 0 then 0
    else (if a % 2 == 1 && b % 2 == 1 then 1 else 0) + 2 * And(a / 2, b / 2)
  }

  /** `a | b` */
  function Or(a: nat, b: nat): nat
    decreases a + b
  {
    if a == 0 && b == 0 then 0
    else (if a % 2 == 1 || b % 2 == 1 then 1 else 0) + 2 * Or(a / 2, b / 2)
  }

  /** `a ^ b` */
  function Xor(a: nat, b: nat): nat
    decreases a + b
  {
    if a == 0 && b == 0 then 0
    else (if a % 2 != b % 2 then 1 else 0) + 2 * Xor(a / 2, b / 2)
  }

  lemma {:induction false} XorBound(a: nat, b: nat, k: nat)
    requires a < TwoPow(k) && b < TwoPow(k)
    ensures Xor(a, b) < TwoPow(k)
    decreases k
  {
    if k != 0 {
      XorBound(a / 2, b / 2, k - 1);
    }
  }

  /** Masking the low bits is reduction, for negative numbers too. */
  lemma {:induction false} AndMask(a: int, k: nat)
    ensures And(a, TwoPow(k) - 1) == a % TwoPow(k)
    decreases k
  {
    var w := TwoPow(k);
    if k == 0 {
      DivModUnique(a, 1, a, 0);
    } else {
      AndMask(a / 2, k - 1);
      HalfMod(a, TwoPow(k - 1));
      assert (w - 1) / 2 == TwoPow(k - 1) - 1 && (w - 1) % 2 == 1;
    }
  }

  lemma HalfMod(a: int, v: nat)
    requires 0 < v
    ensures a % (2 * v) == 2 * ((a / 2) % v) + a % 2
  {
    var q, r := (a / 2) / v, (a / 2) % v;
    assert q * (2 * v) == 2 * (q * v);
    DivModUnique(a, 2 * v, q, 2 * r + a % 2);
  }

  /** Only the low bits of the first operand meet a short second one. */
  lemma {:induction false} AndLow(a: int, a': int, b: nat, k: nat)
    requires b < TwoPow(k) && Cong(a, a', TwoPow(k))
    ensures And(a, b) == And(a', b)
    decreases k
  {
    hide Divides;
    if k != 0 && b != 0 {
      var v := TwoPow(k - 1);
      var q := Quotient(2 * v, a - a');
      assert q * (2 * v) == 2 * (q * v);
      assert a % 2 == a' % 2 && a / 2 - a' / 2 == q * v;
      CongBy(a / 2, a' / 2, v, q);
      AndLow(a / 2, a' / 2, b / 2, k - 1);
    }
  }

  /** Or of numbers without common bits is their sum. */
  lemma {:induction false} OrDisjoint(x: nat, y: nat, k: nat)
    requires y < TwoPow(k)
    ensures x * TwoPow(k) >= 0 && Or(x * TwoPow(k), y) == x * TwoPow(k) + y
    decreases k
  {
    if k == 0 {
      assert x * 1 == x;
      OrZero(x);
    } else {
      var v := TwoPow(k - 1);
      assert x * (2 * v) == 2 * (x * v);
      OrDisjoint(x, y / 2, k - 1);
      if x * (2 * v) == 0 && y == 0 {
        assert x * v == 0;
      }
    }
  }

  lemma {:induction false} OrZero(x: nat)
    ensures Or(x, 0) == x
  {
    if x != 0 {
      OrZero(x / 2);
    }
  }

  // ----- Words

  type Word = w: nat | w < 0x1_0000_0000
  type Byte = b: nat | b < 0x100

  const MODULUS: nat := 0x1_0000_0000
  const MASK: nat := 0xFFFF_FFFF

  lemma ByteSize()
    ensures TwoPow(8) == 0x100
  {}

  lemma WordSize()
    ensures TwoPow(32) == MODULUS && TwoPow(24) == 0x100_0000 && TwoPow(16) == 0x1_0000 && TwoPow(8) == 0x100
  {
    hide TwoPow;
    ByteSize();
    TwoPowAdd(8, 8);
    TwoPowAdd(8, 16);
    TwoPowAdd(16, 16);
  }

  lemma MaskIsMod(a: int)
    ensures And(a, MASK) == a % MODULUS
  {
    hide And, TwoPow;
    WordSize();
    AndMask(a, 32);
  }

  /** The complement of a word, in 32 bits and without bound, select the same bits. */
  lemma ComplementSelects(x: Word, z: Word)
    ensures And(-1 - x, z) == And(MASK - x, z)
  {
    WordSize();
    CongBy(-1 - x, MASK - x, MODULUS, -1);
    AndLow(-1 - x, MASK - x, z, 32);
  }

  function XorWord(a: Word, b: Word): Word {
    WordSize();
    XorBound(a, b, 32);
    Xor(a, b)
  }

  /** Rotation to the right, by quotient and remainder. */
  function Rotr(x: Word, n: nat): Word
    requires 0 < n < 32
  {
    RotrBound(x, n);
    x / TwoPow(n) + (x % TwoPow(n)) * TwoPow(32 - n)
  }

  lemma WordSplit(n: nat)
    requires n <= 32
    ensures TwoPow(n) * TwoPow(32 - n) == MODULUS
  {
    WordSize();
    TwoPowAdd(n, 32 - n);
  }

  lemma RotrBound(x: Word, n: nat)
    requires 0 < n < 32
    ensures 0 <= x / TwoPow(n) < TwoPow(32 - n)
    ensures 0 <= (x % TwoPow(n)) * TwoPow(32 - n) <= MODULUS - TwoPow(32 - n)
  {
    hide TwoPow;
    WordSplit(n);
    SplitBound(x, TwoPow(n), TwoPow(32 - n));
  }

  lemma SplitBound(x: nat, a: nat, b: nat)
    requires 0 < a && 0 < b && x < a * b
    ensures 0 <= x / a < b && 0 <= (x % a) * b <= a * b - b
  {
    QuotientBelow(x / a, x % a, a, b);
    RemainderBelow(x % a, a, b);
  }

  lemma QuotientBelow(q: int, r: int, a: nat, b: nat)
    requires q * a + r < a * b && 0 <= r < a
    ensures q < b
  {
    assert (q - b) * a < 0;
  }

  lemma RemainderBelow(r: int, a: nat, b: nat)
    requires 0 <= r < a
    ensures 0 <= r * b <= a * b - b
  {
    var z := a - 1 - r;
    assert (r + 1 + z) * b == r * b + b + z * b;
  }

  function Shr(x: nat, n: nat): nat {
    DivNonneg(x, TwoPow(n));
    x / TwoPow(n)
  }

  function Shl(x: nat, n: nat): nat {
    x * TwoPow(n)
  }

  /** Shifting left in 32 bits keeps the low part. */
  lemma ShiftLeft(x: nat, a: nat, b: nat)
    requires 0 < a && 0 < b
    ensures (x * b) % (a * b) == (x % a) * b
  {
    var q, r := x / a, x % a;
    assert x * b == q * (a * b) + r * b by {
      assert x == q * a + r;
      assert (q * a + r) * b == q * a * b + r * b;
    }
    assert a * b == r * b + (a - r) * b && (a - r) * b > 0;
    DivModUnique(x * b, a * b, q, r * b);
  }

  /** The usual spelling of a rotation, in 32 bits, is the rotation. */
  lemma RotateByShifts(x: Word, n: nat)
    requires 0 < n < 32
    ensures Or(Shr(x, n), Shl(x, 32 - n) % MODULUS) == Rotr(x, n)
  {
    hide TwoPow, Or;
    RotrBound(x, n);
    WordSplit(n);
    ShiftLeft(x, TwoPow(n), TwoPow(32 - n));
    OrDisjoint(x % TwoPow(n), x / TwoPow(n), 32 - n);
    OrCommutes(x / TwoPow(n), (x % TwoPow(n)) * TwoPow(32 - n));
  }

  lemma {:induction false} OrCommutes(a: nat, b: nat)
    ensures Or(a, b) == Or(b, a)
    decreases a + b
  {
    if a != 0 || b != 0 {
      OrCommutes(a / 2, b / 2);
    }
  }
}
