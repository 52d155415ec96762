/** The word operations of SHA-256 read bit by bit, as sections 3.2 and 4.1.2 of
    FIPS 180-4 describe them. */
module Sha256Bits {
  import opened Modular
  import opened NumberTheory
  import opened Bits
  import opened Sha256

  /** Bit `k` of a number, bit 0 being the lowest. */
  predicate Bit(x: int, k: nat)
    decreases k
  {
    if k == 0 then x % 2 == 1 else Bit(x / 2, k - 1)
  }

  /** The bits are those of the quotients by powers of two. */
  lemma {:induction false} BitIsQuotient(x: int, k: nat)
    ensures Bit(x, k) <==> x / TwoPow(k) % 2 == 1
    decreases k
  {
    if k != 0 {
      BitIsQuotient(x / 2, k - 1);
      HalfQuotient(x, TwoPow(k - 1));
    }
  }

  lemma HalfQuotient(x: int, v: nat)
    requires 0 < v
    ensures x / (2 * v) == x / 2 / v
  {
    var q, r := x / 2 / v, x / 2 % v;
    assert q * (2 * v) == 2 * (q * v);
    DivModUnique(x, 2 * v, q, 2 * r + x % 2);
  }

  // ----- The bitwise operations

  lemma {:induction false} AndBit(a: int, b: nat, k: nat)
    ensures Bit(And(a, b), k) <==> Bit(a, k) && Bit(b, k)
    decreases k
  {
    if b == 0 {
      ZeroBit(k);
    } else if k != 0 {
      AndBit(a / 2, b / 2, k - 1);
    }
  }

  lemma {:induction false} OrBit(a: nat, b: nat, k: nat)
    ensures Bit(Or(a, b), k) <==> Bit(a, k) || Bit(b, k)
  {
    if k != 0 {
      OrBit(a / 2, b / 2, k - 1);
    }
  }

  lemma {:induction false} XorBit(a: nat, b: nat, k: nat)
    ensures Bit(Xor(a, b), k) <==> Bit(a, k) != Bit(b, k)
  {
    if k != 0 {
      XorBit(a / 2, b / 2, k - 1);
    }
  }

  lemma {:induction false} ZeroBit(k: nat)
    ensures !Bit(0, k)
  {
    if k != 0 {
      ZeroBit(k - 1);
    }
  }

  /** The complement of a word has the other bits. */
  lemma {:induction false} ComplementBit(x: int, w: nat, k: nat)
    requires k < w
    ensures Bit(TwoPow(w) - 1 - x, k) <==> !Bit(x, k)
    decreases k
  {
    assert (TwoPow(w) - 1 - x) / 2 == TwoPow(w - 1) - 1 - x / 2;
    if k != 0 {
      ComplementBit(x / 2, w - 1, k - 1);
    }
  }

  // ----- Shifts and rotations

  lemma {:induction false} LowBit(h: nat, l: nat, m: nat, k: nat)
    requires k < m
    ensures Bit(h * TwoPow(m) + l, k) <==> Bit(l, k)
  {
    var v := TwoPow(m - 1);
    assert h * (2 * v) == 2 * (h * v);
    if k != 0 {
      LowBit(h, l / 2, m - 1, k - 1);
    }
  }

  lemma {:induction false} HighBit(h: nat, l: nat, m: nat, k: nat)
    requires l < TwoPow(m)
    ensures Bit(h * TwoPow(m) + l, m + k) <==> Bit(h, k)
  {
    if m == 0 {
      assert h * TwoPow(m) + l == h;
    } else {
      var v := TwoPow(m - 1);
      assert h * (2 * v) == 2 * (h * v);
      HighBit(h, l / 2, m - 1, k);
    }
  }

  /** A shift to the right moves bit k + n to place k and fills with zeros. */
  lemma ShrBit(x: nat, n: nat, k: nat)
    ensures Bit(Shr(x, n), k) <==> Bit(x, k + n)
  {
    hide Bit, TwoPow;
    var v := TwoPow(n);
    DivNonneg(x, v);
    HighBit(x / v, x % v, n, k);
  }

  lemma ExchangedBit(h: nat, l: nat, n: nat, k: nat)
    requires n < 32 && k < 32 && h < TwoPow(32 - n) && l < TwoPow(n)
    ensures Bit(h + l * TwoPow(32 - n), k) <==> Bit(h * TwoPow(n) + l, (k + n) % 32)
  {
    hide Bit, TwoPow;
    if k + n < 32 {
      LowBit(l, h, 32 - n, k);
      HighBit(h, l, n, k);
    } else {
      HighBit(l, h, 32 - n, k + n - 32);
      LowBit(h, l, n, k + n - 32);
    }
  }

  /** A rotation moves bit k + n, counted around, to place k. */
  lemma RotrBit(x: Word, n: nat, k: nat)
    requires 0 < n < 32 && k < 32
    ensures Bit(Rotr(x, n), k) <==> Bit(x, (k + n) % 32)
  {
    hide *;
    var h, l := RotrParts(x, n);
    ExchangedBit(h, l, n, k);
  }

  lemma RotrParts(x: Word, n: nat) returns (h: nat, l: nat)
    requires 0 < n < 32
    ensures h < TwoPow(32 - n) && l < TwoPow(n)
    ensures x == h * TwoPow(n) + l && Rotr(x, n) == h + l * TwoPow(32 - n)
  {
    hide TwoPow;
    RotrBound(x, n);
    h, l := x / TwoPow(n), x % TwoPow(n);
  }

  lemma {:induction false} NoBitAbove(x: nat, w: nat, k: nat)
    requires x < TwoPow(w) && w <= k
    ensures !Bit(x, k)
  {
    if w == 0 {
      ZeroBit(k);
    } else {
      NoBitAbove(x / 2, w - 1, k - 1);
    }
  }

  // ----- The six functions

  /** Each bit of `x` chooses between `y` and `z`. */
  lemma ChBit(x: Word, y: Word, z: Word, k: nat)
    requires k < 32
    ensures Bit(Ch(x, y, z), k) <==> if Bit(x, k) then Bit(y, k) else Bit(z, k)
  {
    hide Bit, And, Xor, TwoPow;
    WordSize();
    XorBit(And(x, y), And(MASK - x, z), k);
    AndBit(x, y, k);
    AndBit(MASK - x, z, k);
    ComplementBit(x, 32, k);
  }

  /** Each bit is that of at least two of the three. */
  lemma MajBit(x: Word, y: Word, z: Word, k: nat)
    ensures Bit(Maj(x, y, z), k) <==>
              (Bit(x, k) && Bit(y, k)) || (Bit(x, k) && Bit(z, k)) || (Bit(y, k) && Bit(z, k))
  {
    hide Bit, And, Xor;
    XorBit(Xor(And(x, y), And(x, z)), And(y, z), k);
    XorBit(And(x, y), And(x, z), k);
    AndBit(x, y, k);
    AndBit(x, z, k);
    AndBit(y, z, k);
  }

  lemma BigSigmaBits(x: Word, k: nat)
    requires k < 32
    ensures Bit(BigSigma0(x), k) <==>
              ((Bit(x, (k + 2) % 32) != Bit(x, (k + 13) % 32)) != Bit(x, (k + 22) % 32))
    ensures Bit(BigSigma1(x), k) <==>
              ((Bit(x, (k + 6) % 32) != Bit(x, (k + 11) % 32)) != Bit(x, (k + 25) % 32))
  {
    hide Bit, Rotr, Xor;
    XorBit(Xor(Rotr(x, 2), Rotr(x, 13)), Rotr(x, 22), k);
    XorBit(Rotr(x, 2), Rotr(x, 13), k);
    RotrBit(x, 2, k);
    RotrBit(x, 13, k);
    RotrBit(x, 22, k);
    XorBit(Xor(Rotr(x, 6), Rotr(x, 11)), Rotr(x, 25), k);
    XorBit(Rotr(x, 6), Rotr(x, 11), k);
    RotrBit(x, 6, k);
    RotrBit(x, 11, k);
    RotrBit(x, 25, k);
  }

  lemma SmallSigmaBits(x: Word, k: nat)
    requires k < 32
    ensures Bit(SmallSigma0(x), k) <==>
              ((Bit(x, (k + 7) % 32) != Bit(x, (k + 18) % 32)) != (k + 3 < 32 && Bit(x, k + 3)))
    ensures Bit(SmallSigma1(x), k) <==>
              ((Bit(x, (k + 17) % 32) != Bit(x, (k + 19) % 32)) != (k + 10 < 32 && Bit(x, k + 10)))
  {
    hide Bit, Rotr, Xor, Shr, TwoPow;
    WordSize();
    XorBit(Xor(Rotr(x, 7), Rotr(x, 18)), Shr(x, 3), k);
    XorBit(Rotr(x, 7), Rotr(x, 18), k);
    RotrBit(x, 7, k);
    RotrBit(x, 18, k);
    ShrBit(x, 3, k);
    if 32 <= k + 3 {
      NoBitAbove(x, 32, k + 3);
    }
    XorBit(Xor(Rotr(x, 17), Rotr(x, 19)), Shr(x, 10), k);
    XorBit(Rotr(x, 17), Rotr(x, 19), k);
    RotrBit(x, 17, k);
    RotrBit(x, 19, k);
    ShrBit(x, 10, k);
    if 32 <= k + 10 {
      NoBitAbove(x, 32, k + 10);
    }
  }

  /** Two words with the same bits are equal, so the bits above say it all. */
  lemma {:induction false} BitsDecide(x: nat, y: nat, w: nat)
    requires x < TwoPow(w) && y < TwoPow(w) && forall k: nat :: k < w ==> Bit(x, k) == Bit(y, k)
    ensures x == y
  {
    if w != 0 {
      assert Bit(x, 0) == Bit(y, 0);
      forall k: nat | k < w - 1
        ensures Bit(x / 2, k) == Bit(y / 2, k)
      {
        assert Bit(x, k + 1) == Bit(y, k + 1);
      }
      BitsDecide(x / 2, y / 2, w - 1);
    }
  }
}
