/** What the constants of SHA-256 are (sections 4.2.2 and 5.3.3 of FIPS 180-4): the
    first 32 bits of the fractional parts of the cube roots of the first 64 primes, and of
    the square roots of the first eight. */
module Sha256Constants {
  import opened Modular
  import opened NumberTheory
  import opened MillerRabin
  import opened Bits
  import opened Sha256

  // ----- The first 64 primes

  const P0: seq<nat> := [2, 3, 5, 7, 11, 13, 17, 19]
  const P1: seq<nat> := [23, 29, 31, 37, 41, 43, 47, 53]
  const P2: seq<nat> := [59, 61, 67, 71, 73, 79, 83, 89]
  const P3: seq<nat> := [97, 101, 103, 107, 109, 113, 127, 131]
  const P4: seq<nat> := [137, 139, 149, 151, 157, 163, 167, 173]
  const P5: seq<nat> := [179, 181, 191, 193, 197, 199, 211, 223]
  const P6: seq<nat> := [227, 229, 233, 239, 241, 251, 257, 263]
  const P7: seq<nat> := [269, 271, 277, 281, 283, 293, 307, 311]

  const PRIMES: seq<nat> := P0 + P1 + P2 + P3 + P4 + P5 + P6 + P7

  /** Not divisible by a smaller prime below 19. */
  predicate Sieved(n: int) {
    && 2 <= n && (n % 2 != 0 || n == 2) && (n % 3 != 0 || n == 3) && (n % 5 != 0 || n == 5)
    && (n % 7 != 0 || n == 7) && (n % 11 != 0 || n == 11) && (n % 13 != 0 || n == 13) && (n % 17 != 0 || n == 17)
  }

  lemma PrimeSieved(n: int)
    requires Prime(n)
    ensures Sieved(n)
  {
    hide Divides;
    DividesIffMod(2, n);
    DividesIffMod(3, n);
    DividesIffMod(5, n);
    DividesIffMod(7, n);
    DividesIffMod(11, n);
    DividesIffMod(13, n);
    DividesIffMod(17, n);
  }

  lemma SmallSieved(q: int)
    requires Sieved(q) && q <= 18
    ensures q in [2, 3, 5, 7, 11, 13, 17]
  {}

  /** Below 19 squared the sieve leaves only primes. */
  lemma SievedPrime(n: int)
    requires Sieved(n) && n < 361
    ensures Prime(n)
  {
    if !Prime(n) {
      hide Divides;
      var d :| 2 <= d < n && Divides(d, n);
      var i := SmallFactor(d, n, 18);
      var q := PrimeDivisor(i);
      DividesTrans(q, i, n);
      DividesBound(q, i);
      PrimeSieved(q);
      SmallSieved(q);
      DividesIffMod(q, n);
    }
  }

  /** Nothing between `lo` and `hi` passes the sieve. */
  predicate Swept(lo: nat, hi: nat)
    decreases hi - lo
  {
    lo + 1 < hi ==> !Sieved(lo + 1) && Swept(lo + 1, hi)
  }

  lemma {:induction false} SweptMeans(lo: nat, hi: nat, n: int)
    requires Swept(lo, hi) && lo < n < hi
    ensures !Prime(n)
    decreases hi - lo
  {
    if n == lo + 1 {
      if Prime(n) {
        PrimeSieved(n);
      }
    } else {
      SweptMeans(lo + 1, hi, n);
    }
  }

  /** The least prime above `p`. */
  ghost predicate NextPrime(p: nat, q: nat) {
    p < q && Prime(q) && forall n :: p < n < q ==> !Prime(n)
  }

  lemma NextPrimeIs(p: nat, q: nat)
    requires p < q < 361 && Sieved(q) && Swept(p, q)
    ensures NextPrime(p, q)
  {
    SievedPrime(q);
    forall n | p < n < q
      ensures !Prime(n)
    {
      SweptMeans(p, q, n);
    }
  }

  // ----- Roots

  predicate SquareRoot(r: nat, n: nat) {
    r * r <= n < (r + 1) * (r + 1)
  }

  predicate CubeRoot(r: nat, n: nat) {
    r * r * r <= n < (r + 1) * (r + 1) * (r + 1)
  }

  /** The word holds the first 32 bits of the fractional part of the square root of `p`. */
  ghost predicate SquareRootWord(w: Word, p: nat) {
    exists q: nat :: SquareRoot(q, p) && SquareRoot(q * 0x1_0000_0000 + w, p * 0x1_0000_0000_0000_0000)
  }

  /** The word holds the first 32 bits of the fractional part of the cube root of `p`. */
  ghost predicate CubeRootWord(w: Word, p: nat) {
    exists q: nat :: CubeRoot(q, p) && CubeRoot(q * 0x1_0000_0000 + w, p * 0x1_0000_0000_0000_0000_0000_0000)
  }

  lemma CubeRootIs(w: Word, p: nat, q: nat)
    requires CubeRoot(q, p)
    requires CubeRoot(q * 0x1_0000_0000 + w, p * 0x1_0000_0000_0000_0000_0000_0000)
    ensures CubeRootWord(w, p)
  {}

  lemma SquareRootIs(w: Word, p: nat, q: nat)
    requires SquareRoot(q, p)
    requires SquareRoot(q * 0x1_0000_0000 + w, p * 0x1_0000_0000_0000_0000)
    ensures SquareRootWord(w, p)
  {}

  // ----- The rows

  lemma Primes0(i: nat)
    requires i < 8
    ensures NextPrime(if i == 0 then 1 else P0[i - 1], P0[i])
  {
    hide NextPrime;
    NextPrimeIs(1, 2);
    NextPrimeIs(2, 3);
    NextPrimeIs(3, 5);
    NextPrimeIs(5, 7);
    NextPrimeIs(7, 11);
    NextPrimeIs(11, 13);
    NextPrimeIs(13, 17);
    NextPrimeIs(17, 19);
  }

  lemma Primes1(i: nat)
    requires i < 8
    ensures NextPrime(if i == 0 then 19 else P1[i - 1], P1[i])
  {
    hide NextPrime;
    NextPrimeIs(19, 23);
    NextPrimeIs(23, 29);
    NextPrimeIs(29, 31);
    NextPrimeIs(31, 37);
    NextPrimeIs(37, 41);
    NextPrimeIs(41, 43);
    NextPrimeIs(43, 47);
    NextPrimeIs(47, 53);
  }

  lemma Primes2(i: nat)
    requires i < 8
    ensures NextPrime(if i == 0 then 53 else P2[i - 1], P2[i])
  {
    hide NextPrime;
    NextPrimeIs(53, 59);
    NextPrimeIs(59, 61);
    NextPrimeIs(61, 67);
    NextPrimeIs(67, 71);
    NextPrimeIs(71, 73);
    NextPrimeIs(73, 79);
    NextPrimeIs(79, 83);
    NextPrimeIs(83, 89);
  }

  lemma Primes3(i: nat)
    requires i < 8
    ensures NextPrime(if i == 0 then 89 else P3[i - 1], P3[i])
  {
    hide NextPrime;
    NextPrimeIs(89, 97);
    NextPrimeIs(97, 101);
    NextPrimeIs(101, 103);
    NextPrimeIs(103, 107);
    NextPrimeIs(107, 109);
    NextPrimeIs(109, 113);
    NextPrimeIs(113, 127);
    NextPrimeIs(127, 131);
  }

  lemma Primes4(i: nat)
    requires i < 8
    ensures NextPrime(if i == 0 then 131 else P4[i - 1], P4[i])
  {
    hide NextPrime;
    NextPrimeIs(131, 137);
    NextPrimeIs(137, 139);
    NextPrimeIs(139, 149);
    NextPrimeIs(149, 151);
    NextPrimeIs(151, 157);
    NextPrimeIs(157, 163);
    NextPrimeIs(163, 167);
    NextPrimeIs(167, 173);
  }

  lemma Primes5(i: nat)
    requires i < 8
    ensures NextPrime(if i == 0 then 173 else P5[i - 1], P5[i])
  {
    hide NextPrime;
    NextPrimeIs(173, 179);
    NextPrimeIs(179, 181);
    NextPrimeIs(181, 191);
    NextPrimeIs(191, 193);
    NextPrimeIs(193, 197);
    NextPrimeIs(197, 199);
    NextPrimeIs(199, 211);
    NextPrimeIs(211, 223);
  }

  lemma Primes6(i: nat)
    requires i < 8
    ensures NextPrime(if i == 0 then 223 else P6[i - 1], P6[i])
  {
    hide NextPrime;
    NextPrimeIs(223, 227);
    NextPrimeIs(227, 229);
    NextPrimeIs(229, 233);
    NextPrimeIs(233, 239);
    NextPrimeIs(239, 241);
    NextPrimeIs(241, 251);
    NextPrimeIs(251, 257);
    NextPrimeIs(257, 263);
  }

  lemma Primes7(i: nat)
    requires i < 8
    ensures NextPrime(if i == 0 then 263 else P7[i - 1], P7[i])
  {
    hide NextPrime;
    NextPrimeIs(263, 269);
    NextPrimeIs(269, 271);
    NextPrimeIs(271, 277);
    NextPrimeIs(277, 281);
    NextPrimeIs(281, 283);
    NextPrimeIs(283, 293);
    NextPrimeIs(293, 307);
    NextPrimeIs(307, 311);
  }

  lemma Roots0(i: nat)
    requires i < 8
    ensures CubeRootWord(K0[i], P0[i])
  {
    hide CubeRootWord;
    CubeRootIs(0x428a2f98, 2, 1);
    CubeRootIs(0x71374491, 3, 1);
    CubeRootIs(0xb5c0fbcf, 5, 1);
    CubeRootIs(0xe9b5dba5, 7, 1);
    CubeRootIs(0x3956c25b, 11, 2);
    CubeRootIs(0x59f111f1, 13, 2);
    CubeRootIs(0x923f82a4, 17, 2);
    CubeRootIs(0xab1c5ed5, 19, 2);
  }

  lemma Roots1(i: nat)
    requires i < 8
    ensures CubeRootWord(K1[i], P1[i])
  {
    hide CubeRootWord;
    CubeRootIs(0xd807aa98, 23, 2);
    CubeRootIs(0x12835b01, 29, 3);
    CubeRootIs(0x243185be, 31, 3);
    CubeRootIs(0x550c7dc3, 37, 3);
    CubeRootIs(0x72be5d74, 41, 3);
    CubeRootIs(0x80deb1fe, 43, 3);
    CubeRootIs(0x9bdc06a7, 47, 3);
    CubeRootIs(0xc19bf174, 53, 3);
  }

  lemma Roots2(i: nat)
    requires i < 8
    ensures CubeRootWord(K2[i], P2[i])
  {
    hide CubeRootWord;
    CubeRootIs(0xe49b69c1, 59, 3);
    CubeRootIs(0xefbe4786, 61, 3);
    CubeRootIs(0x0fc19dc6, 67, 4);
    CubeRootIs(0x240ca1cc, 71, 4);
    CubeRootIs(0x2de92c6f, 73, 4);
    CubeRootIs(0x4a7484aa, 79, 4);
    CubeRootIs(0x5cb0a9dc, 83, 4);
    CubeRootIs(0x76f988da, 89, 4);
  }

  lemma Roots3(i: nat)
    requires i < 8
    ensures CubeRootWord(K3[i], P3[i])
  {
    hide CubeRootWord;
    CubeRootIs(0x983e5152, 97, 4);
    CubeRootIs(0xa831c66d, 101, 4);
    CubeRootIs(0xb00327c8, 103, 4);
    CubeRootIs(0xbf597fc7, 107, 4);
    CubeRootIs(0xc6e00bf3, 109, 4);
    CubeRootIs(0xd5a79147, 113, 4);
    CubeRootIs(0x06ca6351, 127, 5);
    CubeRootIs(0x14292967, 131, 5);
  }

  lemma Roots4(i: nat)
    requires i < 8
    ensures CubeRootWord(K4[i], P4[i])
  {
    hide CubeRootWord;
    CubeRootIs(0x27b70a85, 137, 5);
    CubeRootIs(0x2e1b2138, 139, 5);
    CubeRootIs(0x4d2c6dfc, 149, 5);
    CubeRootIs(0x53380d13, 151, 5);
    CubeRootIs(0x650a7354, 157, 5);
    CubeRootIs(0x766a0abb, 163, 5);
    CubeRootIs(0x81c2c92e, 167, 5);
    CubeRootIs(0x92722c85, 173, 5);
  }

  lemma Roots5(i: nat)
    requires i < 8
    ensures CubeRootWord(K5[i], P5[i])
  {
    hide CubeRootWord;
    CubeRootIs(0xa2bfe8a1, 179, 5);
    CubeRootIs(0xa81a664b, 181, 5);
    CubeRootIs(0xc24b8b70, 191, 5);
    CubeRootIs(0xc76c51a3, 193, 5);
    CubeRootIs(0xd192e819, 197, 5);
    CubeRootIs(0xd6990624, 199, 5);
    CubeRootIs(0xf40e3585, 211, 5);
    CubeRootIs(0x106aa070, 223, 6);
  }

  lemma Roots6(i: nat)
    requires i < 8
    ensures CubeRootWord(K6[i], P6[i])
  {
    hide CubeRootWord;
    CubeRootIs(0x19a4c116, 227, 6);
    CubeRootIs(0x1e376c08, 229, 6);
    CubeRootIs(0x2748774c, 233, 6);
    CubeRootIs(0x34b0bcb5, 239, 6);
    CubeRootIs(0x391c0cb3, 241, 6);
    CubeRootIs(0x4ed8aa4a, 251, 6);
    CubeRootIs(0x5b9cca4f, 257, 6);
    CubeRootIs(0x682e6ff3, 263, 6);
  }

  lemma Roots7(i: nat)
    requires i < 8
    ensures CubeRootWord(K7[i], P7[i])
  {
    hide CubeRootWord;
    CubeRootIs(0x748f82ee, 269, 6);
    CubeRootIs(0x78a5636f, 271, 6);
    CubeRootIs(0x84c87814, 277, 6);
    CubeRootIs(0x8cc70208, 281, 6);
    CubeRootIs(0x90befffa, 283, 6);
    CubeRootIs(0xa4506ceb, 293, 6);
    CubeRootIs(0xbef9a3f7, 307, 6);
    CubeRootIs(0xc67178f2, 311, 6);
  }

  lemma Located<T>(r0: seq<T>, r1: seq<T>, r2: seq<T>, r3: seq<T>,
                   r4: seq<T>, r5: seq<T>, r6: seq<T>, r7: seq<T>, i: nat)
    requires |r0| == |r1| == |r2| == |r3| == |r4| == |r5| == |r6| == |r7| == 8 && i < 64
    ensures (r0 + r1 + r2 + r3 + r4 + r5 + r6 + r7)[i] == [r0, r1, r2, r3, r4, r5, r6, r7][i / 8][i % 8]
  {}

  lemma Tables(i: nat)
    requires i < 64
    ensures |PRIMES| == |K| == 64
    ensures PRIMES[i] == [P0, P1, P2, P3, P4, P5, P6, P7][i / 8][i % 8]
    ensures K[i] == [K0, K1, K2, K3, K4, K5, K6, K7][i / 8][i % 8]
  {
    Located(P0, P1, P2, P3, P4, P5, P6, P7, i);
    Located(K0, K1, K2, K3, K4, K5, K6, K7, i);
  }

  /** The table holds the first 64 primes in order. */
  lemma PrimesInOrder(i: nat)
    requires i < 64
    ensures |PRIMES| == 64
    ensures NextPrime(if i == 0 then 1 else PRIMES[i - 1], PRIMES[i])
  {
    hide NextPrime;
    Tables(i);
    if i > 0 {
      Tables(i - 1);
    }
    var r, k := i / 8, i % 8;
    if r == 0 {
      Primes0(k);
    } else if r == 1 {
      Primes1(k);
    } else if r == 2 {
      Primes2(k);
    } else if r == 3 {
      Primes3(k);
    } else if r == 4 {
      Primes4(k);
    } else if r == 5 {
      Primes5(k);
    } else if r == 6 {
      Primes6(k);
    } else {
      Primes7(k);
    }
  }

  /** The round constants are the cube roots of the first 64 primes. */
  lemma RoundConstants(i: nat)
    requires i < 64
    ensures |K| == |PRIMES| == 64 && CubeRootWord(K[i], PRIMES[i])
  {
    hide CubeRootWord;
    Tables(i);
    var r, k := i / 8, i % 8;
    if r == 0 {
      Roots0(k);
    } else if r == 1 {
      Roots1(k);
    } else if r == 2 {
      Roots2(k);
    } else if r == 3 {
      Roots3(k);
    } else if r == 4 {
      Roots4(k);
    } else if r == 5 {
      Roots5(k);
    } else if r == 6 {
      Roots6(k);
    } else {
      Roots7(k);
    }
  }

  /** The initial registers are the square roots of the first eight. */
  lemma InitialRegisters(i: nat)
    requires i < 8
    ensures SquareRootWord([IV.a, IV.b, IV.c, IV.d, IV.e, IV.f, IV.g, IV.h][i], PRIMES[i])
  {
    SquareRootIs(0x6a09e667, 2, 1);
    SquareRootIs(0xbb67ae85, 3, 1);
    SquareRootIs(0x3c6ef372, 5, 2);
    SquareRootIs(0xa54ff53a, 7, 2);
    SquareRootIs(0x510e527f, 11, 3);
    SquareRootIs(0x9b05688c, 13, 3);
    SquareRootIs(0x1f83d9ab, 17, 4);
    SquareRootIs(0x5be0cd19, 19, 4);
  }
}
