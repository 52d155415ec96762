/** SHA-256 as section 6.2.2 of FIPS 180-4 defines it, on words that are numbers
    below 2^32. Both implementations are proved against these functions. */
module Sha256 {
  import opened Modular
  import opened NumberTheory
  import opened Bits
  import opened Digits

  /** The round constants, eight to a row. */
  const K0: seq<Word> := [
    0x428a2f98, 0x71374491, 0xb5c0fbcf, 0xe9b5dba5, 0x3956c25b, 0x59f111f1, 0x923f82a4, 0xab1c5ed5
  ]
  const K1: seq<Word> := [
    0xd807aa98, 0x12835b01, 0x243185be, 0x550c7dc3, 0x72be5d74, 0x80deb1fe, 0x9bdc06a7, 0xc19bf174
  ]
  const K2: seq<Word> := [
    0xe49b69c1, 0xefbe4786, 0x0fc19dc6, 0x240ca1cc, 0x2de92c6f, 0x4a7484aa, 0x5cb0a9dc, 0x76f988da
  ]
  const K3: seq<Word> := [
    0x983e5152, 0xa831c66d, 0xb00327c8, 0xbf597fc7, 0xc6e00bf3, 0xd5a79147, 0x06ca6351, 0x14292967
  ]
  const K4: seq<Word> := [
    0x27b70a85, 0x2e1b2138, 0x4d2c6dfc, 0x53380d13, 0x650a7354, 0x766a0abb, 0x81c2c92e, 0x92722c85
  ]
  const K5: seq<Word> := [
    0xa2bfe8a1, 0xa81a664b, 0xc24b8b70, 0xc76c51a3, 0xd192e819, 0xd6990624, 0xf40e3585, 0x106aa070
  ]
  const K6: seq<Word> := [
    0x19a4c116, 0x1e376c08, 0x2748774c, 0x34b0bcb5, 0x391c0cb3, 0x4ed8aa4a, 0x5b9cca4f, 0x682e6ff3
  ]
  const K7: seq<Word> := [
    0x748f82ee, 0x78a5636f, 0x84c87814, 0x8cc70208, 0x90befffa, 0xa4506ceb, 0xbef9a3f7, 0xc67178f2
  ]

  const K: seq<Word> := K0 + K1 + K2 + K3 + K4 + K5 + K6 + K7

  lemma KLength()
    ensures |K| == 64
  {}

  datatype Regs = Regs(a: Word, b: Word, c: Word, d: Word, e: Word, f: Word, g: Word, h: Word)

  const IV: Regs := Regs(0x6a09e667, 0xbb67ae85, 0x3c6ef372, 0xa54ff53a,
                         0x510e527f, 0x9b05688c, 0x1f83d9ab, 0x5be0cd19)

  function Plus(x: Word, y: Word): Word {
    (x + y) % MODULUS
  }

  function AndWord(x: Word, y: Word): Word {
    And(x, y)
  }

  function Ch(x: Word, y: Word, z: Word): Word {
    XorWord(AndWord(x, y), AndWord(MASK - x, z))
  }

  function Maj(x: Word, y: Word, z: Word): Word {
    XorWord(XorWord(AndWord(x, y), AndWord(x, z)), AndWord(y, z))
  }

  function ShrWord(x: Word, n: nat): Word
    requires n <= 10
  {
    ShrShrinks(x, n);
    Shr(x, n)
  }

  lemma ShrShrinks(x: nat, n: nat)
    ensures Shr(x, n) <= x
  {
    hide TwoPow;
    DivNonneg(x, TwoPow(n));
    DivShrinks(x / TwoPow(n), x % TwoPow(n), TwoPow(n));
  }

  lemma DivShrinks(q: nat, r: nat, d: nat)
    requires 0 < d
    ensures q <= q * d + r
  {
    assert q * d == q + q * (d - 1);
  }

  function BigSigma0(x: Word): Word {
    XorWord(XorWord(Rotr(x, 2), Rotr(x, 13)), Rotr(x, 22))
  }

  function BigSigma1(x: Word): Word {
    XorWord(XorWord(Rotr(x, 6), Rotr(x, 11)), Rotr(x, 25))
  }

  function SmallSigma0(x: Word): Word {
    XorWord(XorWord(Rotr(x, 7), Rotr(x, 18)), ShrWord(x, 3))
  }

  function SmallSigma1(x: Word): Word {
    XorWord(XorWord(Rotr(x, 17), Rotr(x, 19)), ShrWord(x, 10))
  }

  /** The big-endian word of four bytes. */
  function WordOf(b0: Byte, b1: Byte, b2: Byte, b3: Byte): Word {
    b0 * 0x100_0000 + b1 * 0x1_0000 + b2 * 0x100 + b3
  }

  /** The message schedule of a block. */
  function Schedule(block: seq<Byte>, t: nat): Word
    requires |block| == 64 && t < 64
  {
    if t < 16 then WordOf(block[4 * t], block[4 * t + 1], block[4 * t + 2], block[4 * t + 3])
    else (SmallSigma1(Schedule(block, t - 2)) + Schedule(block, t - 7)
          + SmallSigma0(Schedule(block, t - 15)) + Schedule(block, t - 16)) % MODULUS
  }

  function Round(r: Regs, k: Word, w: Word): Regs {
    var t1: Word := (r.h + BigSigma1(r.e) + Ch(r.e, r.f, r.g) + k + w) % MODULUS;
    var t2: Word := (BigSigma0(r.a) + Maj(r.a, r.b, r.c)) % MODULUS;
    Regs(Plus(t1, t2), r.a, r.b, r.c, Plus(r.d, t1), r.e, r.f, r.g)
  }

  function Rounds(r: Regs, block: seq<Byte>, t: nat): Regs
    requires |block| == 64 && t <= 64
  {
    KLength();
    if t == 0 then r else Round(Rounds(r, block, t - 1), K[t - 1], Schedule(block, t - 1))
  }

  function PlusRegs(r: Regs, s: Regs): Regs {
    Regs(Plus(r.a, s.a), Plus(r.b, s.b), Plus(r.c, s.c), Plus(r.d, s.d),
         Plus(r.e, s.e), Plus(r.f, s.f), Plus(r.g, s.g), Plus(r.h, s.h))
  }

  function Compress(r: Regs, block: seq<Byte>): Regs
    requires |block| == 64
  {
    PlusRegs(r, Rounds(r, block, 64))
  }

  /** Folding the compression over whole blocks. */
  function HashBlocks(r: Regs, bytes: seq<Byte>): Regs
    decreases |bytes|
  {
    hide Compress;
    if |bytes| < 64 then r else HashBlocks(Compress(r, bytes[..64]), bytes[64..])
  }

  lemma {:induction false} HashBlocksAppend(r: Regs, x: seq<Byte>, y: seq<Byte>)
    requires |x| % 64 == 0
    ensures HashBlocks(r, x + y) == HashBlocks(HashBlocks(r, x), y)
    decreases |x|
  {
    hide Compress;
    if x == [] {
      assert x + y == y;
    } else {
      assert (x + y)[..64] == x[..64];
      assert (x + y)[64..] == x[64..] + y;
      HashBlocksAppend(Compress(r, x[..64]), x[64..], y);
    }
  }

  lemma HashOneBlock(r: Regs, block: seq<Byte>)
    requires |block| == 64
    ensures HashBlocks(r, block) == Compress(r, block)
  {
    hide Compress;
    assert block[..64] == block;
    assert HashBlocks(Compress(r, block), block[64..]) == Compress(r, block);
  }

  // ----- Padding

  function Zeros(n: nat): (z: seq<Byte>)
    ensures |z| == n && forall i :: 0 <= i < n ==> z[i] == 0
  {
    seq(n, i => 0)
  }

  function BigEndian(x: nat, n: nat): (b: seq<Byte>)
    ensures |b| == n
  {
    Fixed(x, 0x100, n)
  }

  /** The number of zero bytes: the least that leaves room for the length. */
  function ZeroCount(len: nat): (n: nat)
    ensures n < 64 && (len + 1 + n) % 64 == 56
  {
    (119 - len % 64) % 64
  }

  function PadWith(msg: seq<Byte>, bits: nat): seq<Byte> {
    msg + [0x80] + Zeros(ZeroCount(|msg|)) + BigEndian(bits, 8)
  }

  function Pad(msg: seq<Byte>): seq<Byte> {
    PadWith(msg, 8 * |msg|)
  }

  /** The padded length is the least multiple of 64 with room for nine more bytes. */
  lemma PadLength(msg: seq<Byte>)
    ensures |Pad(msg)| % 64 == 0 && |msg| + 9 <= |Pad(msg)|
    ensures forall n: nat :: n % 64 == 0 && |msg| + 9 <= n ==> |Pad(msg)| <= n
  {
    hide BigEndian, ZeroCount, Zeros;
    var total := |Pad(msg)|;
    assert total == |msg| + 1 + ZeroCount(|msg|) + 8;
    forall n: nat | n % 64 == 0 && |msg| + 9 <= n
      ensures total <= n
    {
      LeastMultiple(total, n);
    }
  }

  lemma LeastMultiple(t: nat, n: nat)
    requires t % 64 == 0 && n % 64 == 0 && t < n + 64
    ensures t <= n
  {}

  lemma LengthFieldInjective(x: nat, y: nat)
    requires x < 0x1_0000_0000_0000_0000 && y < 0x1_0000_0000_0000_0000
    requires BigEndian(x, 8) == BigEndian(y, 8)
    ensures x == y
  {
    assert Pow(0x100, 8) == 0x1_0000_0000_0000_0000;
    FixedInjective(x, y, 0x100, 8);
  }

  /** Padding loses nothing, below the length that the field can hold. */
  lemma PadInjective(x: seq<Byte>, y: seq<Byte>)
    requires |x| < 0x2000_0000_0000_0000 && |y| < 0x2000_0000_0000_0000
    requires Pad(x) == Pad(y)
    ensures x == y
  {
    hide BigEndian, ZeroCount;
    PadEnds(x);
    PadEnds(y);
    LengthFieldInjective(8 * |x|, 8 * |y|);
  }

  lemma PadEnds(x: seq<Byte>)
    ensures var p := Pad(x);
            |p| >= |x| + 9 && p[..|x|] == x && p[|p| - 8..] == BigEndian(8 * |x|, 8)
  {
    hide BigEndian, ZeroCount;
    var p := Pad(x);
    assert |p| == |x| + 1 + ZeroCount(|x|) + 8;
  }

  // ----- Digests

  function WordBytes(x: Word): (b: seq<Byte>)
    ensures |b| == 4
  {
    BigEndian(x, 4)
  }

  function DigestBytes(r: Regs): (b: seq<Byte>)
    ensures |b| == 32
  {
    WordBytes(r.a) + WordBytes(r.b) + WordBytes(r.c) + WordBytes(r.d)
    + WordBytes(r.e) + WordBytes(r.f) + WordBytes(r.g) + WordBytes(r.h)
  }

  /** Two hexadecimal digits for every byte. */
  function HexBytes(bytes: seq<Byte>): seq<nat> {
    if bytes == [] then [] else [bytes[0] / 16, bytes[0] % 16] + HexBytes(bytes[1..])
  }

  /** Eight hexadecimal digits for a word. */
  function HexWord(x: Word): seq<nat> {
    Fixed(x, 16, 8)
  }

  function HexRegs(r: Regs): seq<nat> {
    HexWord(r.a) + HexWord(r.b) + HexWord(r.c) + HexWord(r.d)
    + HexWord(r.e) + HexWord(r.f) + HexWord(r.g) + HexWord(r.h)
  }

  lemma {:induction false} HexAppend(x: seq<Byte>, y: seq<Byte>)
    ensures HexBytes(x + y) == HexBytes(x) + HexBytes(y)
    decreases |x|
  {
    if x == [] {
      assert x + y == y;
    } else {
      HexAppend(x[1..], y);
      assert (x + y)[1..] == x[1..] + y;
    }
  }

  /** Two hexadecimal digits a byte, or twice as many of the number. */
  lemma {:induction false} HexOfBigEndian(x: nat, n: nat)
    ensures HexBytes(BigEndian(x, n)) == Fixed(x, 16, 2 * n)
    decreases n
  {
    if n != 0 {
      var y := x / 0x100;
      HexOfBigEndian(y, n - 1);
      assert BigEndian(x, n) == BigEndian(y, n - 1) + [x % 0x100];
      HexAppend(BigEndian(y, n - 1), [x % 0x100]);
      HexLone(x % 0x100);
      assert x / 16 / 16 == y && x % 0x100 / 16 == x / 16 % 16 && x % 0x100 % 16 == x % 16;
      assert Fixed(x, 16, 2 * n) == Fixed(x / 16, 16, 2 * n - 1) + [x % 16];
      assert Fixed(x / 16, 16, 2 * n - 1) == Fixed(x / 16 / 16, 16, 2 * n - 2) + [x / 16 % 16];
    }
  }

  lemma HexLone(b: Byte)
    ensures HexBytes([b]) == [b / 16, b % 16]
  {
    assert [b][1..] == [];
    assert HexBytes([b][1..]) == [];
  }

  lemma HexOfWord(x: Word)
    ensures HexBytes(WordBytes(x)) == HexWord(x)
  {
    HexOfBigEndian(x, 4);
  }

  /** The bytes of the C digest, printed, are the words of the Python one, printed. */
  lemma HexOfDigest(r: Regs)
    ensures HexBytes(DigestBytes(r)) == HexRegs(r)
  {
    hide HexBytes, WordBytes, HexWord;
    HexOfWord(r.a); HexOfWord(r.b); HexOfWord(r.c); HexOfWord(r.d);
    HexOfWord(r.e); HexOfWord(r.f); HexOfWord(r.g); HexOfWord(r.h);
    var ab := WordBytes(r.a) + WordBytes(r.b);
    var abc := ab + WordBytes(r.c);
    var abcd := abc + WordBytes(r.d);
    var abcde := abcd + WordBytes(r.e);
    var abcdef := abcde + WordBytes(r.f);
    var abcdefg := abcdef + WordBytes(r.g);
    HexAppend(WordBytes(r.a), WordBytes(r.b));
    HexAppend(ab, WordBytes(r.c));
    HexAppend(abc, WordBytes(r.d));
    HexAppend(abcd, WordBytes(r.e));
    HexAppend(abcde, WordBytes(r.f));
    HexAppend(abcdef, WordBytes(r.g));
    HexAppend(abcdefg, WordBytes(r.h));
  }
}
