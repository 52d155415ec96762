/** The Python implementation: pad the whole message, then fold over its blocks,
    on unbounded integers that are masked to 32 bits. */
module Sha256OneShot {
  import opened Bits
  import opened Inverses
  import opened Sha256
  import opened Sha256Stream

  function RightRotate(value: nat, positions: nat): nat
    requires positions <= 32
  {
    Or(Shr(value, positions), And(Shl(value, 32 - positions), MASK))
  }

  lemma RightRotateIs(x: Word, n: nat)
    requires 0 < n < 32
    ensures RightRotate(x, n) == Rotr(x, n)
  {
    hide Or, And, Shr, Shl;
    MaskIsMod(Shl(x, 32 - n));
    RotateByShifts(x, n);
  }

  function ScheduleS0(x: nat): nat {
    Xor(Xor(RightRotate(x, 7), RightRotate(x, 18)), Shr(x, 3))
  }

  function ScheduleS1(x: nat): nat {
    Xor(Xor(RightRotate(x, 17), RightRotate(x, 19)), Shr(x, 10))
  }

  function RoundS1(e: nat): nat {
    Xor(Xor(RightRotate(e, 6), RightRotate(e, 11)), RightRotate(e, 25))
  }

  function RoundS0(a: nat): nat {
    Xor(Xor(RightRotate(a, 2), RightRotate(a, 13)), RightRotate(a, 22))
  }

  /** `(e & f) ^ (~e & g)`, the complement being negative. */
  function Choose(e: nat, f: nat, g: nat): nat {
    Xor(And(e, f), And(-1 - e, g))
  }

  function Majority(a: nat, b: nat, c: nat): nat {
    Xor(Xor(And(a, b), And(a, c)), And(b, c))
  }

  lemma ScheduleSigmas(x: Word)
    ensures ScheduleS0(x) == SmallSigma0(x) && ScheduleS1(x) == SmallSigma1(x)
  {
    hide RightRotate, Xor, Rotr, Shr;
    RightRotateIs(x, 7);
    RightRotateIs(x, 18);
    RightRotateIs(x, 17);
    RightRotateIs(x, 19);
  }

  lemma RoundSigmas(x: Word)
    ensures RoundS0(x) == BigSigma0(x) && RoundS1(x) == BigSigma1(x)
  {
    hide RightRotate, Xor, Rotr;
    RightRotateIs(x, 2);
    RightRotateIs(x, 13);
    RightRotateIs(x, 22);
    RightRotateIs(x, 6);
    RightRotateIs(x, 11);
    RightRotateIs(x, 25);
  }

  lemma ChooseIs(e: Word, f: Word, g: Word)
    ensures Choose(e, f, g) == Ch(e, f, g)
  {
    hide Xor, And;
    ComplementSelects(e, g);
  }

  lemma MajorityIs(a: Word, b: Word, c: Word)
    ensures Majority(a, b, c) == Maj(a, b, c)
  {
    hide Xor, And;
  }

  lemma ScheduleStep(block: seq<Byte>, t: nat)
    requires |block| == 64 && 16 <= t < 64
    ensures Schedule(block, t) == And(Schedule(block, t - 16) + ScheduleS0(Schedule(block, t - 15))
                                      + Schedule(block, t - 7) + ScheduleS1(Schedule(block, t - 2)), MASK)
  {
    hide And, ScheduleS0, ScheduleS1, SmallSigma0, SmallSigma1, WordOf;
    ScheduleSigmas(Schedule(block, t - 15));
    ScheduleSigmas(Schedule(block, t - 2));
    MaskIsMod(Schedule(block, t - 16) + ScheduleS0(Schedule(block, t - 15))
              + Schedule(block, t - 7) + ScheduleS1(Schedule(block, t - 2)));
  }

  lemma RoundStep(r: Regs, k: Word, w: Word)
    ensures var t1 := And(r.h + RoundS1(r.e) + Choose(r.e, r.f, r.g) + k + w, MASK);
            var t2 := And(RoundS0(r.a) + Majority(r.a, r.b, r.c), MASK);
            && And(t1 + t2, MASK) < MODULUS && And(r.d + t1, MASK) < MODULUS
            && Round(r, k, w) == Regs(And(t1 + t2, MASK), r.a, r.b, r.c, And(r.d + t1, MASK), r.e, r.f, r.g)
  {
    hide And, RoundS0, RoundS1, BigSigma0, BigSigma1, Choose, Ch, Majority, Maj;
    RoundSigmas(r.e);
    RoundSigmas(r.a);
    ChooseIs(r.e, r.f, r.g);
    MajorityIs(r.a, r.b, r.c);
    MaskIsMod(r.h + RoundS1(r.e) + Choose(r.e, r.f, r.g) + k + w);
    MaskIsMod(RoundS0(r.a) + Majority(r.a, r.b, r.c));
    var t1 := And(r.h + RoundS1(r.e) + Choose(r.e, r.f, r.g) + k + w, MASK);
    var t2 := And(RoundS0(r.a) + Majority(r.a, r.b, r.c), MASK);
    MaskIsMod(t1 + t2);
    MaskIsMod(r.d + t1);
  }

  lemma MaskedPlus(x: Word, y: Word)
    ensures And(x + y, MASK) == Plus(x, y)
  {
    hide And;
    MaskIsMod(x + y);
  }

  /** One pass of the outer loop. */
  method ProcessChunk(start: Regs, chunk: seq<Byte>) returns (r: Regs)
    requires |chunk| == 64
    ensures r == Compress(start, chunk)
  {
    hide *;
    KLength();
    var w := new Word[64](_ => 0);
    for j := 0 to 16
      invariant forall n :: 0 <= n < j ==> w[n] == Schedule(chunk, n)
    {
      w[j] := WordOf(chunk[4 * j], chunk[4 * j + 1], chunk[4 * j + 2], chunk[4 * j + 3]);
      ScheduleWord(chunk, j);
    }
    for j := 16 to 64
      invariant forall n :: 0 <= n < j ==> w[n] == Schedule(chunk, n)
    {
      ScheduleStep(chunk, j);
      var s0, s1 := ScheduleS0(w[j - 15]), ScheduleS1(w[j - 2]);
      w[j] := And(w[j - 16] + s0 + w[j - 7] + s1, MASK);
    }
    var a: Word, b: Word, c: Word, d: Word := start.a, start.b, start.c, start.d;
    var e: Word, f: Word, g: Word, h: Word := start.e, start.f, start.g, start.h;
    RoundsStart(start, chunk);
    for j := 0 to 64
      invariant forall n :: 0 <= n < 64 ==> w[n] == Schedule(chunk, n)
      invariant Regs(a, b, c, d, e, f, g, h) == Rounds(start, chunk, j)
    {
      RoundsNext(start, chunk, j);
      RoundStep(Regs(a, b, c, d, e, f, g, h), K[j], w[j]);
      var s1 := RoundS1(e);
      var ch := Choose(e, f, g);
      var temp1 := And(h + s1 + ch + K[j] + w[j], MASK);
      var s0 := RoundS0(a);
      var maj := Majority(a, b, c);
      var temp2 := And(s0 + maj, MASK);
      h := g;
      g := f;
      f := e;
      e := And(d + temp1, MASK);
      d := c;
      c := b;
      b := a;
      a := And(temp1 + temp2, MASK);
    }
    MaskedPlus(start.a, a); MaskedPlus(start.b, b); MaskedPlus(start.c, c); MaskedPlus(start.d, d);
    MaskedPlus(start.e, e); MaskedPlus(start.f, f); MaskedPlus(start.g, g); MaskedPlus(start.h, h);
    r := Regs(And(start.a + a, MASK), And(start.b + b, MASK), And(start.c + c, MASK), And(start.d + d, MASK),
              And(start.e + e, MASK), And(start.f + f, MASK), And(start.g + g, MASK), And(start.h + h, MASK));
    CompressOf(start, chunk, Regs(a, b, c, d, e, f, g, h));
  }

  lemma ScheduleWord(block: seq<Byte>, t: nat)
    requires |block| == 64 && t < 16
    ensures Schedule(block, t) == WordOf(block[4 * t], block[4 * t + 1], block[4 * t + 2], block[4 * t + 3])
  {}

  lemma CompressOf(s: Regs, block: seq<Byte>, r: Regs)
    requires |block| == 64 && r == Rounds(s, block, 64)
    ensures Compress(s, block)
         == Regs(Plus(s.a, r.a), Plus(s.b, r.b), Plus(s.c, r.c), Plus(s.d, r.d),
                 Plus(s.e, r.e), Plus(s.f, r.f), Plus(s.g, r.g), Plus(s.h, r.h))
  {
    hide Rounds, Plus;
  }

  /** Pads with the marker and as many zeros as the loop appends. */
  method AppendPadding(message: seq<Byte>) returns (padded: seq<Byte>)
    ensures padded == message + [0x80] + Zeros(ZeroCount(|message|))
  {
    padded := message + [0x80];
    ghost var n := 0;
    while |padded| * 8 % 512 != 448
      invariant n <= ZeroCount(|message|)
      invariant padded == message + [0x80] + Zeros(n)
      decreases ZeroCount(|message|) - n
    {
      StillShort(|message|, n);
      padded := padded + [0x00];
      n := n + 1;
    }
    JustEnough(|message|, n);
  }

  lemma StillShort(len: nat, n: nat)
    requires n <= ZeroCount(len) && (len + 1 + n) * 8 % 512 != 448
    ensures n < ZeroCount(len)
  {}

  lemma JustEnough(len: nat, n: nat)
    requires n <= ZeroCount(len) && (len + 1 + n) * 8 % 512 == 448
    ensures n == ZeroCount(len)
  {}

  /** The digest, or the error that packing a length of 2^64 bits or more raises. */
  method Sha256Py(message: seq<Byte>) returns (digest: Option<seq<nat>>)
    ensures digest == if |message| < 0x2000_0000_0000_0000
                      then Some(HexRegs(HashBlocks(IV, Pad(message)))) else None
  {
    hide Compress, HashBlocks, HexRegs, ZeroCount, BigEndian;
    var bitLength := |message| * 8;
    var padded := AppendPadding(message);
    if bitLength >= SIZE_LIMIT {
      return None;
    }
    padded := padded + BigEndian(bitLength, 8);
    PadLength(message);
    var r := IV;
    var i := 0;
    StartFold(padded);
    while i < |padded|
      invariant 0 <= i <= |padded| && i % 64 == 0
      invariant r == HashBlocks(IV, padded[..i])
    {
      assert i + 64 <= |padded| by { NextBlock(i, |padded|); }
      FoldStep(padded, i);
      r := ProcessChunk(r, padded[i..i + 64]);
      i := i + 64;
    }
    assert padded[..i] == padded;
    return Some(HexRegs(r));
  }

  lemma NextBlock(i: nat, n: nat)
    requires i % 64 == 0 && n % 64 == 0 && i < n
    ensures i + 64 <= n
  {}

  lemma StartFold(bytes: seq<Byte>)
    ensures HashBlocks(IV, bytes[..0]) == IV
  {
    hide Compress;
  }

  lemma FoldStep(bytes: seq<Byte>, i: nat)
    requires i % 64 == 0 && i + 64 <= |bytes|
    ensures HashBlocks(IV, bytes[..i + 64]) == Compress(HashBlocks(IV, bytes[..i]), bytes[i..i + 64])
  {
    hide Compress, HashBlocks;
    assert bytes[..i + 64] == bytes[..i] + bytes[i..i + 64];
    HashBlocksAppend(IV, bytes[..i], bytes[i..i + 64]);
    HashOneBlock(HashBlocks(IV, bytes[..i]), bytes[i..i + 64]);
  }

  /** Streaming refines one-shot: what the C program prints is what the Python
      function answers, for every message whose bit length fits in 64 bits. */
  method BothAgree(message: seq<Byte>) returns (hash: array<Byte>, digest: Option<seq<nat>>)
    ensures hash.Length == 32
    ensures |message| < 0x2000_0000_0000_0000 ==> digest == Some(HexBytes(hash[..]))
    ensures |message| >= 0x2000_0000_0000_0000 ==> digest == None
  {
    hide Compress, HashBlocks, HexRegs, HexBytes, DigestBytes, PadWith;
    hash := new Byte[32](_ => 0);
    Sha256C(message, hash);
    digest := Sha256Py(message);
    HexOfDigest(HashBlocks(IV, Pad(message)));
    assert |message| < 0x2000_0000_0000_0000 ==> 8 * |message| % SIZE_LIMIT == 8 * |message|;
  }
}
