/** The C implementation: a 64-byte buffer, a bit counter and a running state that
    are updated in place, padded in place at the end. */
module Sha256Stream {
  import opened NumberTheory
  import opened Bits
  import opened Digits
  import opened Sha256

  /** `size_t` has 64 bits. */
  const SIZE_LIMIT: nat := 0x1_0000_0000_0000_0000

  // ----- The macros

  function RotRight(a: Word, b: nat): (r: Word)
    requires 0 < b < 32
    ensures r == Rotr(a, b)
  {
    RotateByShifts(a, b);
    Or(Shr(a, b), Shl(a, 32 - b) % MODULUS)
  }

  function EP0(x: Word): (r: Word)
    ensures r == BigSigma0(x)
  {
    XorWord(XorWord(RotRight(x, 2), RotRight(x, 13)), RotRight(x, 22))
  }

  function EP1(x: Word): (r: Word)
    ensures r == BigSigma1(x)
  {
    XorWord(XorWord(RotRight(x, 6), RotRight(x, 11)), RotRight(x, 25))
  }

  function SIG0(x: Word): (r: Word)
    ensures r == SmallSigma0(x)
  {
    XorWord(XorWord(RotRight(x, 7), RotRight(x, 18)), ShrWord(x, 3))
  }

  function SIG1(x: Word): (r: Word)
    ensures r == SmallSigma1(x)
  {
    XorWord(XorWord(RotRight(x, 17), RotRight(x, 19)), ShrWord(x, 10))
  }

  /** Four bytes joined with shifts and or. */
  function Load(b0: Byte, b1: Byte, b2: Byte, b3: Byte): (w: Word)
    ensures w == WordOf(b0, b1, b2, b3)
  {
    LoadIsSum(b0, b1, b2, b3);
    Or(Or(Or(Shl(b0, 24), Shl(b1, 16)), Shl(b2, 8)), b3)
  }

  lemma LoadIsSum(b0: Byte, b1: Byte, b2: Byte, b3: Byte)
    ensures Or(Or(Or(Shl(b0, 24), Shl(b1, 16)), Shl(b2, 8)), b3) == WordOf(b0, b1, b2, b3)
  {
    hide Or, TwoPow;
    WordSize();
    OrDisjoint(b0, b1 * 0x1_0000, 24);
    OrDisjoint(b0 * 0x100 + b1, b2 * 0x100, 16);
    OrDisjoint(b0 * 0x1_0000 + b1 * 0x100 + b2, b3, 8);
  }

  /** Wrapping after every addition or once at the end. */
  lemma WrapOnce(a: Word, b: Word, c: Word, d: Word, e: Word)
    ensures Plus(Plus(Plus(a, b), c), d) == (a + b + c + d) % MODULUS
    ensures Plus(Plus(Plus(Plus(a, b), c), d), e) == (a + b + c + d + e) % MODULUS
  {
    WrapStep(a + b, c);
    WrapStep(a + b + c, d);
    WrapStep(a + b + c + d, e);
  }

  lemma WrapStep(x: nat, y: nat)
    ensures (x % MODULUS + y) % MODULUS == (x + y) % MODULUS
  {}

  function RegsOf(s: seq<Word>): Regs
    requires |s| == 8
  {
    Regs(s[0], s[1], s[2], s[3], s[4], s[5], s[6], s[7])
  }

  lemma ScheduleNext(block: seq<Byte>, t: nat)
    requires |block| == 64 && 16 <= t < 64
    ensures Schedule(block, t) == Plus(Plus(Plus(SIG1(Schedule(block, t - 2)), Schedule(block, t - 7)),
                                            SIG0(Schedule(block, t - 15))), Schedule(block, t - 16))
  {
    hide SIG0, SIG1, SmallSigma0, SmallSigma1, Plus, WordOf;
    WrapOnce(SIG1(Schedule(block, t - 2)), Schedule(block, t - 7),
             SIG0(Schedule(block, t - 15)), Schedule(block, t - 16), 0);
  }

  lemma RoundNext(r: Regs, k: Word, w: Word)
    ensures var t1 := Plus(Plus(Plus(Plus(r.h, EP1(r.e)), Ch(r.e, r.f, r.g)), k), w);
            var t2 := Plus(EP0(r.a), Maj(r.a, r.b, r.c));
            Round(r, k, w) == Regs(Plus(t1, t2), r.a, r.b, r.c, Plus(r.d, t1), r.e, r.f, r.g)
  {
    hide EP0, EP1, BigSigma0, BigSigma1, Ch, Maj;
    WrapOnce(r.h, EP1(r.e), Ch(r.e, r.f, r.g), k, w);
  }

  method Transform(state: array<Word>, data: array<Byte>)
    requires state.Length == 8 && data.Length >= 64
    modifies state
    ensures RegsOf(state[..]) == Compress(old(RegsOf(state[..])), old(data[..64]))
  {
    hide *;
    KLength();
    ghost var block := data[..64];
    var m := new Word[64](_ => 0);
    for i := 0 to 16
      invariant data[..64] == block && state[..] == old(state[..])
      invariant forall j :: 0 <= j < i ==> m[j] == Schedule(block, j)
    {
      m[i] := Load(data[i * 4], data[i * 4 + 1], data[i * 4 + 2], data[i * 4 + 3]);
      ScheduleFirst(block, i);
      assert data[i * 4] == block[4 * i] && data[i * 4 + 1] == block[4 * i + 1];
      assert data[i * 4 + 2] == block[4 * i + 2] && data[i * 4 + 3] == block[4 * i + 3];
    }
    for i := 16 to 64
      invariant state[..] == old(state[..])
      invariant forall j :: 0 <= j < i ==> m[j] == Schedule(block, j)
    {
      ScheduleNext(block, i);
      m[i] := Plus(Plus(Plus(SIG1(m[i - 2]), m[i - 7]), SIG0(m[i - 15])), m[i - 16]);
    }
    var a, b, c, d := state[0], state[1], state[2], state[3];
    var e, f, g, h := state[4], state[5], state[6], state[7];
    ghost var start := RegsOf(state[..]);
    RegsAre(state[..]);
    RoundsStart(start, block);
    for i := 0 to 64
      invariant state[..] == old(state[..])
      invariant forall j :: 0 <= j < 64 ==> m[j] == Schedule(block, j)
      invariant Regs(a, b, c, d, e, f, g, h) == Rounds(start, block, i)
    {
      RoundsNext(start, block, i);
      RoundNext(Regs(a, b, c, d, e, f, g, h), K[i], m[i]);
      var t1 := Plus(Plus(Plus(Plus(h, EP1(e)), Ch(e, f, g)), K[i]), m[i]);
      var t2 := Plus(EP0(a), Maj(a, b, c));
      h := g;
      g := f;
      f := e;
      e := Plus(d, t1);
      d := c;
      c := b;
      b := a;
      a := Plus(t1, t2);
    }
    ghost var was := state[..];
    state[0] := Plus(state[0], a);
    state[1] := Plus(state[1], b);
    state[2] := Plus(state[2], c);
    state[3] := Plus(state[3], d);
    state[4] := Plus(state[4], e);
    state[5] := Plus(state[5], f);
    state[6] := Plus(state[6], g);
    state[7] := Plus(state[7], h);
    CompressIs(was, block, Regs(a, b, c, d, e, f, g, h));
    RegsAre(state[..]);
  }

  lemma ScheduleFirst(block: seq<Byte>, t: nat)
    requires |block| == 64 && t < 16
    ensures Schedule(block, t) == Load(block[4 * t], block[4 * t + 1], block[4 * t + 2], block[4 * t + 3])
  {
    hide Load;
  }

  lemma RoundsStart(r: Regs, block: seq<Byte>)
    requires |block| == 64
    ensures Rounds(r, block, 0) == r
  {}

  lemma RoundsNext(r: Regs, block: seq<Byte>, t: nat)
    requires |block| == 64 && t < 64
    ensures |K| == 64 && Rounds(r, block, t + 1) == Round(Rounds(r, block, t), K[t], Schedule(block, t))
  {
    hide Round, Schedule;
    KLength();
  }

  lemma RegsAre(s: seq<Word>)
    requires |s| == 8
    ensures RegsOf(s) == Regs(s[0], s[1], s[2], s[3], s[4], s[5], s[6], s[7])
  {}

  lemma CompressIs(was: seq<Word>, block: seq<Byte>, r: Regs)
    requires |was| == 8 && |block| == 64 && r == Rounds(RegsOf(was), block, 64)
    ensures Compress(RegsOf(was), block)
         == Regs(Plus(was[0], r.a), Plus(was[1], r.b), Plus(was[2], r.c), Plus(was[3], r.d),
                 Plus(was[4], r.e), Plus(was[5], r.f), Plus(was[6], r.g), Plus(was[7], r.h))
  {
    hide Rounds, Plus;
  }

  // ----- What a context has absorbed

  /** The bytes in whole blocks, and the rest. */
  function FullLength(n: nat): (f: nat)
    ensures f <= n && f % 64 == 0 && n - f == n % 64
  {
    n - n % 64
  }

  ghost function Chained(bytes: seq<Byte>): Regs {
    HashBlocks(IV, bytes[..FullLength(|bytes|)])
  }

  ghost function Tail(bytes: seq<Byte>): (t: seq<Byte>)
    ensures |t| == |bytes| % 64
  {
    bytes[FullLength(|bytes|)..]
  }

  lemma AbsorbInside(bytes: seq<Byte>, b: Byte)
    requires |bytes| % 64 < 63
    ensures Chained(bytes + [b]) == Chained(bytes) && Tail(bytes + [b]) == Tail(bytes) + [b]
  {
    hide HashBlocks;
    var f := FullLength(|bytes|);
    assert FullLength(|bytes| + 1) == f;
    assert (bytes + [b])[..f] == bytes[..f];
    assert (bytes + [b])[f..] == bytes[f..] + [b];
  }

  lemma AbsorbFull(bytes: seq<Byte>, b: Byte)
    requires |bytes| % 64 == 63
    ensures Chained(bytes + [b]) == Compress(Chained(bytes), Tail(bytes) + [b]) && Tail(bytes + [b]) == []
  {
    hide HashBlocks, Compress;
    var f := FullLength(|bytes|);
    var all := bytes + [b];
    assert FullLength(|all|) == |all|;
    assert all[..|all|] == bytes[..f] + (bytes[f..] + [b]);
    HashBlocksAppend(IV, bytes[..f], bytes[f..] + [b]);
    HashOneBlock(Chained(bytes), Tail(bytes) + [b]);
  }

  /** The last block, when the rest leaves room for the length. */
  lemma FinalShort(bytes: seq<Byte>, bits: nat)
    requires |bytes| % 64 < 56
    ensures var block := Tail(bytes) + [0x80] + Zeros(55 - |bytes| % 64) + BigEndian(bits, 8);
            HashBlocks(IV, PadWith(bytes, bits)) == Compress(Chained(bytes), block)
  {
    hide HashBlocks, Compress, BigEndian, Zeros, ZeroCount;
    var n := |bytes| % 64;
    var f := FullLength(|bytes|);
    assert ZeroCount(|bytes|) == 55 - n by { ZeroCountIs(|bytes|); }
    var block := Tail(bytes) + [0x80] + Zeros(55 - n) + BigEndian(bits, 8);
    assert PadWith(bytes, bits) == bytes[..f] + block by { assert bytes == bytes[..f] + Tail(bytes); }
    HashBlocksAppend(IV, bytes[..f], block);
    HashOneBlock(Chained(bytes), block);
  }

  /** The last two blocks, when it does not. */
  lemma FinalLong(bytes: seq<Byte>, bits: nat)
    requires 56 <= |bytes| % 64
    ensures var first := Tail(bytes) + [0x80] + Zeros(63 - |bytes| % 64);
            var last := Zeros(56) + BigEndian(bits, 8);
            HashBlocks(IV, PadWith(bytes, bits)) == Compress(Compress(Chained(bytes), first), last)
  {
    hide HashBlocks, Compress, BigEndian, Zeros, ZeroCount;
    var n := |bytes| % 64;
    var f := FullLength(|bytes|);
    assert ZeroCount(|bytes|) == 119 - n by { ZeroCountIs(|bytes|); }
    var first, last := Tail(bytes) + [0x80] + Zeros(63 - n), Zeros(56) + BigEndian(bits, 8);
    assert Zeros(119 - n) == Zeros(63 - n) + Zeros(56);
    assert PadWith(bytes, bits) == bytes[..f] + (first + last) by { assert bytes == bytes[..f] + Tail(bytes); }
    HashBlocksAppend(IV, bytes[..f], first + last);
    HashBlocksAppend(Chained(bytes), first, last);
    HashOneBlock(Chained(bytes), first);
    HashOneBlock(Compress(Chained(bytes), first), last);
  }

  lemma ZeroCountIs(len: nat)
    ensures ZeroCount(len) == if len % 64 < 56 then 55 - len % 64 else 119 - len % 64
  {}

  /** A shifted and masked byte of a counter is a byte of its big-endian form. */
  lemma ByteAt(x: nat, n: nat, i: nat)
    requires i < n
    ensures And(Shr(x, 8 * (n - 1 - i)), 0xFF) == Shr(x, 8 * (n - 1 - i)) % 0x100 == BigEndian(x, n)[i]
  {
    hide And;
    var k := n - 1 - i;
    AndMask(Shr(x, 8 * k), 8);
    ByteSize();
    BytePowers(k);
    FixedAt(x, 0x100, n, i, Pow(0x100, k));
  }

  lemma {:induction false} BytePowers(k: nat)
    ensures Pow(0x100, k) == TwoPow(8 * k)
    decreases k
  {
    if k != 0 {
      BytePowers(k - 1);
      TwoPowAdd(8, 8 * (k - 1));
      ByteSize();
    }
  }

  class Context {
    const state: array<Word>
    const buffer: array<Byte>
    var bitlen: nat
    var datalen: nat
    ghost var absorbed: seq<Byte>

    /** The fields hold exactly what was absorbed, whatever the pieces it came in. */
    ghost predicate Valid()
      reads this, state, buffer
    {
      && state.Length == 8 && buffer.Length == 64 && state as object != buffer
      && datalen == |absorbed| % 64
      && bitlen == 8 * FullLength(|absorbed|) % SIZE_LIMIT
      && buffer[..datalen] == Tail(absorbed)
      && RegsOf(state[..]) == Chained(absorbed)
    }

    constructor ()
      ensures Valid() && absorbed == [] && fresh(state) && fresh(buffer)
    {
      state := new Word[8](_ => 0);
      buffer := new Byte[64](_ => 0);
      bitlen, datalen := 0, 0;
      absorbed := [];
      new;
      var h: seq<Word> := [IV.a, IV.b, IV.c, IV.d, IV.e, IV.f, IV.g, IV.h];
      for i := 0 to 8
        invariant forall j :: 0 <= j < i ==> state[j] == h[j]
        invariant bitlen == datalen == 0 && absorbed == []
      {
        state[i] := h[i];
      }
      assert state[..] == h;
    }

    method Update(data: seq<Byte>)
      requires Valid()
      modifies this, state, buffer
      ensures Valid() && absorbed == old(absorbed) + data
    {
      hide Compress, Chained, Tail, RegsOf;
      assert old(absorbed) + data[..0] == old(absorbed);
      for i := 0 to |data|
        invariant Valid() && absorbed == old(absorbed) + data[..i]
      {
        assert data[..i + 1] == data[..i] + [data[i]];
        AbsorbByte(data[i]);
      }
      assert data[..|data|] == data;
    }

    /** The body of the update loop. */
    method AbsorbByte(b: Byte)
      requires Valid()
      modifies this, state, buffer
      ensures Valid() && absorbed == old(absorbed) + [b]
    {
      hide Compress, Chained, Tail, RegsOf;
      ghost var was := absorbed;
      buffer[datalen] := b;
      datalen := datalen + 1;
      assert buffer[..datalen] == Tail(was) + [b];
      absorbed := absorbed + [b];
      if datalen == 64 {
        AbsorbFull(was, b);
        assert buffer[..64] == Tail(was) + [b];
        Transform(state, buffer);
        CounterStep(was);
        bitlen := (bitlen + 512) % SIZE_LIMIT;
        datalen := 0;
      } else {
        AbsorbInside(was, b);
      }
    }

    /** Pads in place and writes the digest out. The counter wraps at 2^64 bits. */
    method Final(hash: array<Byte>)
      requires Valid() && hash.Length == 32 && hash != buffer && hash as object != state
      modifies this, state, buffer, hash
      ensures absorbed == old(absorbed) && datalen == old(datalen)
      ensures bitlen == 8 * |absorbed| % 0x1_0000_0000_0000_0000
      ensures RegsOf(state[..]) == HashBlocks(IV, PadWith(absorbed, bitlen))
      ensures hash[..] == DigestBytes(RegsOf(state[..]))
    {
      hide Compress, Chained, Tail, RegsOf, HashBlocks, PadWith, DigestBytes, BigEndian, FullLength, Zeros;
      PadTail();
      FinalCounter(absorbed);
      bitlen := (bitlen + datalen * 8) % SIZE_LIMIT;
      WriteLength();
      assert buffer[..64] == buffer[..56] + buffer[56..];
      if datalen < 56 {
        FinalShort(absorbed, bitlen);
      } else {
        FinalLong(absorbed, bitlen);
      }
      Transform(state, buffer);
      WriteDigest(hash);
    }

    /** The two-case tail: the marker and zeros, and one more block when the length
        does not fit. */
    method PadTail()
      requires Valid()
      modifies state, buffer
      ensures datalen < 56 ==> RegsOf(state[..]) == Chained(absorbed)
      ensures datalen < 56 ==> buffer[..56] == Tail(absorbed) + [0x80] + Zeros(55 - datalen)
      ensures 56 <= datalen ==>
                RegsOf(state[..]) == Compress(Chained(absorbed), Tail(absorbed) + [0x80] + Zeros(63 - datalen))
      ensures 56 <= datalen ==> buffer[..56] == Zeros(56)
    {
      hide Compress, Chained, Tail, RegsOf;
      var i := datalen;
      ghost var rest := Tail(absorbed);
      buffer[i] := 0x80;
      i := i + 1;
      if datalen < 56 {
        FillZeros(i, 56);
        assert buffer[..56] == rest + [0x80] + Zeros(55 - datalen);
      } else {
        FillZeros(i, 64);
        assert buffer[..64] == rest + [0x80] + Zeros(63 - datalen);
        Transform(state, buffer);
        FillZeros(0, 56);
      }
    }

    /** `while (i < limit) buffer[i++] = 0x00`, and `memset` from the start. */
    method FillZeros(start: nat, limit: nat)
      requires buffer.Length == 64 && start <= limit <= 64 && state as object != buffer
      modifies buffer
      ensures buffer[..start] == old(buffer[..start]) && buffer[start..limit] == Zeros(limit - start)
      ensures state[..] == old(state[..])
    {
      var i := start;
      while i < limit
        invariant start <= i <= limit
        invariant state[..] == old(state[..])
        invariant buffer[..start] == old(buffer[..start])
        invariant forall j :: start <= j < i ==> buffer[j] == 0
      {
        buffer[i] := 0x00;
        i := i + 1;
      }
    }

    /** The eight stores of the bit counter. */
    method WriteLength()
      requires buffer.Length == 64 && state as object != buffer
      modifies buffer
      ensures buffer[..56] == old(buffer[..56]) && buffer[56..] == BigEndian(bitlen, 8)
      ensures state[..] == old(state[..])
    {
      hide BigEndian, Shr;
      var n := bitlen;
      LengthBytes(n);
      buffer[63] := Shr(n, 0) % 0x100;
      buffer[62] := Shr(n, 8) % 0x100;
      buffer[61] := Shr(n, 16) % 0x100;
      buffer[60] := Shr(n, 24) % 0x100;
      buffer[59] := Shr(n, 32) % 0x100;
      buffer[58] := Shr(n, 40) % 0x100;
      buffer[57] := Shr(n, 48) % 0x100;
      buffer[56] := Shr(n, 56) % 0x100;
      assert buffer[56..] == [buffer[56], buffer[57], buffer[58], buffer[59],
                              buffer[60], buffer[61], buffer[62], buffer[63]];
    }

    method WriteDigest(hash: array<Byte>)
      requires state.Length == 8 && hash.Length == 32 && hash as object != state
      modifies hash
      ensures state[..] == old(state[..])
      ensures hash[..] == DigestBytes(RegsOf(state[..]))
    {
      hide DigestBytes, RegsOf;
      ghost var target := DigestBytes(RegsOf(state[..]));
      for i := 0 to 4
        invariant state[..] == old(state[..])
        invariant forall n :: 0 <= n < 32 && n % 4 < i ==> hash[n] == target[n]
      {
        WriteColumn(hash, i, target);
      }
    }

    /** The body of the output loop: byte i of every word. */
    method WriteColumn(hash: array<Byte>, i: nat, ghost target: seq<Byte>)
      requires state.Length == 8 && hash.Length == 32 && hash as object != state && i < 4
      requires target == DigestBytes(RegsOf(state[..]))
      modifies hash
      ensures state[..] == old(state[..])
      ensures forall n :: 0 <= n < 32 ==> hash[n] == if n % 4 == i then target[n] else old(hash[n])
    {
      hide DigestBytes, RegsOf, Shr, And;
      var s, k := state[..], 24 - i * 8;
      DigestColumn(s, i);
      hash[i] := And(Shr(s[0], k), 0xFF);
      hash[i + 4] := And(Shr(s[1], k), 0xFF);
      hash[i + 8] := And(Shr(s[2], k), 0xFF);
      hash[i + 12] := And(Shr(s[3], k), 0xFF);
      hash[i + 16] := And(Shr(s[4], k), 0xFF);
      hash[i + 20] := And(Shr(s[5], k), 0xFF);
      hash[i + 24] := And(Shr(s[6], k), 0xFF);
      hash[i + 28] := And(Shr(s[7], k), 0xFF);
    }
  }

  lemma LengthBytes(n: nat)
    ensures BigEndian(n, 8) == [Shr(n, 56) % 0x100, Shr(n, 48) % 0x100, Shr(n, 40) % 0x100, Shr(n, 32) % 0x100,
                                Shr(n, 24) % 0x100, Shr(n, 16) % 0x100, Shr(n, 8) % 0x100, Shr(n, 0) % 0x100]
  {
    hide BigEndian, Shr, And;
    ByteAt(n, 8, 0); ByteAt(n, 8, 1); ByteAt(n, 8, 2); ByteAt(n, 8, 3);
    ByteAt(n, 8, 4); ByteAt(n, 8, 5); ByteAt(n, 8, 6); ByteAt(n, 8, 7);
  }

  /** Byte i of every word of the digest. */
  lemma DigestColumn(s: seq<Word>, i: nat)
    requires |s| == 8 && i < 4
    ensures var d, k := DigestBytes(RegsOf(s)), 24 - i * 8;
            && d[i] == And(Shr(s[0], k), 0xFF) && d[i + 4] == And(Shr(s[1], k), 0xFF)
            && d[i + 8] == And(Shr(s[2], k), 0xFF) && d[i + 12] == And(Shr(s[3], k), 0xFF)
            && d[i + 16] == And(Shr(s[4], k), 0xFF) && d[i + 20] == And(Shr(s[5], k), 0xFF)
            && d[i + 24] == And(Shr(s[6], k), 0xFF) && d[i + 28] == And(Shr(s[7], k), 0xFF)
  {
    hide BigEndian, Shr, And;
    ByteAt(s[0], 4, i); ByteAt(s[1], 4, i); ByteAt(s[2], 4, i); ByteAt(s[3], 4, i);
    ByteAt(s[4], 4, i); ByteAt(s[5], 4, i); ByteAt(s[6], 4, i); ByteAt(s[7], 4, i);
  }

  lemma FinalCounter(bytes: seq<Byte>)
    ensures (8 * FullLength(|bytes|) % SIZE_LIMIT + |bytes| % 64 * 8) % SIZE_LIMIT == 8 * |bytes| % SIZE_LIMIT
  {
    SizeWrap(8 * FullLength(|bytes|), |bytes| % 64 * 8);
  }

  /** Any two ways of feeding the same bytes leave the same state, counters and
      live part of the buffer. */
  lemma ChunkingIrrelevant(x: Context, y: Context)
    requires x.Valid() && y.Valid() && x.absorbed == y.absorbed
    ensures x.state[..] == y.state[..] && x.bitlen == y.bitlen && x.datalen == y.datalen
    ensures x.datalen < 64 && x.buffer[..x.datalen] == y.buffer[..y.datalen]
  {
    hide Chained, Tail;
    RegsAre(x.state[..]);
    RegsAre(y.state[..]);
  }

  /** The one-call form, on a caller's buffer. */
  method Sha256C(data: seq<Byte>, hash: array<Byte>)
    requires hash.Length == 32
    modifies hash
    ensures hash[..] == DigestBytes(HashBlocks(IV, PadWith(data, 8 * |data| % 0x1_0000_0000_0000_0000)))
  {
    hide DigestBytes, HashBlocks, PadWith;
    var ctx := new Context();
    ctx.Update(data);
    assert [] + data == data;
    ctx.Final(hash);
  }

  lemma CounterStep(bytes: seq<Byte>)
    requires |bytes| % 64 == 63
    ensures 8 * FullLength(|bytes| + 1) % SIZE_LIMIT == (8 * FullLength(|bytes|) % SIZE_LIMIT + 512) % SIZE_LIMIT
  {
    assert FullLength(|bytes| + 1) == FullLength(|bytes|) + 64;
    SizeWrap(8 * FullLength(|bytes|), 512);
  }

  lemma SizeWrap(x: nat, y: nat)
    ensures (x % SIZE_LIMIT + y) % SIZE_LIMIT == (x + y) % SIZE_LIMIT
  {}
}
