/** `stringToBigInt` and `bigIntToString`: text to number through hexadecimal. */
module RsaCodec {
  import opened Digits
  import opened Inverses

  type CodeUnit = c: nat | c < 0x10000
  type JsString = seq<CodeUnit>

  predicate IsPair(hi: nat, lo: nat) {
    0xD800 <= hi < 0xDC00 <= lo < 0xE000
  }

  /** `Array.from(str)` splits by code point; only the first unit of each is read. */
  function LeadingUnits(str: JsString): JsString {
    if str == [] then []
    else if |str| > 1 && IsPair(str[0], str[1]) then [str[0]] + LeadingUnits(str[2..])
    else [str[0]] + LeadingUnits(str[1..])
  }

  /** `toString(16).padStart(2, '0')` */
  function UnitHex(c: CodeUnit): seq<nat> {
    var ds := ToDigits(c, 16);
    if |ds| < 2 then [0] + ds else ds
  }

  function Hex(units: JsString): seq<nat> {
    if units == [] then [] else UnitHex(units[0]) + Hex(units[1..])
  }

  /** The empty text gives `BigInt("0x")`, which throws. */
  function StringToBigInt(str: JsString): Option<nat> {
    var hex := Hex(LeadingUnits(str));
    if hex == [] then None else Some(FromDigits(hex, 16))
  }

  /** The code units read off a numeral two digits at a time. */
  function Chunks(hex: seq<nat>): seq<nat> {
    if hex == [] then []
    else if |hex| == 1 then [hex[0]]
    else [hex[0] * 16 + hex[1]] + Chunks(hex[2..])
  }

  /** For a negative number the first two characters are the sign and a digit, whose
      value wraps to a code unit. */
  function BigIntToString(n: int): seq<nat> {
    if n >= 0 then Chunks(ToDigits(n, 16))
    else
      var ds := ToDigits(-n, 16);
      [Wrapped(ds[0])] + Chunks(ds[1..])
  }

  /** The code unit of a negative digit. */
  function Wrapped(digit: int): nat {
    -digit % 0x10000
  }

  /** Of a negative number the minus sign and the first digit d are read together as -d,
      the code unit 0x10000 - d, and the rest two digits at a time. */
  lemma NegativeText(n: int)
    requires 0 < n
    ensures var ds := ToDigits(n, 16);
            && 1 <= ds[0] < 16 && BigIntToString(-n)[0] == 0x10000 - ds[0]
            && BigIntToString(-n)[1..] == Chunks(ds[1..])
  {
    hide ToDigits, FromDigits;
    var ds := ToDigits(n, 16);
    ToDigitsAreDigits(n, 16);
    PrintParse(n, 16);
    ParsePrint(ds, 16);
    if ds[0] == 0 {
      LeadingZero(ds, 16);
      OnlyZero(ds);
    }
  }

  lemma OnlyZero(ds: seq<nat>)
    requires ds != [] && ds[0] == 0 && Strip(ds) == ds
    ensures FromDigits(ds, 16) == 0
  {
    assert |ds| == 1;
  }

  lemma {:induction false} ChunksAppend(a: seq<nat>, b: seq<nat>)
    requires |a| % 2 == 0
    ensures Chunks(a + b) == Chunks(a) + Chunks(b)
    decreases |a|
  {
    if a == [] {
      assert a + b == b;
    } else {
      var ab := a + b;
      assert ab[2..] == a[2..] + b && ab[0] == a[0] && ab[1] == a[1];
      ChunksHead(ab);
      ChunksHead(a);
      ChunksAppend(a[2..], b);
      hide Chunks;
    }
  }

  lemma ChunksHead(hex: seq<nat>)
    requires |hex| >= 2
    ensures Chunks(hex) == [hex[0] * 16 + hex[1]] + Chunks(hex[2..])
  {}

  /** `parseInt(slice, 16)` is the code unit of a slice. */
  lemma ChunkValue(slice: seq<nat>)
    requires 1 <= |slice| <= 2
    ensures Chunks(slice) == [FromDigits(slice, 16)]
  {
    var init := slice[..|slice| - 1];
    if |slice| == 1 {
      assert init == [];
    } else {
      assert init == [slice[0]] && init[..0] == [] && slice[2..] == [];
    }
  }

  method BigIntToStringLoop(n: int) returns (str: seq<nat>)
    ensures str == BigIntToString(n)
  {
    if n >= 0 {
      str := ReadChunks(ToDigits(n, 16));
    } else {
      var ds := ToDigits(-n, 16);
      var rest := ReadChunks(ds[1..]);
      str := [Wrapped(ds[0])] + rest;
    }
  }

  /** The slicing loop. */
  method ReadChunks(hex: seq<nat>) returns (str: seq<nat>)
    ensures str == Chunks(hex)
  {
    hide FromDigits;
    str := [];
    var i := 0;
    while i < |hex|
      invariant i % 2 == 0
      invariant 0 <= i <= |hex| + 1
      invariant i <= |hex| ==> str == Chunks(hex[..i])
      invariant i > |hex| ==> str == Chunks(hex)
    {
      var slice := if i + 2 <= |hex| then hex[i..i + 2] else hex[i..];
      ChunkValue(slice);
      ChunksAppend(hex[..i], slice);
      assert hex[..i] + slice == if i + 2 <= |hex| then hex[..i + 2] else hex;
      str := str + [FromDigits(slice, 16)];
      i := i + 2;
    }
    assert i == |hex| ==> hex[..i] == hex;
  }

  predicate IsLatin(str: JsString) {
    forall i :: 0 <= i < |str| ==> str[i] <= 0xFF
  }

  /** Exactly the texts that survive the trip through a number. */
  predicate Encodable(str: JsString) {
    str != [] && IsLatin(str) && (|str| == 1 || 0x10 <= str[0])
  }

  lemma {:induction false} LatinUnits(str: JsString)
    requires IsLatin(str)
    ensures LeadingUnits(str) == str
    decreases |str|
  {
    if str != [] {
      assert IsLatin(str[1..]);
      LatinUnits(str[1..]);
    }
  }

  lemma LatinUnitHex(c: CodeUnit)
    requires c <= 0xFF
    ensures UnitHex(c) == [c / 16, c % 16]
  {
    if c >= 16 {
      assert ToDigits(c / 16, 16) == [c / 16];
    }
  }

  lemma {:induction false} LatinHex(str: JsString)
    requires IsLatin(str)
    ensures AreDigits(Hex(str), 16) && |Hex(str)| == 2 * |str| && Chunks(Hex(str)) == str
    ensures str != [] ==> Hex(str)[0] == str[0] / 16 && Hex(str)[1] == str[0] % 16
    decreases |str|
  {
    if str != [] {
      assert IsLatin(str[1..]);
      LatinHex(str[1..]);
      LatinUnitHex(str[0]);
      var hex := Hex(str);
      assert hex == [str[0] / 16, str[0] % 16] + Hex(str[1..]);
      assert hex[2..] == Hex(str[1..]);
      assert str == [str[0]] + str[1..];
    }
  }

  lemma {:induction false} ChunksShape(hex: seq<nat>)
    requires AreDigits(hex, 16)
    ensures |Chunks(hex)| == (|hex| + 1) / 2
    ensures forall i :: 0 <= i < |Chunks(hex)| ==> Chunks(hex)[i] <= 0xFF
    decreases |hex|
  {
    if |hex| >= 2 {
      ChunksShape(hex[2..]);
    }
  }

  lemma {:induction false} UnitsNonempty(str: JsString)
    requires str != []
    ensures Hex(LeadingUnits(str)) != []
  {
    var u := LeadingUnits(str);
    assert u != [];
  }

  /** The trip returns the text exactly when it is encodable. */
  lemma RoundTrip(str: JsString)
    ensures StringToBigInt(str).None? <==> str == []
    ensures str != [] ==> (BigIntToString(StringToBigInt(str).value) == str <==> Encodable(str))
  {
    if str != [] {
      UnitsNonempty(str);
      var n := StringToBigInt(str).value;
      ToDigitsAreDigits(n, 16);
      ChunksShape(ToDigits(n, 16));
      if IsLatin(str) {
        LatinUnits(str);
        LatinHex(str);
        ParsePrint(Hex(str), 16);
        LatinRoundTrip(str);
      } else {
        var i :| 0 <= i < |str| && str[i] > 0xFF;
        var back := BigIntToString(n);
        assert i < |back| ==> back[i] != str[i];
      }
    }
  }

  lemma LatinRoundTrip(str: JsString)
    requires str != [] && IsLatin(str)
    ensures Chunks(Strip(Hex(str))) == str <==> |str| == 1 || 0x10 <= str[0]
  {
    hide Hex, Chunks, Strip, AreDigits;
    LatinHex(str);
    var hex := Hex(str);
    if 0x10 <= str[0] {
      StripNone(hex);
    } else if |str| == 1 {
      StripOne(hex);
      LoneChunk(hex[1]);
      assert hex[1..] == [hex[1]];
    } else if str[0] != 0 {
      StripOne(hex);
      ShiftedChunk(hex[1..], str[0]);
    } else {
      StripTwo(hex);
    }
  }

  lemma StripNone(hex: seq<nat>)
    requires hex != [] && hex[0] != 0
    ensures Strip(hex) == hex
  {}

  lemma StripOne(hex: seq<nat>)
    requires |hex| >= 2 && hex[0] == 0 && (|hex| == 2 || hex[1] != 0)
    ensures Strip(hex) == hex[1..]
  {
    assert Strip(hex[1..]) == hex[1..];
  }

  lemma StripTwo(hex: seq<nat>)
    requires |hex| > 2 && hex[0] == 0 && hex[1] == 0 && AreDigits(hex, 16)
    ensures |Chunks(Strip(hex))| <= (|hex| - 1) / 2
  {
    assert Strip(hex) == Strip(hex[1..]) == Strip(hex[1..][1..]);
    StripDigits(hex, 16);
    ChunksShape(Strip(hex));
  }

  lemma LoneChunk(c: nat)
    ensures Chunks([c]) == [c]
  {}

  /** Dropping one digit moves the first one a place up. */
  lemma ShiftedChunk(hex: seq<nat>, c: nat)
    requires |hex| >= 2 && hex[0] == c > 0
    ensures Chunks(hex)[0] != c
  {}

  lemma {:induction false} StripDigits(ds: seq<nat>, b: nat)
    requires AreDigits(ds, b)
    ensures AreDigits(Strip(ds), b)
    decreases |ds|
  {
    if |ds| > 1 && ds[0] == 0 {
      StripDigits(ds[1..], b);
    }
  }

  // ----- The number of a text

  lemma {:induction false} HexAppend(units: JsString, c: CodeUnit)
    ensures Hex(units + [c]) == Hex(units) + UnitHex(c)
    decreases |units|
  {
    hide UnitHex;
    if units == [] {
      assert units + [c] == [c] && [c][1..] == [];
      assert Hex([c]) == UnitHex(c) + Hex([]);
    } else {
      HexAppend(units[1..], c);
      assert (units + [c])[1..] == units[1..] + [c];
      assert Hex(units + [c]) == UnitHex(units[0]) + (Hex(units[1..]) + UnitHex(c));
    }
  }

  /** One more unit multiplies the number by 0x100, 0x1000 or 0x10000, by its size. */
  lemma NumberAppend(units: JsString, c: CodeUnit)
    ensures c < 0x100 ==> FromDigits(Hex(units + [c]), 16) == FromDigits(Hex(units), 16) * 0x100 + c
    ensures 0x100 <= c < 0x1000 ==> FromDigits(Hex(units + [c]), 16) == FromDigits(Hex(units), 16) * 0x1000 + c
    ensures 0x1000 <= c ==> FromDigits(Hex(units + [c]), 16) == FromDigits(Hex(units), 16) * 0x10000 + c
  {
    hide Hex, FromDigits, UnitHex;
    HexAppend(units, c);
    var ds := Hex(units);
    if c < 0x100 {
      LatinUnitHex(c);
      TwoMore(ds, c / 16, c % 16);
    } else if c < 0x1000 {
      var x, y, z := ThreeDigits(c);
      ThreeMore(ds, x, y, z);
    } else {
      var x, y, z, w := FourDigits(c);
      FourMore(ds, x, y, z, w);
    }
  }

  lemma ThreeDigits(c: CodeUnit) returns (x: nat, y: nat, z: nat)
    requires 0x100 <= c < 0x1000
    ensures UnitHex(c) == [x, y, z] && c == x * 256 + y * 16 + z
  {
    LatinUnitHex(c / 16);
    x, y, z := c / 16 / 16, c / 16 % 16, c % 16;
  }

  lemma FourDigits(c: CodeUnit) returns (x: nat, y: nat, z: nat, w: nat)
    requires 0x1000 <= c
    ensures UnitHex(c) == [x, y, z, w] && c == x * 4096 + y * 256 + z * 16 + w
  {
    x, y, z := ThreeDigits(c / 16);
    w := c % 16;
  }

  lemma OneMore(ds: seq<nat>, d: nat)
    ensures FromDigits(ds + [d], 16) == FromDigits(ds, 16) * 16 + d
  {
    assert (ds + [d])[..|ds|] == ds;
  }

  lemma TwoMore(ds: seq<nat>, c: nat, d: nat)
    ensures FromDigits(ds + [c, d], 16) == (FromDigits(ds, 16) * 16 + c) * 16 + d
  {
    hide FromDigits;
    OneMore(ds, c);
    OneMore(ds + [c], d);
    assert ds + [c, d] == ds + [c] + [d];
  }

  lemma ThreeMore(ds: seq<nat>, a: nat, b: nat, c: nat)
    ensures FromDigits(ds + [a, b, c], 16) == FromDigits(ds, 16) * 0x1000 + (a * 256 + b * 16 + c)
  {
    hide FromDigits;
    TwoMore(ds, a, b);
    OneMore(ds + [a, b], c);
    assert ds + [a, b, c] == ds + [a, b] + [c];
  }

  lemma FourMore(ds: seq<nat>, a: nat, b: nat, c: nat, d: nat)
    ensures FromDigits(ds + [a, b, c, d], 16) == FromDigits(ds, 16) * 0x10000 + (a * 4096 + b * 256 + c * 16 + d)
  {
    hide FromDigits;
    TwoMore(ds, a, b);
    TwoMore(ds + [a, b], c, d);
    assert ds + [a, b, c, d] == ds + [a, b] + [c, d];
  }

  /** A text of units up to 0xFF is a number in base 256. */
  lemma {:induction false} LatinNumber(str: JsString)
    requires IsLatin(str)
    ensures str != [] ==> StringToBigInt(str) == Some(FromDigits(str, 256))
    ensures FromDigits(Hex(str), 16) == FromDigits(str, 256)
    decreases |str|
  {
    hide Hex, LeadingUnits;
    LatinUnits(str);
    LatinHex(str);
    if str == [] {
      assert Hex(str) == [];
    } else {
      var n := |str| - 1;
      LatinNumber(str[..n]);
      assert str == str[..n] + [str[n]];
      NumberAppend(str[..n], str[n]);
    }
  }

  /** The surrogates of UTF-16: six leading bits 110110 and 110111. */
  lemma PairExactly(hi: CodeUnit, lo: CodeUnit)
    ensures IsPair(hi, lo) <==> hi / 0x400 == 0x36 && lo / 0x400 == 0x37
  {}

  /** Of a surrogate pair only the first unit counts: texts that differ in the second
      have one number. */
  lemma PairsCollide(hi: CodeUnit, lo: CodeUnit, lo': CodeUnit, rest: JsString)
    requires IsPair(hi, lo) && IsPair(hi, lo')
    ensures StringToBigInt([hi, lo] + rest) == StringToBigInt([hi, lo'] + rest)
  {
    assert ([hi, lo] + rest)[2..] == rest == ([hi, lo'] + rest)[2..];
  }

  // ----- All the numbers that read as a text

  /** The numeral of a text whose last unit is written with one digit. */
  function ShortHex(str: JsString): seq<nat>
    requires str != []
  {
    Hex(str[..|str| - 1]) + [str[|str| - 1]]
  }

  predicate EndsShort(str: JsString) {
    str != [] && str[|str| - 1] < 0x10
  }

  lemma ShortHexTail(str: JsString)
    requires |str| > 1
    ensures ShortHex(str) == UnitHex(str[0]) + ShortHex(str[1..])
  {
    hide UnitHex;
    var n := |str| - 1;
    assert str[..n][1..] == str[1..][..n - 1] && str[..n][0] == str[0];
    assert UnitHex(str[0]) + Hex(str[1..][..n - 1]) + [str[n]] == UnitHex(str[0]) + (Hex(str[1..][..n - 1]) + [str[n]]);
  }

  /** A numeral read two digits at a time as a text is one of its two numerals. */
  lemma {:induction false} Preimages(ds: seq<nat>, str: JsString)
    requires AreDigits(ds, 16) && str != [] && Chunks(ds) == str
    ensures IsLatin(str) && (ds == Hex(str) || (EndsShort(str) && ds == ShortHex(str)))
    decreases |ds|
  {
    hide UnitHex, Chunks, Hex, ShortHex;
    ChunksShape(ds);
    if |ds| == 1 {
      LoneChunk(ds[0]);
      assert ds == [ds[0]];
      ShortHexOne(ds[0]);
    } else if ds == [] {
      NoChunks();
    } else {
      var rest := str[1..];
      ChunksHead(ds);
      assert Chunks(ds[2..]) == rest && ds[0] * 16 + ds[1] == str[0];
      LatinUnitHex(str[0]);
      HexHead(str);
      assert ds == UnitHex(str[0]) + ds[2..];
      if rest == [] {
        EmptyChunks(ds[2..]);
        HexNone();
      } else {
        Preimages(ds[2..], rest);
        ShortHexTail(str);
      }
    }
  }

  lemma NoChunks()
    ensures Chunks([]) == []
  {}

  lemma HexHead(str: JsString)
    requires str != []
    ensures Hex(str) == UnitHex(str[0]) + Hex(str[1..])
  {}

  lemma HexNone()
    ensures Hex([]) == []
  {}

  lemma ShortHexOne(c: CodeUnit)
    ensures ShortHex([c]) == [c]
  {
    assert [c][..0] == [];
    HexNone();
  }

  lemma EmptyChunks(ds: seq<nat>)
    requires Chunks(ds) == []
    ensures ds == []
  {}

  lemma ShortChunks(str: JsString)
    requires IsLatin(str) && EndsShort(str)
    ensures AreDigits(ShortHex(str), 16) && Chunks(ShortHex(str)) == str
    ensures |ShortHex(str)| == 2 * |str| - 1 && (|str| > 1 ==> ShortHex(str)[0] == str[0] / 16)
  {
    hide Hex, Chunks;
    var n := |str| - 1;
    var init, last := str[..n], str[n];
    LatinHex(init);
    ChunksAppend(Hex(init), [last]);
    LoneChunk(last);
    assert str == init + [last];
  }

  lemma PrintedStripped(m: nat)
    ensures var ds := ToDigits(m, 16); AreDigits(ds, 16) && FromDigits(ds, 16) == m && Strip(ds) == ds
  {
    ToDigitsAreDigits(m, 16);
    PrintParse(m, 16);
    ParsePrint(ToDigits(m, 16), 16);
  }

  /** Exactly which numbers read as a text. */
  lemma ReadsAs(m: nat, str: JsString)
    requires str != []
    ensures BigIntToString(m) == str
       <==> Encodable(str) && (m == FromDigits(Hex(str), 16) || (EndsShort(str) && m == FromDigits(ShortHex(str), 16)))
  {
    hide Hex, Chunks, ShortHex, FromDigits, ToDigits;
    var ds := ToDigits(m, 16);
    PrintedStripped(m);
    if Chunks(ds) == str {
      Preimages(ds, str);
      LatinHex(str);
      if EndsShort(str) {
        ShortChunks(str);
      }
    }
    if Encodable(str) {
      LatinUnits(str);
      LatinHex(str);
      RoundTrip(str);
      if EndsShort(str) && m == FromDigits(ShortHex(str), 16) {
        ShortChunks(str);
        ParsePrint(ShortHex(str), 16);
        assert Strip(ShortHex(str)) == ShortHex(str);
      }
    }
  }

  /** A text that starts with a unit below 0x10 is lost: the units 5 and 65 come back
      as 84 and 1. */
  lemma LeadingDigitLost()
    ensures StringToBigInt([5, 65]) == Some(0x541) && BigIntToString(0x541) == [84, 1]
  {
    assert Hex([5, 65]) == [0, 5, 4, 1] by {
      LatinUnitHex(5);
      LatinUnitHex(65);
      assert [5, 65][1..] == [65] && [65][1..] == [];
      assert Hex([65][1..]) == [];
    }
    LatinUnits([5, 65]);
    LeadingDigits();
    assert [5, 4, 1][2..] == [1];
    LoneChunk(1);
    hide Hex, LeadingUnits, FromDigits, ToDigits;
  }

  lemma LeadingDigits()
    ensures FromDigits([0, 5, 4, 1], 16) == 0x541 && ToDigits(0x541, 16) == [5, 4, 1]
  {
    assert [0, 5, 4, 1][..3] == [0, 5, 4] && [0, 5, 4][..2] == [0, 5] && [0, 5][..1] == [0] && [0][..0] == [];
    assert FromDigits([0, 5], 16) == 5;
    assert FromDigits([0, 5, 4], 16) == 84;
  }
}
