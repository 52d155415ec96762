/** Serial numbers as the CA database keeps them: an optional minus sign and an
    even number of hexadecimal digits. */
module Serials {
  import opened Digits
  import opened Inverses

  const HEX := "0123456789ABCDEF"

  predicate IsHex(c: char) {
    '0' <= c <= '9' || 'A' <= c <= 'F' || 'a' <= c <= 'f'
  }

  function HexValue(c: char): nat {
    if '0' <= c <= '9' then c as int - '0' as int
    else if 'A' <= c <= 'F' then c as int - 'A' as int + 10
    else if 'a' <= c <= 'f' then c as int - 'a' as int + 10
    else 0
  }

  function Print(ds: seq<nat>): (t: string)
    requires AreDigits(ds, 16)
    ensures |t| == |ds|
  {
    if ds == [] then "" else [HEX[ds[0]]] + Print(ds[1..])
  }

  function Values(t: string): (ds: seq<nat>)
    ensures |ds| == |t|
  {
    if t == "" then [] else [HexValue(t[0])] + Values(t[1..])
  }

  /** Two digits per byte, so an even number of them. */
  function EvenDigits(n: nat): (ds: seq<nat>)
    ensures |ds| % 2 == 0 && |ds| >= 2
  {
    var ds := ToDigits(n, 16);
    if |ds| % 2 == 1 then [0] + ds else ds
  }

  /** The text of a serial number, zero being "00". */
  function SerialText(n: int): string {
    var size := if n < 0 then -n else n;
    assert AreDigits(EvenDigits(size), 16) by { ToDigitsAreDigits(size, 16); }
    (if n < 0 then "-" else "") + Print(EvenDigits(size))
  }

  function HexPrefix(t: string): (n: nat)
    ensures n <= |t|
  {
    if t == "" || !IsHex(t[0]) then 0 else 1 + HexPrefix(t[1..])
  }

  predicate Signed(t: string) {
    t != "" && t[0] == '-'
  }

  function Unsigned(t: string): string {
    if Signed(t) then t[1..] else t
  }

  /** What `BN_hex2bn` reads: the leading hexadecimal digits, if any. */
  function SerialNumber(t: string): Option<int> {
    var body := Unsigned(t);
    var k := HexPrefix(body);
    if k == 0 then None else
      var size: int := FromDigits(Values(body[..k]), 16);
      Some(if Signed(t) then -size else size)
  }

  predicate AllHex(t: string) {
    forall c <- t :: IsHex(c)
  }

  /** What loading the database asks of a serial number. */
  predicate WellFormed(t: string) {
    var body := Unsigned(t);
    |body| % 2 == 0 && |body| >= 2 && AllHex(body)
  }

  /** The serial index ignores leading zeros. */
  function Key(t: string): string {
    if t != "" && t[0] == '0' then Key(t[1..]) else t
  }

  // ----------------------------------------------------------------

  lemma HexChar(d: nat)
    requires d < 16
    ensures IsHex(HEX[d]) && HexValue(HEX[d]) == d && HEX[d] != '-'
  {
    assert d == 0 || d == 1 || d == 2 || d == 3 || d == 4 || d == 5 || d == 6 || d == 7 || d >= 8;
    assert d < 8 || d == 8 || d == 9 || d == 10 || d == 11 || d == 12 || d == 13 || d == 14 || d == 15;
  }

  lemma {:induction false} PrintValues(ds: seq<nat>)
    requires AreDigits(ds, 16)
    ensures AllHex(Print(ds)) && Values(Print(ds)) == ds
  {
    hide HexValue, IsHex;
    if ds != [] {
      HexChar(ds[0]);
      PrintValues(ds[1..]);
      assert Print(ds)[1..] == Print(ds[1..]);
    }
  }

  lemma {:induction false} AllHexPrefix(t: string)
    requires AllHex(t)
    ensures HexPrefix(t) == |t|
  {
    hide IsHex;
    if t != "" {
      assert t[0] in t && forall c <- t[1..] :: c in t;
      AllHexPrefix(t[1..]);
    }
  }

  lemma EvenDigitsOf(n: nat)
    ensures AreDigits(EvenDigits(n), 16) && FromDigits(EvenDigits(n), 16) == n
  {
    hide FromDigits, ToDigits;
    ToDigitsAreDigits(n, 16);
    PrintParse(n, 16);
    var ds := ToDigits(n, 16);
    LeadingZero([0] + ds, 16);
    assert ([0] + ds)[1..] == ds;
  }

  lemma NotSigned(t: string)
    requires AllHex(t)
    ensures !Signed(t)
  {
    assert t != "" ==> t[0] in t;
  }

  /** The digits are the decimal ones and the first six letters in both cases. */
  lemma HexDigits(c: char)
    ensures IsHex(c) <==> c in "0123456789" || c in "ABCDEF" || c in "abcdef"
  {
    if '0' <= c <= '9' {
      assert c == "0123456789"[c as int - '0' as int];
    } else if 'A' <= c <= 'F' {
      assert c == "ABCDEF"[c as int - 'A' as int];
    } else if 'a' <= c <= 'f' {
      assert c == "abcdef"[c as int - 'a' as int];
    }
  }

  lemma LetterValues(i: nat)
    requires i < 6
    ensures HexValue("ABCDEF"[i]) == 10 + i == HexValue("abcdef"[i])
  {
    assert i == 0 || i == 1 || i == 2 || i == 3 || i == 4 || i == 5;
  }

  /** A printed serial passes the load check and is read back. */
  lemma PrintedSerial(n: int)
    ensures WellFormed(SerialText(n)) && SerialNumber(SerialText(n)) == Some(n)
    ensures Signed(SerialText(n)) <==> n < 0
  {
    hide FromDigits, EvenDigits, Print, Values, HexPrefix, AllHex;
    var size := if n < 0 then -n else n;
    EvenDigitsOf(size);
    PrintValues(EvenDigits(size));
    var body := Print(EvenDigits(size));
    AllHexPrefix(body);
    assert body[..|body|] == body;
    NotSigned(body);
    assert "" + body == body && ("-" + body)[1..] == body;
  }

  lemma {:induction false} KeyValue(t: string)
    requires AllHex(t)
    ensures AllHex(Key(t)) && FromDigits(Values(Key(t)), 16) == FromDigits(Values(t), 16)
  {
    hide FromDigits, IsHex;
    if t != "" && t[0] == '0' {
      assert forall c <- t[1..] :: c in t;
      KeyValue(t[1..]);
      LeadingZero(Values(t), 16);
    }
  }

  /** Under the index, printed serials collide only when they are the same number. */
  lemma PrintedKeys(a: int, b: int)
    ensures Key(SerialText(a)) == Key(SerialText(b)) <==> a == b
  {
    if Key(SerialText(a)) == Key(SerialText(b)) {
      KeyNumber(a);
      KeyNumber(b);
      hide Key, SerialText, SerialNumber, FromDigits, Values;
    }
  }

  function KeyReads(key: string): Option<int> {
    if Signed(key) then SerialNumber(key) else Some(FromDigits(Values(key), 16))
  }

  /** What the index keeps of a well-formed serial still determines its number. */
  lemma KeyOfText(t: string)
    requires WellFormed(t)
    ensures SerialNumber(t).Some? && KeyReads(Key(t)) == SerialNumber(t)
  {
    hide FromDigits, Values, AllHex, HexPrefix;
    var body := Unsigned(t);
    AllHexPrefix(body);
    assert body[..|body|] == body;
    if !Signed(t) {
      KeyValue(t);
      NotSigned(Key(t));
    }
  }

  /** So serials that the index takes for the same are the same number. */
  lemma SameKey(s: string, t: string)
    requires WellFormed(s) && WellFormed(t) && Key(s) == Key(t)
    ensures SerialNumber(s).Some? && SerialNumber(s) == SerialNumber(t)
  {
    KeyOfText(s);
    KeyOfText(t);
  }

  /** The converse fails where the letters differ in case: the index tells "0a" from
      "0A". */
  lemma CaseSplitsNumber()
    ensures WellFormed("0a") && WellFormed("0A") && Key("0a") != Key("0A")
    ensures SerialNumber("0a") == Some(10) == SerialNumber("0A")
  {
    assert "0a"[1..] == "a" && "0A"[1..] == "A" && "a"[1..] == "" && "A"[1..] == "";
    assert Key("0a") == "a" && Key("0A") == "A";
    CaseDigits("0a");
    CaseDigits("0A");
  }

  lemma CaseDigits(t: string)
    requires |t| == 2 && t[0] == '0' && (t[1] == 'a' || t[1] == 'A')
    ensures WellFormed(t) && SerialNumber(t) == Some(10)
  {
    assert AllHex(t) && !Signed(t);
    AllHexPrefix(t);
    assert t[..2] == t && t[1..][1..] == "";
    assert Values(t[1..]) == [10];
    assert Values(t) == [0, 10];
    assert [0, 10][..1] == [0] && [0][..0] == [];
    assert FromDigits([0], 16) == 0;
    assert FromDigits([0, 10], 16) == 10;
  }

  lemma KeyNumber(n: int)
    ensures KeyReads(Key(SerialText(n))) == Some(n)
  {
    hide KeyReads, Key, SerialText, SerialNumber, WellFormed;
    PrintedSerial(n);
    KeyOfText(SerialText(n));
  }

  /** A serial text that is a printed number. */
  predicate Canonical(t: string) {
    SerialNumber(t).Some? && t == SerialText(SerialNumber(t).value)
  }

  lemma CanonicalText(n: int)
    ensures Canonical(SerialText(n))
  {
    hide SerialText, SerialNumber;
    PrintedSerial(n);
  }

  // ---------------------------------------------------------------- leading zeros

  function Zeros(k: nat): (t: string)
    ensures |t| == k
  {
    if k == 0 then "" else "0" + Zeros(k - 1)
  }

  /** The key is what is left without leading zeros. */
  lemma {:induction false} KeyStrips(t: string) returns (k: nat)
    ensures t == Zeros(k) + Key(t) && (Key(t) == "" || Key(t)[0] != '0')
  {
    if t != "" && t[0] == '0' {
      k := KeyStrips(t[1..]);
      k := k + 1;
      assert t == "0" + (Zeros(k - 1) + Key(t));
    } else {
      k := 0;
    }
  }

  lemma {:induction false} KeyOfZeros(k: nat, t: string)
    ensures Key(Zeros(k) + t) == Key(t)
  {
    if k == 0 {
      assert Zeros(k) + t == t;
    } else {
      assert (Zeros(k) + t)[1..] == Zeros(k - 1) + t;
      KeyOfZeros(k - 1, t);
    }
  }

  /** `s` is `t` with more leading zeros. */
  predicate Pads(s: string, t: string) {
    |t| <= |s| && s == Zeros(|s| - |t|) + t
  }

  lemma PadsMore(i: nat, j: nat, key: string)
    requires j <= i
    ensures Pads(Zeros(i) + key, Zeros(j) + key)
  {
    hide *;
    ZerosSplit(i - j, j);
    Regroup(Zeros(i - j), Zeros(j), key);
    PadsBy(Zeros(i) + key, Zeros(j) + key, i - j);
  }

  lemma PadsBy(s: string, t: string, k: nat)
    requires s == Zeros(k) + t
    ensures Pads(s, t)
  {
    hide Zeros;
    assert |s| - |t| == k;
  }

  lemma Regroup(a: string, b: string, c: string)
    ensures a + b + c == a + (b + c)
  {}

  /** Two texts have one key exactly when they differ in leading zeros only. */
  lemma KeysAgree(s: string, t: string)
    ensures Key(s) == Key(t) <==> Pads(s, t) || Pads(t, s)
  {
    hide Key, Zeros;
    if Key(s) == Key(t) {
      var i := KeyStrips(s);
      var j := KeyStrips(t);
      if j <= i {
        PadsMore(i, j, Key(s));
      } else {
        PadsMore(j, i, Key(s));
      }
    } else if Pads(s, t) {
      KeyOfZeros(|s| - |t|, t);
    } else if Pads(t, s) {
      KeyOfZeros(|t| - |s|, s);
    }
  }

  lemma {:induction false} ZerosSplit(i: nat, j: nat)
    ensures Zeros(i + j) == Zeros(i) + Zeros(j)
  {
    if i > 0 {
      ZerosSplit(i - 1, j);
    }
  }

  // ---------------------------------------------------------------- printed texts

  predicate Upper(t: string) {
    forall c <- t :: !('a' <= c <= 'f')
  }

  lemma UpperDigit(c: char)
    requires IsHex(c) && !('a' <= c <= 'f')
    ensures HexValue(c) < 16 && HEX[HexValue(c)] == c
  {
    if '0' <= c <= '9' {
      assert c in "0123456789";
    } else {
      assert c in "ABCDEF";
    }
  }

  /** Upper-case digits are what their values print. */
  lemma {:induction false} ValuesPrint(t: string)
    requires AllHex(t) && Upper(t)
    ensures AreDigits(Values(t), 16) && Print(Values(t)) == t
  {
    hide HexValue, IsHex;
    if t != "" {
      assert t[0] in t && forall c <- t[1..] :: c in t;
      UpperDigit(t[0]);
      ValuesPrint(t[1..]);
      assert t == [t[0]] + t[1..];
      assert Values(t)[1..] == Values(t[1..]);
    }
  }

  lemma {:induction false} PrintUpper(ds: seq<nat>)
    requires AreDigits(ds, 16)
    ensures Upper(Print(ds))
  {
    if ds != [] {
      HexUpper(ds[0]);
      PrintUpper(ds[1..]);
    }
  }

  lemma HexUpper(d: nat)
    requires d < 16
    ensures !('a' <= HEX[d] <= 'f')
  {
    assert d == 0 || d == 1 || d == 2 || d == 3 || d == 4 || d == 5 || d == 6 || d == 7 || d >= 8;
    assert d < 8 || d == 8 || d == 9 || d == 10 || d == 11 || d == 12 || d == 13 || d == 14 || d == 15;
  }

  /** As short as whole bytes allow. */
  predicate Short(ds: seq<nat>) {
    |ds| == 2 || (|ds| > 2 && (ds[0] != 0 || ds[1] != 0))
  }

  lemma EvenDigitsShort(n: nat)
    ensures Short(EvenDigits(n))
  {
    hide ToDigits, FromDigits;
    var ds := ToDigits(n, 16);
    ToDigitsAreDigits(n, 16);
    PrintParse(n, 16);
    ParsePrint(ds, 16);
    assert |ds| > 1 ==> ds[0] != 0;
  }

  /** Even and short, the digits are those printed for their number. */
  lemma ShortDigits(ds: seq<nat>)
    requires AreDigits(ds, 16) && |ds| % 2 == 0 && Short(ds)
    ensures EvenDigits(FromDigits(ds, 16)) == ds
  {
    hide ToDigits, FromDigits;
    ParsePrint(ds, 16);
    if ds[0] == 0 {
      assert Strip(ds) == Strip(ds[1..]) == ds[1..];
      assert ds == [0] + ds[1..];
    }
  }

  /** Exactly the texts that are printed: whole bytes of upper-case digits, no leading
      zero byte but in "00", and no minus sign before zero. */
  lemma CanonicalExactly(t: string)
    ensures Canonical(t) <==>
            && WellFormed(t) && Upper(Unsigned(t)) && Short(Values(Unsigned(t)))
            && (Signed(t) ==> FromDigits(Values(Unsigned(t)), 16) != 0)
  {
    hide Print, Values, EvenDigits, FromDigits, HexPrefix, AllHex, Short, Upper;
    var body := Unsigned(t);
    if WellFormed(t) && Upper(body) && Short(Values(body)) {
      ValuesPrint(body);
      ShortDigits(Values(body));
      AllHexPrefix(body);
      assert body[..|body|] == body;
      assert Signed(t) ==> t == "-" + body;
      assert "" + body == body;
    }
    if Canonical(t) {
      var n := SerialNumber(t).value;
      var size := if n < 0 then -n else n;
      PrintedSerial(n);
      EvenDigitsOf(size);
      EvenDigitsShort(size);
      PrintValues(EvenDigits(size));
      PrintUpper(EvenDigits(size));
      NotSigned(Print(EvenDigits(size)));
      assert "" + Print(EvenDigits(size)) == Print(EvenDigits(size));
      assert ("-" + Print(EvenDigits(size)))[1..] == Print(EvenDigits(size));
    }
  }
}
