/** Key generation, encryption and decryption, and the exact condition under
    which a generated key pair recovers every message. */
module Rsa {
  import opened Modular
  import opened NumberTheory
  import opened Fermat
  import opened Inverses
  import opened MillerRabin
  import opened Digits
  import opened RsaCodec

  datatype Key = Key(exponent: nat, modulus: nat)

  const PUBLIC_EXPONENT: nat := 65537

  /** Encryption and decryption of a number under one half of a key pair. */
  function Apply(k: Key, m: int): int
    requires 0 < k.modulus
  {
    ModPow(m, k.exponent, k.modulus)
  }

  ghost predicate RecoversAll(public: Key, private: Key)
    requires 0 < public.modulus && 0 < private.modulus
  {
    forall m :: 0 <= m < public.modulus ==> Apply(private, Apply(public, m)) == m
  }

  /** The number of residues coprime to the product of two primes. */
  function Phi(p: nat, q: nat): nat {
    if p == 0 || q == 0 then 0 else (p - 1) * (q - 1)
  }

  /** The pair that `generateKeypair` answers for the drawn `p` and `q`. */
  ghost predicate KeysFor(public: Key, private: Key, p: nat, q: nat)
    requires 2 <= p && 2 <= q
  {
    var phi := Phi(p, q);
    && public == Key(PUBLIC_EXPONENT, p * q)
    && private.modulus == p * q
    && private.exponent <= phi && Cong(PUBLIC_EXPONENT * private.exponent, Gcd(phi, PUBLIC_EXPONENT), phi)
    && (2 <= phi ==> (IsInverse(private.exponent, PUBLIC_EXPONENT, phi) <==> Coprime(PUBLIC_EXPONENT, phi)))
  }

  method GenerateKeypair(p: nat, q: nat) returns (public: Key, private: Key)
    requires 2 <= p && 2 <= q
    ensures public == Key(65537, p * q) && KeysFor(public, private, p, q)
  {
    var n := p * q;
    var phi := (p - 1) * (q - 1);
    assert 1 <= phi;
    var d := JsModInverse(PUBLIC_EXPONENT, phi);
    return Key(PUBLIC_EXPONENT, n), Key(d, n);
  }

  // ----- Recovery when the keys are sound

  /** Both halves together raise to the product of the exponents. */
  lemma Composed(m: int, e: nat, d: nat, n: nat)
    requires 0 < n
    ensures Cong(ModPow(ModPow(m, e, n), d, n), Pow(m, e * d), n)
  {
    var c := ModPow(m, e, n);
    PowCong(c, Pow(m, e), d, n);
    PowMul(m, e, d);
    CongTrans(ModPow(c, d, n), Pow(c, d), Pow(m, e * d), n);
  }

  lemma FixedModPrime(p: nat, q: nat, e: nat, d: nat, k: nat, m: int)
    requires Prime(p) && 2 <= q && e * d == 1 + k * ((p - 1) * (q - 1))
    ensures Cong(Pow(m, e * d), m, p)
  {
    var w := k * (q - 1);
    assert w >= 0;
    assert k * ((p - 1) * (q - 1)) == w * (p - 1) by {
      assert (p - 1) * (q - 1) == (q - 1) * (p - 1);
    }
    ExponentFixes(p, m, e * d, w);
  }

  lemma InverseMultiple(e: nat, d: nat, phi: nat) returns (k: nat)
    requires 2 <= phi && Cong(e * d, 1, phi)
    ensures e * d == 1 + k * phi
  {
    var j := Quotient(phi, e * d - 1);
    assert e * d >= 0;
    assert (j + 1) * phi == j * phi + phi > 0;
    assert j + 1 > 0;
    k := j;
  }

  lemma PhiPositive(p: nat, q: nat)
    requires 2 <= p && 2 <= q && p != q
    ensures 2 <= (p - 1) * (q - 1) == Phi(p, q) && 6 <= p * q
  {
    assert (p - 2) * (q - 2) >= 0;
    assert (p - 1) * (q - 1) == (p - 2) * (q - 2) + p + q - 3;
    assert p * q == (p - 2) * (q - 2) + 2 * p + 2 * q - 4;
  }

  /** Distinct primes and inverse exponents recover every number below the modulus. */
  lemma RecoversNumber(p: nat, q: nat, e: nat, d: nat, m: nat)
    requires Prime(p) && Prime(q) && p != q
    requires IsInverse(d, e, Phi(p, q)) && m < p * q
    ensures ModPow(ModPow(m, e, p * q), d, p * q) == m
  {
    hide *;
    AboveOne(p, q);
    var n, phi := p * q, (p - 1) * (q - 1);
    PhiPositive(p, q);
    InverseParts(d, e, phi);
    var k := InverseMultiple(e, d, phi);
    FixedModPrime(p, q, e, d, k, m);
    assert (p - 1) * (q - 1) == (q - 1) * (p - 1);
    FixedModPrime(q, p, e, d, k, m);
    DistinctPrimesCoprime(p, q);
    CongProduct(p, q, Pow(m, e * d), m);
    Composed(m, e, d, n);
    var c := ModPow(m, e, n);
    CongTrans(ModPow(c, d, n), Pow(m, e * d), m, n);
    ModPowRange(c, d, n);
    CongUnique(ModPow(c, d, n), m, n);
  }

  lemma AboveOne(p: nat, q: nat)
    requires Prime(p) && Prime(q)
    ensures 2 <= p && 2 <= q
  {}

  lemma InverseParts(d: int, e: int, m: int)
    requires IsInverse(d, e, m)
    ensures 0 <= d < m && Cong(e * d, 1, m)
  {}

  lemma CongProduct(p: nat, q: nat, a: int, b: int)
    requires Coprime(p, q) && Cong(a, b, p) && Cong(a, b, q)
    ensures Cong(a, b, p * q)
  {
    CoprimeProduct(p, q, a - b);
  }

  // ----- Failure when they are not

  /** Two messages with one ciphertext: at least one of them is lost. */
  lemma Collision(public: Key, private: Key, m: int, w: int)
    requires 0 < public.modulus && 0 < private.modulus
    requires 0 <= m < public.modulus && 0 <= w < public.modulus && m != w
    requires Apply(public, m) == Apply(public, w)
    ensures !RecoversAll(public, private)
  {
    hide Apply;
    assert Apply(private, Apply(public, m)) != m || Apply(private, Apply(public, w)) != w;
  }

  /** With a repeated prime, the prime itself encrypts to zero, as zero does. */
  lemma RepeatedPrime(p: nat, e: nat)
    requires 2 <= p && 2 <= e
    ensures ModPow(p, e, p * p) == 0 == ModPow(0, e, p * p) && p < p * p
  {
    var n := p * p;
    assert p < n;
    assert Pow(p, e) == p * (p * Pow(p, e - 2));
    assert p * (p * Pow(p, e - 2)) - 0 == Pow(p, e - 2) * n;
    CongBy(Pow(p, e), 0, n, Pow(p, e - 2));
    ModPowIs(p, e, n, 0);
    assert Pow(0, e) == 0 * Pow(0, e - 1);
    CongRefl(0, n);
    ModPowIs(0, e, n, 0);
  }

  /** A common factor of the exponent and p-1 gives a nontrivial root of unity. */
  lemma RootOfUnity(p: nat, l: nat, e: nat) returns (x: int)
    requires Prime(p) && 2 <= l && Divides(l, p - 1) && Divides(l, e)
    ensures !Cong(x, 1, p) && Cong(Pow(x, e), 1, p)
  {
    var n, f := Quotient(l, p - 1), Quotient(l, e);
    assert 0 < n < p - 1;
    assert f >= 0;
    var a := NotAllRootsOfUnity(p, n);
    x := Pow(a, n);
    if Divides(p, a) {
      DividesBound(p, a);
    }
    LittleTheorem(p, a);
    PowMul(a, n, l);
    PowMul(x, l, f);
    assert l * f == f * l;
    PowCong(Pow(x, l), 1, f, p);
    PowOne(f);
  }

  lemma Combination(x: int, y: int, u: int, v: int)
    requires u + v == 1
    ensures y * u + x * v - x == (y - x) * u
    ensures y * u + x * v - y == (x - y) * v
  {
    assert v == 1 - u;
  }

  lemma ChineseRemainder(p: nat, q: nat, x: int, y: int) returns (m: nat)
    requires 0 < p && 0 < q && Coprime(p, q)
    ensures m < p * q && Cong(m, x, p) && Cong(m, y, q)
  {
    var (a, b) := Bezout(p, q);
    var w := y * (a * p) + x * (b * q);
    Combination(x, y, a * p, b * q);
    assert (y - x) * (a * p) == ((y - x) * a) * p;
    assert (x - y) * (b * q) == ((x - y) * b) * q;
    CongBy(w, x, p, (y - x) * a);
    CongBy(w, y, q, (x - y) * b);
    assert 0 < p * q;
    m := w % (p * q);
    CongMod(w, p * q);
    DividesBy(p, p * q, q);
    DividesBy(q, p * q, p);
    DividesTrans(p, p * q, m - w);
    DividesTrans(q, p * q, m - w);
    CongTrans(m, w, x, p);
    CongTrans(m, w, y, q);
  }

  /** When the exponent shares a factor with p-1, some message other than one
      encrypts to one. */
  lemma SharedFactor(p: nat, q: nat, e: nat, l: nat) returns (m: nat)
    requires Prime(p) && Prime(q) && p != q
    requires 2 <= l && Divides(l, p - 1) && Divides(l, e)
    ensures m < p * q && m != 1 && ModPow(m, e, p * q) == 1
  {
    var x := RootOfUnity(p, l, e);
    DistinctPrimesCoprime(p, q);
    m := ChineseRemainder(p, q, x, 1);
    if m == 1 {
      CongSym(1, x, p);
    }
    PowCong(m, x, e, p);
    CongTrans(Pow(m, e), Pow(x, e), 1, p);
    PowCong(m, 1, e, q);
    PowOne(e);
    CongProduct(p, q, Pow(m, e), 1);
    PhiPositive(p, q);
    ModPowIs(m, e, p * q, 1);
  }

  lemma NotCoprimeFails(p: nat, q: nat, public: Key, private: Key)
    requires Prime(p) && Prime(q) && p != q
    requires public.modulus == p * q && 0 < private.modulus
    requires !Coprime(public.exponent, Phi(p, q)) && 0 < public.exponent
    ensures !RecoversAll(public, private)
  {
    var e, phi := public.exponent, (p - 1) * (q - 1);
    PhiPositive(p, q);
    var g := Gcd(e, phi);
    GcdPositive(e, phi);
    GcdDivides(e, phi);
    var l := PrimeDivisor(g);
    DividesTrans(l, g, e);
    DividesTrans(l, g, phi);
    EuclidLemma(l, p - 1, q - 1);
    var m: nat;
    if Divides(l, p - 1) {
      m := SharedFactor(p, q, e, l);
    } else {
      m := SharedFactor(q, p, e, l);
      assert p * q == q * p;
    }
    OneEncryptsToOne(e, p * q);
    Collision(public, private, m, 1);
  }

  lemma OneEncryptsToOne(e: nat, n: nat)
    requires 2 <= n
    ensures ModPow(1, e, n) == 1
  {
    PowOne(e);
    CongRefl(1, n);
    ModPowIs(1, e, n, 1);
  }

  /** A generated pair recovers every number below its modulus if and only if the
      drawn primes differ and the fixed exponent is coprime to (p-1)(q-1). */
  lemma RecoversExactly(public: Key, private: Key, p: nat, q: nat)
    requires Prime(p) && Prime(q) && KeysFor(public, private, p, q)
    ensures 0 < public.modulus && 0 < private.modulus
    ensures RecoversAll(public, private) <==>
            p != q && Coprime(PUBLIC_EXPONENT, Phi(p, q))
  {
    assert 0 < p * q;
    hide Prime, Coprime, Phi, IsInverse;
    if p == q {
      RepeatedPrime(p, PUBLIC_EXPONENT);
      Collision(public, private, p, 0);
    } else if !Coprime(PUBLIC_EXPONENT, Phi(p, q)) {
      NotCoprimeFails(p, q, public, private);
    } else {
      PhiPositive(p, q);
      forall m | 0 <= m < public.modulus
        ensures Apply(private, Apply(public, m)) == m
      {
        RecoversNumber(p, q, PUBLIC_EXPONENT, private.exponent, m);
      }
    }
  }

  // ----- Text

  /** The ciphertext is a decimal numeral. */
  function EncryptText(public: Key, plaintext: JsString): Option<seq<nat>>
    requires 0 < public.modulus
  {
    match StringToBigInt(plaintext)
    case None => None
    case Some(m) => Some(ToDigits(ModPowNat(public, m), 10))
  }

  function ModPowNat(k: Key, m: nat): (c: nat)
    requires 0 < k.modulus
    ensures c == Apply(k, m)
  {
    assert Apply(k, m) >= 0;
    Apply(k, m)
  }

  /** The ciphertext of a text is the decimal numeral of its number to the power 65537
      modulo the product of the primes. */
  lemma Ciphertext(public: Key, private: Key, p: nat, q: nat, str: JsString)
    requires 2 <= p && 2 <= q && KeysFor(public, private, p, q) && str != []
    ensures 0 < public.modulus == p * q && StringToBigInt(str).Some?
    ensures var m := StringToBigInt(str).value;
            && 0 <= Pow(m, 65537) % (p * q)
            && EncryptText(public, str) == Some(ToDigits(Pow(m, 65537) % (p * q), 10))
  {
    hide Pow, ToDigits;
    assert 0 < p * q;
    RsaCodec.RoundTrip(str);
  }

  /** What decryption makes of the number that `BigInt` reads in the ciphertext; a text
      that is no number is an error, and a negative number keeps its sign. */
  function DecryptText(private: Key, ciphertext: Option<int>): Option<seq<nat>>
    requires 0 < private.modulus
  {
    if ciphertext == None then None
    else if private.exponent == 0 then Some(BigIntToString(1))
    else Some(BigIntToString(JsRem(Pow(ciphertext.value, private.exponent), private.modulus)))
  }

  lemma DecryptsNumber(private: Key, c: nat)
    requires 0 < private.modulus
    ensures DecryptText(private, Some(c)) == Some(BigIntToString(ModPowNat(private, c)))
  {
    hide BigIntToString;
    PowNonNegative(c, private.exponent);
  }

  /** A sound pair recovers every number up to the modulus. */
  lemma RecoversResidue(public: Key, private: Key, p: nat, q: nat, m: nat)
    requires Prime(p) && Prime(q) && p != q && KeysFor(public, private, p, q)
    requires Coprime(PUBLIC_EXPONENT, Phi(p, q))
    ensures 0 < public.modulus && 0 < private.modulus
    ensures ModPowNat(private, ModPowNat(public, m)) == m % public.modulus
  {
    RecoversExactly(public, private, p, q);
    hide Prime, Coprime;
    var n := public.modulus;
    SameResidue(public, m);
    assert 0 <= m % n < n;
  }

  lemma SameResidue(k: Key, m: nat)
    requires 0 < k.modulus && 0 < k.exponent
    ensures Apply(k, m) == Apply(k, m % k.modulus)
  {
    var n := k.modulus;
    CongMod(m, n);
    PowCong(m % n, m, k.exponent, n);
    CongIffMod(Pow(m % n, k.exponent), Pow(m, k.exponent), n);
    hide Pow, Cong;
  }

  /** The codec can carry the text, and either its number is below the modulus or, its
      last unit being below 0x10, the number with that unit's leading zero left out is
      what remains of it modulo the modulus. */
  predicate Carried(str: JsString, n: nat) {
    && Encodable(str) && 0 < n && StringToBigInt(str).Some?
    && var number := StringToBigInt(str).value;
    number < n || (EndsShort(str) && number % n == FromDigits(ShortHex(str), 16))
  }

  /** Decrypting the encryption gives the text back. */
  predicate Recovered(public: Key, private: Key, str: JsString) {
    && 0 < public.modulus && 0 < private.modulus && EncryptText(public, str).Some?
    && DecryptText(private, Some(FromDigits(EncryptText(public, str).value, 10))) == Some(str)
  }

  /** End to end, for every text: under a sound pair it is recovered exactly when it is
      carried. */
  lemma TextRecovered(public: Key, private: Key, p: nat, q: nat, str: JsString)
    requires Prime(p) && Prime(q) && p != q && KeysFor(public, private, p, q)
    requires Coprime(PUBLIC_EXPONENT, Phi(p, q))
    ensures Recovered(public, private, str) <==> Carried(str, p * q)
  {
    hide Prime, Coprime, BigIntToString, Encodable, Hex, ShortHex, FromDigits, ToDigits, ModPowNat, LeadingUnits;
    if str == [] {
      EmptyText();
    } else {
      NonemptyRecovered(public, private, p, q, str);
    }
  }

  lemma EmptyText()
    ensures StringToBigInt([]) == None && !Encodable([])
  {}

  lemma NonemptyRecovered(public: Key, private: Key, p: nat, q: nat, str: JsString)
    requires Prime(p) && Prime(q) && p != q && KeysFor(public, private, p, q)
    requires Coprime(PUBLIC_EXPONENT, Phi(p, q)) && str != []
    ensures Recovered(public, private, str) <==> Carried(str, p * q)
  {
    hide Prime, Coprime, BigIntToString, Encodable, Hex, ShortHex, FromDigits, ToDigits, ModPowNat, LeadingUnits;
    hide StringToBigInt;
    RsaCodec.RoundTrip(str);
    var m := StringToBigInt(str).value;
    RecoversResidue(public, private, p, q, m);
    var c := ModPowNat(public, m);
    PrintParse(c, 10);
    DecryptsNumber(private, c);
    ReadsAs(m % (p * q), str);
    if Encodable(str) {
      EncodableNumber(str);
      BelowIff(m, p * q);
    }
  }

  lemma EncodableNumber(str: JsString)
    requires Encodable(str)
    ensures StringToBigInt(str) == Some(FromDigits(Hex(str), 16))
  {
    hide FromDigits;
    LatinUnits(str);
    LatinHex(str);
  }

  lemma BelowIff(m: nat, n: nat)
    requires 0 < n
    ensures m % n == m <==> m < n
  {}

  class RsaInstance {
    const bitLength: nat
    var publicKey: Key
    var privateKey: Key

    ghost predicate Valid()
      reads this
    {
      0 < publicKey.modulus && 0 < privateKey.modulus
    }

    /** The primes are the ones that `generatePrime` drew and accepted. */
    constructor (bitLength: nat, p: nat, q: nat)
      requires 2 <= p && 2 <= q
      ensures Valid() && this.bitLength == bitLength
      ensures KeysFor(publicKey, privateKey, p, q)
    {
      this.bitLength := bitLength;
      var public, private := GenerateKeypair(p, q);
      publicKey, privateKey := public, private;
      assert 0 < p * q;
    }

    method Encrypt(plaintext: JsString) returns (c: Option<seq<nat>>)
      requires Valid()
      ensures c == EncryptText(publicKey, plaintext)
    {
      var m := StringToBigInt(plaintext);
      if m.None? {
        return None;
      }
      var v := JsModPow(m.value, publicKey.exponent, publicKey.modulus);
      assert v == ModPowNat(publicKey, m.value);
      return Some(ToDigits(v, 10));
    }

    /** Takes what `BigInt` reads in the ciphertext. */
    method Decrypt(ciphertext: Option<int>) returns (plaintext: Option<seq<nat>>)
      requires Valid()
      ensures plaintext == DecryptText(privateKey, ciphertext)
    {
      hide Pow, JsRem, BigIntToString, ModPow;
      if ciphertext == None {
        return None;
      }
      var m := JsModPow(ciphertext.value, privateKey.exponent, privateKey.modulus);
      var text := BigIntToStringLoop(m);
      return Some(text);
    }
  }
}
