# Verified model of the cryptographic examples and the OpenSSL CA

This project models, in Dafny, the algorithms this repository collects as examples
and the stateful parts of the OpenSSL command line tools it vendors, and proves what
they are for.

* **RSA** (`examples/RSA`). Square-and-multiply, the extended Euclidean loops, the
  Miller-Rabin loop, trial division, the hexadecimal text codec and key generation,
  over unbounded integers. Fermat's little theorem, the root bound for polynomials
  modulo a prime and the Chinese remainder theorem are proved here, not assumed.
* **Elliptic curves** (`examples/ELIPTIC_CURVES`). Chord-and-tangent addition over a
  prime field in Python and Ruby. The group law is proved on every nonsingular curve,
  associativity included.
* **SHA-256** (`examples/SHA`). The streaming C implementation with its buffer and
  counters changed in place, and the one-shot Python implementation, both proved
  against one definition of the standard's block function (sections 4.1.2, 5.1.1 and
  6.2.2 of FIPS 180-4). Its word operations are proved bit by bit, and its constants to
  be the roots of primes they are defined as (sections 4.2.2 and 5.3.3).
* **The CA database** (`openssl-master/apps/ca.c`, with the text database, the serial
  number texts and the indexes it stands on). Rows are inserted, revoked and expired
  in place; theorems are about every sequence of steps.
* **Smaller state machines**: the signer/key/option pairing of `cms.c`, the
  control-break listing of the coach portal and vote registration.

Code that updates variables, arrays or objects is a method or a class here, proved
against a function of its inputs or of the state before; the laws are lemmas about
those functions. `dafny verify dfyconfig.toml` checks everything.

## Files

| file | content |
|---|---|
| `Modular.dfy`, `NumberTheory.dfy`, `Fermat.dfy` | congruences, gcd, primes, powers, binomial theorem, Fermat, polynomial roots |
| `Inverses.dfy`, `MillerRabin.dfy`, `Digits.dfy`, `RsaCodec.dfy`, `Rsa.dfy` | RSA |
| `EllipticCurve.dfy`, `CurveIdentities.dfy`, `EllipticGroup.dfy`, `CurveArithmetic.dfy` | elliptic curves |
| `Bits.dfy`, `Sha256.dfy`, `Sha256Bits.dfy`, `Sha256Constants.dfy`, `Sha256Stream.dfy`, `Sha256OneShot.dfy` | SHA-256 |
| `TxtDb.dfy`, `TxtLines.dfy`, `Serials.dfy`, `Revocation.dfy`, `CaPolicy.dfy`, `CaDatabase.dfy`, `CaDecisions.dfy` | the CA's data and operations |
| `CaRuns.dfy`, `CaLifecycle.dfy`, `CaReload.dfy`, `CaCrl.dfy`, `CaIssue.dfy` | what every sequence of CA steps keeps |
| `CmsSigners.dfy`, `CmsCommandLines.dfy`, `TrainingGroups.dfy`, `Voting.dfy` | the smaller state machines |

## How the outside world is modelled

* Random draws (`examples/RSA/RSA.js:19-23`) are parameters, any non-negative integers;
  statements quantify over them. `examples/RSA/RSA.js:41` subtracts a Number from a BigInt, which JavaScript
  rejects; the model takes the evident integer bound `s - 1`.
* Key generation takes the two primes as parameters. The square root in
  `examples/RSA/RSA.rb:14` is the exact integer root.
* Time and object identifier parsing are predicates (`Revocation.Library`). The CA
  theorems assume of them only that accepted texts hold no newline, do not end in a
  backslash and, for a UTC time, are not empty (`CaRuns.PlainTexts`). A subject on one
  line holds no newline. They begin with any database the load check accepts in which
  every row has a status; only the count of a serial number on the revocation list asks
  for more, and says so.
* The outcomes of reading, verifying, building and signing a certificate and the
  operator's answers are fields of a request (`CaIssue.Request`).
* A row's missing revocation date and the empty text it is written as are one value.
* The submodules, their modules and trainings, and the stored votes are plain records;
  whether a vote can be saved is a field of the vote.

## Where the code does not do what it is for

Each of these is kept as the code has it, with the exact condition proved and an input
on which it fails.

* A generated RSA pair recovers every message exactly when the two primes differ and
  65537 is coprime to (p-1)(q-1); key generation checks neither (`Rsa.RecoversExactly`,
  `Rsa.RepeatedPrime`, `Rsa.SharedFactor`).
* The text codec carries a text exactly when every code unit is at most 0xFF and the
  text is one unit long or starts with a unit of at least 0x10 (`RsaCodec.RoundTrip`,
  `RsaCodec.LeadingDigitLost`).
* Adding leaves the curve in one case only: doubling a point with y = 0 and x ≠ 0
  (`CurveArithmetic.ClosedExactly`); two opposite points add to the identity except
  when they are such a point twice (`CurveArithmetic.IdentityExactly`). The Python
  double and add is right for every scalar exactly when no power-of-two multiple of the
  point has y = 0 (`CurveArithmetic.ExactOverAllScalars`, `CurveArithmetic.ExampleCurve`);
  the Ruby one raises exactly when it doubles such a point.
* A database survives being written and read exactly when no field holds a newline, no
  field but the last ends in a backslash and no row starts with `#`
  (`TxtDb.FileRoundTrip`, `TxtDb.BackslashLost`).
* A comment of 511 characters or more is skipped only as far as the buffer reaches, and
  the rest of it is read as a line of its own (`TxtLines.LongComment`); with shorter
  comments every file is read line by line (`TxtLines.FileExactly`).
* Revoking a certificate the database does not know adds it before the reason is looked
  at: it is added whenever its subject is free, and stays there as a valid one when the
  reason is refused (`CaDecisions.RevokeUnknown`, `CaDecisions.AddedThoughRefused`).
* After a revocation the database can be saved and opened again exactly when a newly
  added certificate's expiry date is a time, the moment of revocation is a UTC time and
  a row that was there had a status (`CaReload.LoadsExactly`). From 2050 on the current
  time is not a UTC time (`CaReload.LateRevocation`), and the load check lets rows
  without a status through (`CaReload.NoStatusLost`).
* The revocation list names every serial number at most once exactly when the revoked
  rows read as different numbers (`CaCrl.ListedOnceExactly`). The load check and the
  serial index let "0a" and "0A" through as two serials (`CaCrl.ListedTwice`); serials
  that the tool writes itself are always told apart.
* A `-keyopt` read while the operation is to encrypt is filed by the number of
  recipients. Every `-keyopt` reaches its signer exactly when that number agrees with
  the pending pair wherever it is used (`CmsSigners.SignerPairing`,
  `CmsSigners.CountedByRecipients`).

## Model

| member | source | states |
|---|---|---|
| Inverses.GcdLoop | examples/RSA/RSA.rb:18-23 | the loop's answer divides both numbers and every common divisor divides it |
| Inverses.JsModInverse | examples/RSA/RSA.js:75-88 | the answer d lies in [0, phi], e·d is congruent to gcd(phi, e), and for phi ≥ 2 d is the inverse of e exactly when e and phi are coprime |
| Inverses.RubyModInverse | examples/RSA/RSA.rb:26-41 | raises exactly when the arguments are not coprime, and otherwise answers the inverse in [0, m) |
| Inverses.InverseUnique | examples/RSA/RSA.rb:26-41 | an inverse in [0, m) is unique, so the JavaScript and Ruby answers are equal |
| Inverses.InverseCoprime | examples/RSA/RSA.rb:34-36 | only numbers coprime to the modulus have an inverse |
| Inverses.RubyCurveInverse | examples/ELIPTIC_CURVES/ElipticCurves.rb:20-31 | for any integer, raises exactly when its residue shares a factor with p, and otherwise answers the inverse |
| MillerRabin.JsModPow | examples/RSA/RSA.js:55-66 | the square-and-multiply loop computes base to the exp modulo mod; for a negative base, where every remainder keeps the sign of its dividend, the remainder of the power with the power's sign |
| MillerRabin.JsRemMeans | examples/RSA/RSA.js:57-63 | the remainder differs from the dividend by a multiple of the modulus, is smaller than the modulus and has the dividend's sign |
| MillerRabin.LoopStep | examples/RSA/RSA.js:58-64 | accumulator times remaining power keeps its class modulo mod through one turn of the loop |
| MillerRabin.TwosOddPart | examples/RSA/RSA.js:29-33 | the halving loop's r and s satisfy n-1 = r·2^s with r odd |
| MillerRabin.Round | examples/RSA/RSA.js:36-49 | one round lets n pass exactly when a^r is 1 or some a^(r·2^j), j < s, is -1 modulo n |
| MillerRabin.PassesMeans | examples/RSA/RSA.js:36-49 | a base passes exactly when a^(n-1) is 1 and every a^(r·2^(j+1)) that is 1, j < s, comes from an a^(r·2^j) that is 1 or -1 modulo n |
| MillerRabin.RandReaches | examples/RSA/RSA.js:19-23 | each number of the range is drawn by exactly one residue class of the generator's values |
| MillerRabin.JsIsPrime | examples/RSA/RSA.js:25-53 | the answer is the conjunction of the small cases and of the rounds for the drawn bases |
| MillerRabin.SquareRootOfOne | examples/RSA/RSA.js:38-43 | modulo a prime the only square roots of one are 1 and -1 |
| MillerRabin.PrimePasses | examples/RSA/RSA.js:25-53 | no base from 1 to n-1 is a witness against a prime n |
| MillerRabin.CompositeWitness | examples/RSA/RSA.js:25-53 | every odd composite has a witness among the bases from 2 to n-2 |
| MillerRabin.ExactOverAllDraws | examples/RSA/RSA.js:19-53 | for any k ≥ 1, n is prime if and only if isPrime accepts it for every k draws: a refusal certifies compositeness |
| MillerRabin.TrialDivisionExact | examples/RSA/RSA.rb:12-15 | trial division up to the integer square root accepts exactly the primes |
| Digits.PrintParse | examples/RSA/RSA.js:108-112 | a number printed in any base and parsed again is the number |
| Digits.ParsePrint | examples/RSA/RSA.js:119-124 | a numeral parsed and printed again loses exactly its leading zeros |
| RsaCodec.BigIntToStringLoop | examples/RSA/RSA.js:123-130 | the units of a number's hexadecimal numeral two characters at a time, the sign of a negative number taking the place of one |
| RsaCodec.ReadChunks | examples/RSA/RSA.js:126-128 | the slicing loop takes a numeral two digits at a time from the left, a lone last digit by itself |
| RsaCodec.NegativeText | examples/RSA/RSA.js:123-130 | of a negative number the sign and the first digit d are read together as the unit 0x10000 - d, and the rest two digits at a time |
| RsaCodec.RoundTrip | examples/RSA/RSA.js:118-130 | encoding fails exactly on the empty text; encoding and decoding returns the text if and only if all units are at most 0xFF and it is one unit long or starts with a unit of at least 0x10 |
| RsaCodec.ReadsAs | examples/RSA/RSA.js:118-130 | exactly which numbers decode to a text: its own number and, when its last unit is below 0x10, the number with that unit written with one digit |
| RsaCodec.LeadingDigitLost | examples/RSA/RSA.js:118-130 | the units 5 and 65 come back as 84 and 1 |
| RsaCodec.NumberAppend | examples/RSA/RSA.js:118-121 | one more unit multiplies the number by 0x100, 0x1000 or 0x10000, by its size, and adds the unit |
| RsaCodec.LatinNumber | examples/RSA/RSA.js:118-121 | a text of units up to 0xFF is encoded as the number its units are in base 256 |
| RsaCodec.PairExactly | examples/RSA/RSA.js:119 | a surrogate pair is a unit with leading bits 110110 and one with 110111 |
| RsaCodec.PairsCollide | examples/RSA/RSA.js:118-121 | texts that differ only in the second unit of a surrogate pair have one number |
| Rsa.GenerateKeypair | examples/RSA/RSA.js:90-102 | both halves have modulus p·q, the public exponent is 65537, and the private exponent sends it to its greatest common divisor with (p-1)(q-1), so inverts it exactly when they are coprime |
| Rsa.RecoversNumber | examples/RSA/RSA.js:104-116 | for distinct primes and inverse exponents, decrypting the encryption of any m < p·q gives m |
| Rsa.RepeatedPrime | examples/RSA/RSA.js:91-93 | with p = q, p and 0 have the same encryption |
| Rsa.SharedFactor | examples/RSA/RSA.js:94-96 | when the exponent shares a factor with p-1, some message other than 1 encrypts to 1 |
| Rsa.RecoversExactly | examples/RSA/RSA.js:90-116 | a generated pair recovers every number below the modulus if and only if p ≠ q and 65537 is coprime to (p-1)(q-1) |
| Rsa.Ciphertext | examples/RSA/RSA.js:90-109 | the ciphertext of a nonempty text with number m is the decimal numeral of m^65537 modulo p·q |
| Rsa.TextRecovered | examples/RSA/RSA.js:104-130 | with a sound pair, for every text: decrypting its encryption gives it back if and only if the codec can carry it and either its number is below the modulus or, its last unit being below 0x10, its number modulo the modulus is the one with that unit written with one digit |
| Rsa.RsaInstance.constructor | examples/RSA/RSA.js:1-7 | the object holds the pair generated from the drawn primes |
| Rsa.RsaInstance.Encrypt | examples/RSA/RSA.js:104-109 | composes codec, modular power and decimal printing; fails exactly on the empty text |
| Rsa.RsaInstance.Decrypt | examples/RSA/RSA.js:111-116 | an error when BigInt reads no number in the text; otherwise modular power, signs included, and codec |
| EllipticCurve.IsOnCurveMeans | examples/ELIPTIC_CURVES/ElipticCurves.py:11-13 | the test accepts exactly the pairs satisfying the curve equation modulo p |
| EllipticCurve.FermatInverse | examples/ELIPTIC_CURVES/ElipticCurves.py:15-17 | x^(p-2) is the inverse of every x that p does not divide, and 0 for the others |
| EllipticCurve.ChordSlope | examples/ELIPTIC_CURVES/ElipticCurves.py:35 | the slope times the difference of abscissas is the difference of ordinates, modulo p |
| EllipticCurve.TangentSlope | examples/ELIPTIC_CURVES/ElipticCurves.py:33 | the slope times 2y is 3x² + a, modulo p |
| EllipticCurve.ThirdOnCurve | examples/ELIPTIC_CURVES/ElipticCurves.py:37-40 | the reflected third intersection of a line with the curve is a reduced curve point |
| EllipticCurve.AddClosed | examples/ELIPTIC_CURVES/ElipticCurves.py:19-40 | for prime p > 3 the sum of reduced curve points is the identity or a reduced curve point, doubling a point with y = 0 apart |
| EllipticGroup.AddCommutes | examples/ELIPTIC_CURVES/ElipticCurves.py:19-40 | the code's addition commutes on all reduced points and the identity |
| EllipticGroup.OppositeIsNegation | examples/ELIPTIC_CURVES/ElipticCurves.py:29-30 | curve points with equal abscissas are equal or opposite |
| EllipticGroup.Cancellation | examples/ELIPTIC_CURVES/ElipticCurves.py:19-40 | adding the negation of a summand gives back the other one |
| EllipticGroup.SumAssociates | examples/ELIPTIC_CURVES/ElipticCurves.py:19-40 | the group operation is associative on every nonsingular curve, in all cases of equal, opposite and repeated points |
| EllipticGroup.AbelianGroup | examples/ELIPTIC_CURVES/ElipticCurves.py:7-40 | closure, commutativity, associativity, identity and inverses together |
| CurveArithmetic.ClosedExactly | examples/ELIPTIC_CURVES/ElipticCurves.py:19-40 | on a nonsingular curve the code's sum is a curve point or the identity if and only if it is not a doubling of a point with y = 0 and x ≠ 0 |
| CurveArithmetic.IdentityExactly | examples/ELIPTIC_CURVES/ElipticCurves.py:29-40 | two finite points add to the identity if and only if one is the negation of the other and y ≠ 0 |
| CurveArithmetic.MultipleAdd | examples/ELIPTIC_CURVES/ElipticCurves.py:46-57 | the j-fold and k-fold sums of a point add to the (j+k)-fold sum |
| CurveArithmetic.NoEarlyMeeting | examples/ELIPTIC_CURVES/ElipticCurves.py:51-55 | when 2^i times a point has y = 0, no smaller multiple equals it, so the accumulator never meets it |
| CurveArithmetic.ScalarMultiplication | examples/ELIPTIC_CURVES/ElipticCurves.py:46-57 | the loop ends, and on a nonsingular curve gives the k-fold sum, a curve point, whenever no doubling whose result it uses starts from y = 0 |
| CurveArithmetic.LostAtDouble | examples/ELIPTIC_CURVES/ElipticCurves.py:46-57 | when 2^i times the point has y = 0, the loop is wrong for every positive multiple of 2^(i+1) |
| CurveArithmetic.ExactOverAllScalars | examples/ELIPTIC_CURVES/ElipticCurves.py:46-57 | the loop gives the k-fold sum for every k if and only if no power-of-two multiple of the point has y = 0 |
| CurveArithmetic.ExactAtOrigin | examples/ELIPTIC_CURVES/ElipticCurves.py:46-57 | when 2^i times the point is (0, 0), the loop is right for a scalar if and only if it has no bits above i, or its bits up to i already give (0, 0), or they give another finite point and the one bits above i are even in number |
| CurveArithmetic.UnsafeYetRight | examples/ELIPTIC_CURVES/ElipticCurves.py:46-57 | over F_7 the loop meets a point with y = 0 and is right for the scalar 13 all the same, so for one scalar the condition is not necessary |
| CurveArithmetic.ExampleCurve | examples/ELIPTIC_CURVES/ElipticCurves.py:59-73 | the example's curve and point are valid, and the curve has the point (96, 0), for which the loop is wrong at the scalar 2 |
| CurveArithmetic.InversesAgree | examples/ELIPTIC_CURVES/ElipticCurves.rb:20-31 | the inverse the Ruby loop finds is x^(p-2) modulo p |
| CurveArithmetic.RubyPointAddition | examples/ELIPTIC_CURVES/ElipticCurves.rb:33-55 | raises exactly when the inverse it needs does not exist, and otherwise gives the Python sum |
| CurveArithmetic.RaisesOnlyAtOrderTwo | examples/ELIPTIC_CURVES/ElipticCurves.rb:33-55 | on reduced points it raises if and only if a point with y = 0 is doubled |
| CurveArithmetic.RubyScalarMultiplication | examples/ELIPTIC_CURVES/ElipticCurves.rb:62-74 | on a valid curve and point it raises if and only if some 2^i ≤ k has 2^i times the point with y = 0, and otherwise gives the k-fold sum |
| Bits.RotateByShifts | examples/SHA/SHA256.c:6-12 | the two shifts joined by or are the 32-bit rotation |
| Bits.ComplementSelects | examples/SHA/SHA.py:60 | the unbounded complement and the 32-bit one select the same bits of a word |
| Sha256Bits.XorBit | examples/SHA/SHA256.c:7-12 | bit k of the exclusive or is whether bits k differ; likewise AndBit and OrBit for the other two |
| Sha256Bits.RotrBit | examples/SHA/SHA256.c:6 | bit k of a rotation by n is bit (k+n) mod 32 |
| Sha256Bits.ChBit | examples/SHA/SHA256.c:7 | each bit of the first word chooses between the bits of the other two |
| Sha256Bits.MajBit | examples/SHA/SHA256.c:8 | each bit is that of at least two of the three words |
| Sha256Bits.BigSigmaBits | examples/SHA/SHA256.c:9-10 | bit k is the parity of bits k+2, k+13, k+22, or k+6, k+11, k+25, counted around |
| Sha256Bits.SmallSigmaBits | examples/SHA/SHA256.c:11-12 | bit k is the parity of bits k+7, k+18 around and k+3, or k+17, k+19 around and k+10, the last one only if it is within the word |
| Sha256Bits.BitsDecide | examples/SHA/SHA256.c:6-12 | words with equal bits are equal, so the bits determine the six functions |
| Sha256Constants.PrimesInOrder | examples/SHA/SHA.py:17-27 | the table's entries are the first 64 primes: each is the next prime after the one before |
| Sha256Constants.RoundConstants | examples/SHA/SHA.py:17-27 | the i-th round constant is the first 32 bits of the fractional part of the cube root of the i-th prime |
| Sha256Constants.InitialRegisters | examples/SHA/SHA.py:7-15 | the initial registers are the first 32 bits of the fractional parts of the square roots of the first eight primes |
| Sha256.HashBlocksAppend | examples/SHA/SHA.py:38-82 | hashing the blocks of x ++ y is hashing those of y from where x left off |
| Sha256.PadLength | examples/SHA/SHA.py:30-35 | the padded length is the least multiple of 64 that is at least the length plus nine |
| Sha256.PadInjective | examples/SHA/SHA.py:30-35 | messages under 2^61 bytes with equal padding are equal |
| Sha256.HexOfDigest | examples/SHA/SHA256.c:150-155 | the digest's bytes printed are its eight words printed |
| Sha256Stream.Transform | examples/SHA/SHA256.c:38-79 | in place, the state becomes the standard's compression of the old state and the block |
| Sha256Stream.Context.constructor | examples/SHA/SHA256.c:81-85 | a fresh context has absorbed nothing |
| Sha256Stream.Context.Update | examples/SHA/SHA256.c:87-97 | appends the data to the bytes absorbed, keeping that state, counters and live buffer are determined by them with datalen < 64 |
| Sha256Stream.Context.PadTail | examples/SHA/SHA256.c:100-114 | both tail cases: what the buffer holds and which block, if any, was compressed |
| Sha256Stream.Context.Final | examples/SHA/SHA256.c:99-137 | the state becomes the hash of all blocks of the padded bytes, whose length field is the bit count modulo 2^64, and the digest is written out |
| Sha256Stream.FinalShort | examples/SHA/SHA256.c:102-106 | when the rest leaves room, the one block made is the last block of the padded message |
| Sha256Stream.FinalLong | examples/SHA/SHA256.c:107-114 | when it does not, the two blocks made are the last two |
| Sha256Stream.ChunkingIrrelevant | examples/SHA/SHA256.c:87-97 | two contexts that absorbed the same bytes in any chunks have equal state, counters and live buffer |
| Sha256Stream.Sha256C | examples/SHA/SHA256.c:139-148 | for every message, the digest of its padding with the bit count modulo 2^64 |
| Sha256OneShot.RightRotateIs | examples/SHA/SHA.py:3-4 | the unbounded shifts and mask are the 32-bit rotation |
| Sha256OneShot.ProcessChunk | examples/SHA/SHA.py:38-82 | one turn of the outer loop is the standard's compression |
| Sha256OneShot.AppendPadding | examples/SHA/SHA.py:31-33 | the loop appends the marker and exactly as many zeros as the standard |
| Sha256OneShot.Sha256Py | examples/SHA/SHA.py:6-85 | the hexadecimal digest of the padded message, or the packing error from 2^61 bytes on |
| Sha256OneShot.BothAgree | examples/SHA/SHA256.c:139-155 | for every message under 2^61 bytes the C digest, printed, is the Python answer |
| TxtDb.SplitLine | openssl-master/crypto/txt_db/txt_db.c:77-108 | the character loop splits at unescaped tabs, drops the backslash before a tab, and fails on a wrong number of fields |
| TxtDb.ReadRows | openssl-master/crypto/txt_db/txt_db.c:20-125 | comments are skipped as far as the growing buffer holds them, an unterminated last line is dropped, one bad line fails the whole |
| TxtDb.WriteRows | openssl-master/crypto/txt_db/txt_db.c:187-232 | every row becomes one line, its tabs escaped |
| TxtDb.LineRoundTrip | openssl-master/crypto/txt_db/txt_db.c:77-225 | a written row is split into itself if and only if no field but the last ends in a backslash |
| TxtDb.FileRoundTrip | openssl-master/crypto/txt_db/txt_db.c:20-232 | a written database is read back unchanged if and only if every row is persistable |
| TxtDb.ReadPersists | openssl-master/crypto/txt_db/txt_db.c:20-125 | every row that is read has its number of fields and could be written and read again |
| TxtDb.BackslashLost | openssl-master/crypto/txt_db/txt_db.c:77-225 | the row of a backslash and an "a" is not read back |
| TxtLines.LineExactly | openssl-master/crypto/txt_db/txt_db.c:77-108 | exactly which lines are read as a row: its own line and, when the last field does not end in a backslash, that line with one tab more, provided no other field ends in a backslash |
| TxtLines.GrownLeast | openssl-master/crypto/txt_db/txt_db.c:55-70 | the buffer grows by steps of 512, and by no more of them than a line needs |
| TxtLines.FileExactly | openssl-master/crypto/txt_db/txt_db.c:55-115 | with comments under 511 characters a file is read as its lines are: comments and what follows the last newline are left out, one bad line fails the whole |
| TxtLines.LongComment | openssl-master/crypto/txt_db/txt_db.c:61-66 | of a longer comment what does not fit in the buffer is read as a line of its own |
| Serials.PrintedSerial | openssl-master/crypto/bn/bn_conv.c:15-194 | a serial number's text has an even number of hexadecimal digits and is read back as the number |
| Serials.HexDigits | openssl-master/apps/ca.c:718-725 | the hexadecimal digits are the decimal ones and the first six letters in both cases, whose values LetterValues gives |
| Serials.CanonicalExactly | openssl-master/crypto/bn/bn_conv.c:15-47 | exactly which texts are printed: whole bytes of upper-case digits, no leading zero byte but in "00", and no minus sign before zero |
| Serials.KeysAgree | openssl-master/apps/lib/apps.c:1455-1473 | two texts have one key exactly when they differ in leading zeros only |
| Serials.PrintedKeys | openssl-master/apps/lib/apps.c:1455-1473 | under the index, which ignores leading zeros, printed serials collide only when they are the same number |
| Serials.SameKey | openssl-master/apps/lib/apps.c:1455-1473 | well-formed serials that the index takes for the same are the same number |
| Serials.CaseSplitsNumber | openssl-master/apps/lib/apps.c:1455-1473 | "0a" and "0A" are well formed, the same number, and different for the index |
| Revocation.FindReason | openssl-master/apps/ca.c:2354-2364 | the first reason named, whatever the case of the letters |
| Revocation.CaseIgnored | openssl-master/apps/ca.c:2354-2364 | changing the case of letters does not change which reason a text names |
| Revocation.MakeRevocationString | openssl-master/apps/ca.c:2341-2423 | fails exactly on an unknown reason, object identifier or time; otherwise time, canonical reason and argument |
| Revocation.UnpackRevocation | openssl-master/apps/ca.c:2528-2637 | cut at the first two commas, checked and mapped to reason codes |
| Revocation.ReasonCodeIs | openssl-master/apps/ca.c:2571-2588 | the position of a reason in the table gives its code in section 5.3.1 of RFC 5280, removeFromCRL being 8 |
| Revocation.RoundTrip | openssl-master/apps/ca.c:2316-2637 | a request makes a string exactly when it means something, and the string is unpacked into that time, code, hold instruction and invalidity date exactly when the time it was made at is a UTC time |
| Revocation.PartsJoin | openssl-master/apps/ca.c:2545-2558 | the parts, joined by commas, are the field, and the first two hold none |
| Revocation.UnpackAny | openssl-master/apps/ca.c:2528-2637 | every field is taken apart into its meaning: no field without a UTC time, a known reason in any case of letters and the argument that the last three need; what follows the others is ignored |
| CaPolicy.NextIndex | openssl-master/crypto/x509/x509name.c:71-90 | the next entry of the type after a position, or -1 when there is none |
| CaPolicy.PrintableType | openssl-master/crypto/asn1/a_print.c:14-38 | T61String exactly when some character is not ASCII, PrintableString exactly when all are printable, IA5String otherwise |
| CaPolicy.PrintableSigns | openssl-master/crypto/asn1/a_print.c:14-38 | exactly the letters, the digits, the space and the eleven signs of a PrintableString are printable |
| CaPolicy.LegalByTag | openssl-master/apps/ca.c:1488-1532 | what is legal, by the universal tag numbers of the string types |
| CaPolicy.CheckStrings | openssl-master/apps/ca.c:1488-1532 | succeeds exactly when every entry is an unwanted e-mail address or has a type that can hold its characters, IA5String for a wanted e-mail address |
| CaPolicy.MatchInCa | openssl-master/apps/ca.c:1597-1624 | the request's entry exactly when the CA has an equal one |
| CaPolicy.ApplyRule | openssl-master/apps/ca.c:1549-1639 | one rule succeeds exactly when it is satisfied and appends all the request's entries of its type in order |
| CaPolicy.ApplyPolicy | openssl-master/apps/ca.c:1549-1640 | succeeds if and only if every rule is satisfied: known type, known mode, supplied and match types occur, every occurrence of a match type is also in the CA's name; the subject is then, in policy order, all request entries of each type |
| CaPolicy.PolicyGuarantees | openssl-master/apps/ca.c:1549-1640 | of a request that satisfies the policy, every supplied or match type occurs in the subject and every entry of a match type there is one of the CA's |
| CaPolicy.SelectDivides | openssl-master/apps/ca.c:1748-1773 | selecting a type and selecting the others divides the name without loss |
| CaPolicy.SelectPicks | openssl-master/apps/ca.c:1748-1773 | the selected entries are those at the positions of the type, or of the others, in order |
| CaPolicy.SelectedInOrder | openssl-master/apps/ca.c:1549-1640 | the selection lists every pair of a rule and an entry of its type once, by rule and then by entry |
| CaPolicy.RemoveEmail | openssl-master/apps/ca.c:1748-1773 | the deleting loop leaves exactly the entries that are not e-mail addresses, in order |
| CaDatabase.CheckSerial | openssl-master/apps/ca.c:707-725 | accepts exactly an optional minus and a positive even number of hexadecimal digits |
| CaDatabase.CheckRows | openssl-master/apps/ca.c:690-726 | succeeds exactly when every row passes: no revocation date unless revoked, a revoked row's date unpacks, expiry date and serial are well formed |
| CaDatabase.IndexSerials | openssl-master/crypto/txt_db/txt_db.c:147-185 | the serial index can be built exactly when serials are pairwise distinct up to leading zeros |
| CaDatabase.IndexNames | openssl-master/apps/lib/apps.c:1736-1759 | the name index can be built exactly when the names of valid rows are distinct, and then holds them |
| CaDatabase.OpenDatabase | openssl-master/apps/ca.c:683-735 | a text is loaded exactly when it parses, all rows pass and both indexes can be built |
| CaDatabase.Database.Add | openssl-master/crypto/txt_db/txt_db.c:234-277 | fails without change on a clash in either index, and otherwise appends the row and indexes it |
| CaDatabase.Database.DoRevoke | openssl-master/apps/ca.c:2093-2197 | the new rows and result in every case, with recursion at most two deep |
| CaDatabase.Database.DoUpdateDb | openssl-master/apps/ca.c:2266-2314 | the new rows and the count or error |
| CaDecisions.NewRow | openssl-master/apps/ca.c:2093-2140 | a certificate's row is valid, unrevoked, with its expiry date, its serial number printed and its subject as name, or the serial when that is empty |
| CaDecisions.SavedLine | openssl-master/apps/include/apps.h:204-209 | a row without tabs is written as status, expiry, revocation, serial, file and name |
| CaDecisions.InsertExactly | openssl-master/crypto/txt_db/txt_db.c:234-277 | inserting fails exactly on a known serial number or a taken subject, and otherwise adds the row at the end and, where names are unique, a valid row's name to the index |
| CaDecisions.RevokeUnknown | openssl-master/apps/ca.c:2126-2172 | an unknown certificate is refused exactly over a taken subject; otherwise its row is added, and revoked exactly when that is asked for with a reason that means something, the call failing but the row staying when it does not |
| CaDecisions.AddedThoughRefused | openssl-master/apps/ca.c:2126-2172 | the empty reason is refused and leaves the certificate in the database as a valid one |
| CaDecisions.RevokeKnown | openssl-master/apps/ca.c:2173-2192 | a known certificate is revoked exactly when its row has its name, is not revoked and revoking is asked for with a reason that means something; only that row changes, and nothing when it fails |
| CaDecisions.UpdateStops | openssl-master/apps/ca.c:2266-2314 | expiring fails exactly when some valid row's date cannot be read; the rows before the first such row are expired by then and the others left alone |
| CaRuns.NewEntryLoads | openssl-master/apps/ca.c:1903-1928 | a new row passes the load check exactly when its expiry date is a time |
| CaRuns.InsertKeeps | openssl-master/apps/ca.c:1804-1928 | inserting a sound row keeps the invariant |
| CaRuns.RevokeKeeps | openssl-master/apps/ca.c:2093-2197 | revoking or adding, successful or not, keeps the invariant |
| CaRuns.UpdateRows | openssl-master/apps/ca.c:2266-2314 | expiring keeps rows sound and changes only a valid status to E |
| CaRuns.UpdateExact | openssl-master/apps/ca.c:2266-2314 | expiring a sound database never fails, marks exactly the valid rows whose date has passed, and answers by how many the valid rows became fewer |
| CaRuns.EmptyDatabase | openssl-master/apps/ca.c:683-735 | the empty text loads as the empty database, which satisfies the invariant |
| CaRuns.OpenedBy | openssl-master/apps/ca.c:690-735 | whatever loads satisfies the invariant, provided every row has a status |
| CaRuns.ReopenExactly | openssl-master/apps/ca.c:690-735 | writable rows are found again, and the database opens exactly when every row passes and both indexes can be built |
| CaRuns.ReopenSucceeds | openssl-master/apps/ca.c:690-735 | a database satisfying the invariant, saved and opened again, loads with the same rows |
| CaRuns.StepKeeps | openssl-master/apps/ca.c:2093-2314 | every step keeps the invariant, whatever the serials and statuses it began with, and moves statuses only from V to E and from anything but R to R |
| CaRuns.EveryRun | openssl-master/apps/ca.c:690-2314 | after any sequence of steps the invariant holds, the database opens again with the same rows, and every row only ever moved V to E or to R, R being absorbing |
| CaRuns.RevokedIffDated | openssl-master/apps/ca.c:692-702 | a row that passes has a revocation date if and only if it is revoked |
| CaRuns.EveryRunFromFile | openssl-master/apps/ca.c:690-2314 | from any file the tool opens, as long as every row has a status: serials and valid subjects stay distinct, a row has a revocation date if and only if it is revoked, and what is saved opens again |
| CaLifecycle.RevokeShape | openssl-master/apps/ca.c:2093-2197 | revoking changes one row that was not revoked, or adds one, or does nothing |
| CaLifecycle.RevocationsCount | openssl-master/apps/ca.c:2093-2197 | over any sequence of steps the number of successful revocations of a serial number is exactly the change in whether it is revoked |
| CaLifecycle.CanBeRevoked | openssl-master/apps/ca.c:2173-2190 | an issued certificate not yet revoked can be, whatever happened in between |
| CaLifecycle.NeverAgain | openssl-master/apps/ca.c:2173-2181 | once revoked, every later attempt to revoke or add it fails and changes nothing |
| CaLifecycle.RevokedExactlyOnce | openssl-master/apps/ca.c:1775-2197 | a certificate issued by do_body can be revoked exactly once |
| CaReload.RevokePersists | openssl-master/apps/ca.c:2093-2197 | a call leaves only rows that can be written and read |
| CaReload.RevokeIndexed | openssl-master/apps/ca.c:2093-2197 | and only serials and valid subjects that the indexes tell apart |
| CaReload.LoadsExactly | openssl-master/apps/ca.c:690-2197 | after a successful call the database can be saved and opened again if and only if an added certificate's expiry date is a time, the moment of a revocation is a UTC time and a row that was there had a status |
| CaReload.LateRevocation | openssl-master/apps/ca.c:2396-2410 | a certificate revoked in 2050 leaves a database that does not open |
| CaReload.NoStatusLost | openssl-master/apps/ca.c:2188-2190 | revoking a row without a status cuts off its expiry date and leaves a database that does not open |
| CaCrl.MakeCrl | openssl-master/apps/ca.c:1183-1204 | the loop lists every revoked row or fails, and asks for version 2 exactly when some entry has a reason |
| CaCrl.CrlExactly | openssl-master/apps/ca.c:1183-1204 | of any rows, the list can be made exactly when every revoked row can be read, and then holds what they say in the order of the rows |
| CaCrl.CrlCounts | openssl-master/apps/ca.c:1183-1204 | of rows that pass the load check the list can always be made, and names a number as often as revoked rows read as it |
| CaCrl.ListedOnceExactly | openssl-master/apps/ca.c:1183-1204 | the list names every number at most once if and only if the revoked rows read as different numbers |
| CaCrl.ListedTwice | openssl-master/apps/ca.c:1183-1204 | a database that opens, with the serials "0a" and "0A", and whose list names 10 twice |
| CaCrl.CrlExact | openssl-master/apps/ca.c:1183-1204 | after any sequence of steps the list can be made and names a number as often as revoked rows read as it; when the run began with printed serials only, each revoked serial number exactly once and no other |
| CaCrl.RevocationReachesCrl | openssl-master/apps/ca.c:1183-2637 | what was said when a certificate was revoked is what every later list says of it |
| CaIssue.MakeSubject | openssl-master/apps/ca.c:1534-1773 | the policy's selection, or the whole request name when preserved, without e-mail entries unless wanted |
| CaIssue.SubjectExactly | openssl-master/apps/ca.c:1534-1773 | a subject exists exactly when every rule is satisfied; it lists the request's entries in policy order, or all when preserved, and of those the ones that are no e-mail address unless addresses are wanted |
| CaIssue.JudgedExactly | openssl-master/apps/ca.c:1447-1943 | certified exactly when readable, verified, legal, allowed by every rule, built, without a clash of serial or subject, agreed and signed; skipped exactly when unverified or, all else in order, not agreed; fatal in all other cases |
| CaIssue.CertifiedRow | openssl-master/apps/ca.c:1775-1928 | the row of a certified request is valid, with the next serial number, the requested date and the subject on one line |
| CaIssue.IssueAppend | openssl-master/apps/ca.c:928-1010 | a batch goes on where its first part ended, and no further after a fatal error |
| CaIssue.IssueOneMore | openssl-master/apps/ca.c:928-1010 | one more request adds its certificate and row, changes nothing, or abandons the batch, as it is judged where the batch then stands |
| CaIssue.Authority.Certify | openssl-master/apps/ca.c:1447-1943 | fatal, skipped or certified in every case, and the row inserted exactly when certified |
| CaIssue.Authority.IssueAll | openssl-master/apps/ca.c:928-1010 | the batch loop: database, serial number, certificates and abandonment; the i-th certificate carries serial0 + i, the database grows by exactly their rows, and the serial number by their number |
| CaIssue.IssueConserves | openssl-master/apps/ca.c:928-1010 | from any point of a batch on: the i-th certificate carries serial0 + i, the database has grown by exactly their rows in order, and the serial number is serial0 plus their number, also when the batch is abandoned |
| CaIssue.BatchConserves | openssl-master/apps/ca.c:928-1010 | the same from the start of any batch |
| CaIssue.BatchKeeps | openssl-master/apps/ca.c:928-1010 | starting above every serial number in use, a batch keeps the database sound and stays above |
| CaIssue.RefusedOnlyForSubject | openssl-master/apps/ca.c:1804-1860 | then an acceptable request is refused only over a subject already taken, never over its serial number |
| CmsSigners.ReadOptions | openssl-master/apps/cms.c:585-675 | the option loop: lists, pending files, list nodes, and its three errors |
| CmsSigners.FileKeyOpt | openssl-master/apps/cms.c:659-674 | a new node unless the last one has the index |
| CmsSigners.SignAll | openssl-master/apps/cms.c:1096-1125 | each signer gets its file, its key file and the first node with its index |
| CmsSigners.KeysPaired | openssl-master/apps/cms.c:585-769 | every signer's key is the -inkey read for it or, when there was none, its own file |
| CmsSigners.SignerPairing | openssl-master/apps/cms.c:585-1128 | as many keys as signers; the signers are all -signer options in order; every -keyopt reaches the pair pending when it was read if and only if no index counted by recipients differs from it; node indices then strictly increase |
| CmsSigners.PendingPair | openssl-master/apps/cms.c:585-1128 | the pending pair is the one its signer and key end up in, and no other signer gets the option |
| CmsSigners.CountedByRecipients | openssl-master/apps/cms.c:644-649 | an accepted command line whose -keyopt is lost to its signer |
| CmsCommandLines.RefusedExactly | openssl-master/apps/cms.c:585-675 | reading stops exactly at a -inkey after one that no signer took, a -keyopt without a pair or recipient, or a recipient that does not load |
| CmsCommandLines.ClosedExactly | openssl-master/apps/cms.c:749-770 | afterwards exactly a key without a signer and the lack of any -signer are refused |
| CmsCommandLines.AcceptedExactly | openssl-master/apps/cms.c:585-770 | over the options alone: accepted exactly when the -signer and -inkey options fall into pairs, a key after its signer or before it where no signer could take it, every recipient read while encrypting loads and every -keyopt has a recipient or a pair before it |
| CmsCommandLines.PairsAccepted | openssl-master/apps/cms.c:585-770 | the signers and keys in the end are those of the pairs, a signer without a key standing for its own |
| CmsCommandLines.SignersWithKeys | openssl-master/apps/cms.c:585-770 | any -signer options with at most one -inkey after each are accepted with those pairs |
| TrainingGroups.GroupSubmodules | examples/NOCRYPTO/portal_coach_controller.py:176-262 | flattening the groups gives the submodules in order, no group is empty, each holds only its own, and neighbouring groups differ |
| TrainingGroups.OnlyGrouping | examples/NOCRYPTO/portal_coach_controller.py:176-262 | there is only one such grouping, the nested run-length grouping by module and then by training |
| Voting.Ballots.RegisterVote | examples/NOCRYPTO/voting_controller.py:183-247 | the stored results and the answer in every case, those stored before an error included |
| Voting.RecordFound | examples/NOCRYPTO/voting_controller.py:190-211 | the jury record is found exactly when it is the only one of the panel and the member |
| Voting.CompleteExactly | examples/NOCRYPTO/voting_controller.py:226-233 | voting is complete exactly when each challenger of the panel has a result under a record of that panel and member |
| Voting.CastSafe | examples/NOCRYPTO/voting_controller.py:190-211 | in a safe store a vote fails only when the challenger or the jury record is not found or it cannot be saved |
| Voting.EveryRunSafe | examples/NOCRYPTO/voting_controller.py:183-247 | after any sequence of calls, failed ones included: at most one result per challenger and jury record, whoever has a valid result has a result for every challenger of the panel, and no result is lost |
| Voting.CompletedMeans | examples/NOCRYPTO/voting_controller.py:226-247 | a call answers completed exactly when the member has voted on the whole panel, and then all those results are valid |
| Voting.VotesStored | examples/NOCRYPTO/voting_controller.py:190-211 | after the votes are stored each challenger voted on has the points of the last vote for it |
| Voting.RegisterStores | examples/NOCRYPTO/voting_controller.py:183-247 | in any store, a call that does not fail leaves the points of the last vote for each challenger voted on |
| Voting.RegisterExactly | examples/NOCRYPTO/voting_controller.py:183-247 | a call fails exactly when the member is unknown or a vote cannot be stored; the votes before that one are stored with the last points given, not valid unless the call completes the panel, and every other result keeps its points, its validity only ever gained by completion |

## Left out

- CurveArithmetic.ScalarMultiplication: for a single scalar the condition is sufficient and provably not necessary (UnsafeYetRight). The exact one is proved where the point with y = 0 that is met is (0, 0) (ExactAtOrigin), for the multiples of 2^(i+1), which always fail (LostAtDouble), and over all scalars (ExactOverAllScalars); where it has x ≠ 0 the loop goes on with points off the curve, to which the group law does not apply.
- MillerRabin.CompositeWitness: which of the bases from 2 to n-2 the random source can draw is not modelled.
- TxtDb.ReadRows: NUL characters, at which the source stops copying a line, are not modelled.
- CaCrl.MakeCrl: lists in database order; the sorting afterwards is the library's.
- Serials.PrintedSerial: no bound on the number of digits; the source refuses more than INT_MAX / 4.
- CaDatabase.Database.DoRevoke: memory allocation failures are not modelled here or anywhere else.
- CaIssue.Authority.Certify: dates, extensions and signing are outcomes of the request, not computed, and the string conversions of the `-msie_hack` switch are not modelled.
- The order of RDN sets inside a name: entries are a flat sequence.
- Which texts JavaScript's BigInt accepts: decryption takes the number it reads or its error.
- Key loading, signing, CRL extensions, saving and rotating files, prompts and printing in `ca.c`.
- The random prime search, its termination and the error probability of Miller-Rabin.
- RSA encryption in `examples/RSA/RSA.rb`, where characters beyond one byte fail; `examples/RSA/RSA.py` and `ElipticCurves.go`, which do not compile as written.
- `examples/SHA/SHA256.js`, whose length field differs from the standard's, and `SHA256.rb`, which repeats the Python form.
- The other OpenSSL applications, the remaining example controllers and password examples, and the repository's own classification scripts: wrappers over library, database or network calls.
