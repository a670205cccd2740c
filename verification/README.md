# BeeCrypt: a verified model of its arithmetic and protocols

This project models the multi-precision integer stack of BeeCrypt and the algorithms on
top of it, and proves what they compute for every input:

- word arrays: carry chains, products, squares, shifts, long division, greatest common
  divisors, modular inverses and octet strings (`mp.c`);
- Barrett reduction and sliding-window exponentiation (`mpbarrett.c`);
- trial division, Miller-Rabin and the construction of primes (`mpprime.c`);
- RSA, DSA and ElGamal (`rsa.c`, `dsa.c`, `elgamal.c`);
- the streaming hash and HMAC (`sha256.c`, `hmac.c`);
- base64 (`base64.c`);
- padding, cipher block chaining and Blowfish (`blockpad.c`, `blockmode.c`, `blowfish.c`).

`dafny verify dfyconfig.toml` checks the whole project.

## How it is modelled

A number is a big-endian array of words in base W = 2^64; `Words.Val` is the number that a
stretch of words denotes, and a C pointer becomes an array with an offset. The loops of the
library are loops here, over the same words in the same order, and each method states its
result through `Val`, so its contract does not repeat its body. What a routine may touch is
part of its contract (`Words.Framed`); operands and results may share memory where the
library lets them.

Choices that every reader should know:

- The word width is 64 bits throughout, and octets are handled as on a machine that is not
  big-endian. Bitwise or of parts that do not overlap is written as addition.
- A workspace that the library cuts out of one allocation is several arrays here. Windows of
  one array are kept where sliding or overlapping is the point: division, the greatest common
  divisor, shifts, in-place reduction and in-place chaining.
- A shift by the whole word width, which `mprshiftlsz` can ask for (`mp.c:1103-1110`), is
  read as zero.
- Randomness is an arbitrary finite source of words (`RandomNumbers.RandomGenerator`). The
  loops that end only by luck return early when it runs out, so what is proved of them holds
  for every sequence of draws, and their termination is not claimed.
- The long division of the library estimates each quotient word from the two leading words
  of the partial remainder and the leading word of the divisor. When the leading words are
  equal, the estimate would need one bit more than a word has, that bit is lost, and the
  quotient word comes out too small. `MpDivide.NoEqualWords` says that this does not happen;
  `MpDivide.MpNDivMod` proves that the quotient is right exactly then, and `MpDivide.MpMod`
  the same of the remainder. A one-word divisor is always safe, W^3/2 divided by W^2/2 + 1 is
  not, and the setup of Barrett's constant goes wrong for the modulus W^2 - W + 1
  (`Barrett.UnhandledModulus`).
- With a wrong constant the searches for primes go on, as the library does. What Miller-Rabin
  then answers, and how many random words it takes, is arbitrary in the model
  (`PrimeSearch.IsProbablePrime`), so the form, the range and the trial divisions of what is
  found are proved for every run, and Miller-Rabin for those moduli whose setup is right.
- The workspace of `mpbrnd_w` inside `mppmilrab_w` is the buffer that holds n - 1; it is
  overwritten there with the same value (`mpprime.c:871`), which the model keeps.

Where the code and what its documentation or its names promise part, the code is followed:

- `rsavrfy` is documented as taking a message m and a number c made from it with the private
  key (`include/beecrypt/rsa.h:100-113`), but it raises m to the public exponent: the
  signature has to be passed as m. See `Rsa.SignatureAccepted`, and `Rsa.DocumentedOrder` for
  when the documented order is accepted.
- `mpprndr_w` promises p <= max (`mpprime.c:901`), but the least significant bit is set after
  the range check. A candidate is max + 1 for some draw just when max is even
  (`PrimeSearch.MaxMayBePassed`); it can be found only when max + 1 is coprime to the product of
  small primes as well (`PrimeSearch.MpPRndR`), and as a prime it is not rejected afterwards:
  59 for six bits and max = 58 (`PrimeSearch.FiftyNineSurvives`).
- `mpprndconone_w` is to make p - 1 coprime to f (`mpprime.c:974`), but it writes f over
  p - 1 and compares it with what the second operand holds (`mpprime.c:1034-1042`). For a p
  longer than the table of products that is the last product, so f alone decides: an f with a
  small factor is never served, and any other is never compared with p - 1. The promise holds
  just when f is odd and coprime to q and s (`PrimeConstruction.PromiseKept`); it fails for
  f = q = 1481 (`PrimeConstruction.KeptWithCommonFactor`).
- `mpgcd_w` shifts the result back in the window that its loop has left, which can be too
  short, or begin in front of the buffer, when both operands are even. See `MpGcd.MpGcdW`.
- `mpprndconone_w` hands back r = 2 s in the words of s, which drops the top bit when the
  bits of s fill their words. See `PrimeConstruction.StoredCofactor`.
- `b64decode` is said to ignore white space, but reads the character before the fourth one
  when it looks for padding (`base64.c:423`), so white space between two padding symbols adds
  a byte. See `Base64.WhiteSpaceAnywhere`.
- `pkcs5Unpad` accepts a last byte of zero, which no padding ends in. See
  `BlockPad.UnpadAcceptsPadded`.
- An exponentiation with a zero exponent writes nothing, so the verifications go by what the
  buffer held before: y^r in `elgv1vrfy` for a zero hash (`ElGamal.Completeness1`), and words
  that were never written in `elgv3vrfy`, `dsavrfy` and `rsavrfy`. Those are the ghost results
  `left` and `right` of the methods here.

## Main results

- Barrett reduction is exact although it leaves out half of the partial products: the
  estimated quotient is never high and low by at most three (section 14.3.3 of the Handbook
  of Applied Cryptography).
- The modular inverse exists just when the routine says so, and its signed coefficients never
  outgrow their words.
- Miller-Rabin accepts exactly the strong probable primes to the bases it uses, and never
  rejects an odd prime; this rests on a proof of Fermat's little theorem by the binomial
  theorem.
- RSA decryption by the Chinese remainder theorem is plain decryption, and decryption undoes
  encryption (section 5.1 of RFC 3447).
- What dsasign returns (sections 4.6 and 4.7 of FIPS 186-4) with r and s not zero, for a hash that
  has no more bits than q and that q does not divide, is accepted by dsavrfy just when the long
  division of g^k mod p by q meets no equal leading words. For a hash that q divides the verdict
  hangs on a buffer that was not written.
- A signature of ElGamal variant 1 or 3 is accepted just when s is not zero, for every hash that
  is not zero; for a zero hash the verdict hangs on the reused or unwritten buffer.
- The hash of a message does not depend on how it is cut into pieces (section 5.1.1 of
  FIPS 180-2), and HMAC is the nested hash of section 2 of RFC 2104.
- Base64 (section 4 of RFC 4648), octet strings (sections 4.1 and 4.2 of RFC 3447) and padded
  cipher block chaining (section 6.2 of NIST SP 800-38A) are round trips.

## Model

| member | source | states |
|---|---|---|
| MpCompare.MpGe | beecrypt/mp.c:222-233 | compares the values of two word arrays; true just when the first is not smaller |
| MpCompare.MpGt | beecrypt/mp.c:156-167 | true just when the first value is greater |
| MpCompare.MpGex | beecrypt/mp.c:237-251 | the same comparison for numbers of different lengths, whatever the leading words hold |
| MpCompare.MpGtx | beecrypt/mp.c:171-185 | strict comparison for numbers of different lengths |
| MpCompare.MpEqx | beecrypt/mp.c:103-117 | equality of values for numbers of different lengths |
| MpCompare.MpIsOne | beecrypt/mp.c:329-340 | true just when the value is one |
| MpCompare.MpLeOne | beecrypt/mp.c:376-388 | true just when the value is at most one |
| MpAddSub.MpSetx | beecrypt/mp.c:490-504 | copies a number into another length: the value modulo W^xsize |
| MpAddSub.ResizedIsMod | beecrypt/mp.c:490-504 | what a shorter copy keeps is the value modulo the new capacity, and all of it when it fits |
| MpAddSub.MpAdd | beecrypt/mp.c:532-549 | value plus carry * W^size is the sum, also when both operands are the same window |
| MpAddSub.MpAddw | beecrypt/mp.c:508-528 | adds a word; value plus carry * W^size is the sum |
| MpAddSub.MpAddx | beecrypt/mp.c:553-565 | adds a number of another length |
| MpAddSub.MpSub | beecrypt/mp.c:593-610 | value minus borrow * W^size is the difference |
| MpAddSub.MpSubw | beecrypt/mp.c:569-589 | subtracts a word, with the borrow |
| MpAddSub.MpSubx | beecrypt/mp.c:614-626 | subtracts a number of another length |
| MpAddSub.MpNeg | beecrypt/mp.c:630-634 | two's complement negation: W^size - v modulo W^size |
| MpMultiply.MpSetMul | beecrypt/mp.c:638-690 | word multiple: value plus carry * W^size is the product |
| MpMultiply.MpAddMul | beecrypt/mp.c:694-753 | multiply and accumulate, with the carry word |
| MpHalfWord.SetMulBranchesAgree | beecrypt/mp.c:640-688 | the half-word branch of mpsetmul yields the same word and carry as the double-word branch, for all operands |
| MpHalfWord.AddMulBranchesAgree | beecrypt/mp.c:696-751 | the same for mpaddmul |
| MpHalfWord.AddSqrBranchesAgree | beecrypt/mp.c:798-852 | the same for a step of mpaddsqrtrc |
| MpMultiply.MpMul | beecrypt/mp.c:757-792 | the exact product in xsize + ysize words, whichever operand is longer |
| MpMultiply.SquareSplit | beecrypt/mp.c:858-882 | a square is twice the off-diagonal products plus the diagonal |
| MpMultiply.MpAddSqrTrc | beecrypt/mp.c:796-854 | adds the squares of the words along the diagonal, without a carry lost |
| MpMultiply.MpSqr | beecrypt/mp.c:858-882 | the exact square, which is what mpmul gives for equal operands |
| MpShift.MpMulTwo | beecrypt/mp.c:940-952 | doubles, with the carry |
| MpShift.MpDivTwo | beecrypt/mp.c:916-926 | halves, rounding down |
| MpShift.MpSDivTwo | beecrypt/mp.c:930-936 | halves a two's complement number, rounding down |
| MpShift.MpMszCnt | beecrypt/mp.c:956-977 | counts the leading zero bits of the whole number |
| MpShift.MpBits | beecrypt/mp.c:900-903 | the bit length n: 2^(n-1) <= value < 2^n, zero just for zero |
| MpShift.MpLShift | beecrypt/mp.c:1005-1035 | value * 2^count modulo W^size, for every count |
| MpShift.MpRShift | beecrypt/mp.c:1039-1069 | value / 2^count, for every count |
| MpShift.MpNorm | beecrypt/mp.c:907-912 | shifts to the top bit, without losing any, and returns the shift |
| MpShift.MpRShiftLsz | beecrypt/mp.c:1073-1124 | splits a number into an odd one times the power of two that is returned |
| MpDivide.MpPNDiv | beecrypt/mp.c:1293-1318 | the digit estimate: floor of the double word by the word, the 65th bit dropped |
| MpDivide.EstimateBounds | beecrypt/mp.c:1381-1388 | with a normalized divisor and a smaller leading word the estimate is never low and at most two too high |
| MpDivide.EqualWords | beecrypt/mp.c:1299-1316 | with equal leading words the estimate is at most one although the digit is at least two |
| MpDivide.Digit | beecrypt/mp.c:1381-1391 | one step of the division: the corrected digit and what remains |
| MpDivide.MpNDivMod | beecrypt/mp.c:1362-1393 | for a normalized divisor the quotient is exact just when no partial remainder starts with the divisor's leading word, and then the remainder is exact too |
| MpDivide.SingleWordNeverEqual | beecrypt/mp.c:1299-1316 | a divisor of one word never meets that case |
| MpDivide.StrayWord | beecrypt/mp.c:1337-1349 | in that case a word is left in front of the remainder |
| MpDivide.UnhandledDivision | beecrypt/mp.c:1299-1316 | W^3/2 divided by W^2/2 + 1 meets it |
| MpDivide.MpMod | beecrypt/mp.c:1322-1358 | x mod y in as many words as x has, exactly when the division does not meet that case |
| MpGcd.MpGcdW | beecrypt/mp.c:1134-1184 | for all positive operands, the greatest common divisor modulo W^n, where n counts the words that the loop leaves and the words that the shift gives back; so the buffer holds the greatest common divisor just when that is below W^n, and always when the common power of two is one of W, as with an odd operand; words in front of the buffer that take part are cleared |
| MpGcd.OneJustWhenCoprime | beecrypt/mp.c:1134-1184 | what is left is one just when the operands are coprime, for two even operands too |
| MpGcd.GcdRound | beecrypt/mp.c:1157-1174 | a round turns two numbers into the smaller odd part and the difference of the odd parts |
| MpGcd.StepKeepsGcd | beecrypt/mp.c:1157-1165 | what a round makes of two numbers that are not both even has the same greatest common divisor, and is not both even either |
| MpGcd.GcdOfOddParts | beecrypt/mp.c:1149-1155 | the greatest common divisor is that of the odd parts times the power of two in common |
| MpGcd.TopBitLost | beecrypt/mp.c:1167-1183 | for two operands 3 * 2^63 in two words, n is one and the top bit is lost |
| MpGcd.WordInFront | beecrypt/mp.c:1176-1183 | for two operands W^2 in three words, n is four, so the word in front of the buffer is written |
| MpInverse.MpExtGcdW | beecrypt/mp.c:1190-1289 | returns 1 just when the operands are coprime, and then the reduced inverse of y modulo x; otherwise the result is left alone |
| MpInverse.RoomForCoefficients | beecrypt/mp.c:1202-1250 | the signed coefficients fit size + 1 words in every round, for sizes up to 2^48 words |
| MpInverse.AfterSubtraction | beecrypt/mp.c:1251-1262 | u = a x + b y and v = c x + d y, and the bound on the coefficients, hold again after a round |
| MpInverse.Inverted | beecrypt/mp.c:1265-1284 | the coefficient of y, made positive and cut to size words, is the inverse |
| Octets.I2osp | beecrypt/mp.c:1461-1502 | succeeds just when the value is below 256^ossize; the string then holds the big-endian octets of the value, and nothing behind it changes |
| Octets.Os2ip | beecrypt/mp.c:1504-1552 | succeeds just when the octets denote a value below W^isize, and then writes the words of that value |
| Octets.RoundTrip | beecrypt/mp.c:1461-1552 | words come back from their octets word for word, and octets from their words, whenever the other form can hold the number |
| Octets.SignificantOctets | beecrypt/mp.c:1466-1469 | the count of significant octets is the least n with value < 256^n |
| Octets.RequiredWords | beecrypt/mp.c:1515-1517 | the words asked for suffice just when the value fits |
| Barrett.SkippedError | beecrypt/mpbarrett.c:333-353 | what the skipped partial products amount to is at least zero and below the bound j (W-1) W^(k-1) |
| Barrett.QuotientEstimate | beecrypt/mpbarrett.c:326-373 | the estimate of the quotient is never high and low by at most three |
| Barrett.LowProduct | beecrypt/mpbarrett.c:355-364 | the low size + 1 words of q3 * m |
| Barrett.SubtractModulus | beecrypt/mpbarrett.c:369-370 | the closing loop leaves x mod m, from a value below four times the modulus |
| Barrett.MpBMod | beecrypt/mpbarrett.c:326-373 | exactly x mod m for every x of 2 size words, for a modulus with its mu |
| Barrett.MpBMu | beecrypt/mpbarrett.c:233-250 | restores the modulus, and stores mu = floor(W^(2 size) / m) just when the division meets no equal leading words |
| Barrett.SingleWordExact | beecrypt/mpbarrett.c:233-250 | the setup is exact for every modulus of one word |
| Barrett.UnhandledModulus | beecrypt/mpbarrett.c:233-250 | it is not for the modulus W^2 - W + 1 |
| BarrettArith.MpBAddMod | beecrypt/mpbarrett.c:405-415 | the reduced sum |
| BarrettArith.MpBSubMod | beecrypt/mpbarrett.c:422-433 | the reduced difference, raised until it is not negative |
| BarrettArith.MpBMulMod | beecrypt/mpbarrett.c:440-452 | the reduced product |
| BarrettArith.MpBSqrMod | beecrypt/mpbarrett.c:459-471 | the reduced square |
| Power.Tables | beecrypt/mpbarrett.c:524-531 | for every window n of l bits with a leading one: n = (2 mulg + 1) 2^postsq and presq + postsq = l |
| Power.MpBSlide | beecrypt/mpbarrett.c:510-522 | the table holds the odd powers of x |
| Power.ScanBit | beecrypt/mpbarrett.c:607-641 | one bit of the exponent keeps the result and the pending window equal to the power read so far |
| Power.MpBPowModSld | beecrypt/mpbarrett.c:570-664 | x^e mod m for every exponent, from the table |
| Power.MpBPowMod | beecrypt/mpbarrett.c:536-568 | x^e mod m for every x and e > 0; for a zero exponent the result is left as it was |
| Power.MpBTwoPowMod | beecrypt/mpbarrett.c:670-731 | 2^e mod m for every e, so what mpbpowmod gives for x = 2 |
| Power.ReducedDouble | beecrypt/mpbarrett.c:715-722 | a doubled residue is reduced by one subtraction when it carries or reaches the modulus |
| RandomNumbers.RandomGenerator.Next | beecrypt/mpbarrett.c:266 | delivers the next words of an arbitrary finite source, or nothing |
| RandomNumbers.MpBRnd | beecrypt/mpbarrett.c:257-273 | the first draw whose low bits, as many as m has, exceed one modulo m - 1; so 1 < r < m - 1; each draw takes size words |
| RandomNumbers.MaskedWord | beecrypt/mpbarrett.c:268 | masking a word takes its top bits away and keeps the others |
| RandomNumbers.MaskedDraw | beecrypt/mpbarrett.c:266-268 | a masked draw is the draw modulo the power of two of the bits that are left |
| RandomNumbers.FirstDraw | beecrypt/mpbarrett.c:264-272 | one round of the search: the draw modulo 2^bits, modulo m - 1, is taken when it exceeds one, and otherwise the next words decide |
| RandomNumbers.DrawnBounds | beecrypt/mpbarrett.c:257-273 | every number that can be drawn lies strictly between 1 and m - 1 |
| RandomNumbers.MpBRndOdd | beecrypt/mpbarrett.c:280-300 | the first draw that gives an odd number above one when its low bits, as many as m has, are made odd and brought below m - 1 |
| RandomNumbers.ReducedOddIs | beecrypt/mpbarrett.c:290-296 | bringing an odd number below k, which keeps it odd, is reducing it modulo k when k is even, and modulo k - 1 when k is odd |
| RandomNumbers.MpBRndInv | beecrypt/mpbarrett.c:307-319 | the first such number that is coprime to m, odd ones only for an even m, together with its inverse |
| MillerRabin.SquareUntil | beecrypt/mpprime.c:787-799 | the squaring loop accepts just the strong probable primes |
| MillerRabin.MpPMilRabTwo | beecrypt/mpprime.c:780-800 | returns 1 just for strong probable primes to the base two |
| MillerRabin.MpPMilRabA | beecrypt/mpprime.c:805-825 | returns 1 just for strong probable primes to the base a |
| MillerRabin.StrongMeans | beecrypt/mpprime.c:780-825 | for n - 1 = r 2^s with an odd r, a strong probable prime to the base a is an n with a^r = 1, or with a^(r 2^j) = -1 modulo n for j = 0 or some j below s |
| MillerRabin.PrimeIsStrong | beecrypt/mpprime.c:780-825 | an odd prime is a strong probable prime to every base that it does not divide |
| MillerRabin.MpPMilRab | beecrypt/mpprime.c:830-878 | the verdict is that of the base two followed by the bases drawn. What is accepted is a strong probable prime to the base two and to t bases strictly between 1 and n - 1, which are returned: one for t = 0, none for a negative t; each has taken size words of the random source |
| MillerRabin.PrimesPass | beecrypt/mpprime.c:830-878 | no odd prime is ever rejected, whatever is drawn |
| MillerRabin.BasesPassed | beecrypt/mpprime.c:866-877 | a number that is accepted is a strong probable prime to that many bases strictly between 1 and n - 1 |
| MillerRabin.MpPSpPDiv | beecrypt/mpprime.c:759-775 | returns 1 just when the candidate is coprime to the entry of the table for its size, or to the last entry when it is longer than the table |
| MillerRabin.CommonFactor | beecrypt/mpprime.c:759-775 | coprime to the product means that no number above one divides both |
| PrimeSearch.MpPRndBits | beecrypt/mpprime.c:712-753 | stores the candidate of the next words; it lies in the range, or one above an even upper end when the least significant bit is set |
| PrimeSearch.CandidateIs | beecrypt/mpprime.c:742-752 | the candidate is the draw modulo 2^bits, brought from zero to the width of the range, above its lower end, with the least significant bit set if asked for |
| PrimeSearch.ReduceWithin | beecrypt/mpprime.c:746-747 | the loop of subtractions brings a draw down to a number from zero to the width of the range |
| PrimeSearch.WithinIs | beecrypt/mpprime.c:746-747 | that number is the draw modulo the width, and zero only for a draw of zero |
| PrimeSearch.MaxMayBePassed | beecrypt/mpprime.c:712-753 | mpprndbits has a draw whose candidate is above the upper end just when that end is even |
| PrimeSearch.MaxPlusOneSurvives | beecrypt/mpprime.c:919-952 | that candidate is max + 1; when it is a prime, Miller-Rabin does not reject it, whatever is drawn |
| PrimeSearch.FiftyNineSurvives | beecrypt/mpprime.c:919-952 | an input: for six bits, from 32 to 58, the draw 26 gives the prime 59, which trial division lets pass and whose setup is right |
| PrimeSearch.CheckBounds | beecrypt/mpprime.c:907-917 | refuses a minimum with too many bits, a maximum with other than the asked bits, and an empty range |
| PrimeSearch.GoodBounds | beecrypt/mpprime.c:907-917 | the bounds that are not refused, by their numbers of bits |
| PrimeSearch.TestCandidate | beecrypt/mpprime.c:947-951 | keeps the modulus, and sets it up rightly just when MuExact says so; then it refuses no odd prime and accepts what has passed Miller-Rabin |
| PrimeSearch.VettedMeans | beecrypt/mpprime.c:947-951 | what has passed: mu is floor(W^(2 size) / m) just when MuExact says so, and the number then is a strong probable prime to the base two and to as many bases as were asked for |
| PrimeSearch.MpPRndR | beecrypt/mpprime.c:893-955 | what is found in any run is odd, at least min or 2^(bits - 1), at most max made odd or below 2^bits, coprime to the small primes, has p - 1 coprime to f, and has passed Miller-Rabin if its setup was right; what lies above the upper end is one more than it, which happens only for an even end and when trial division lets that number pass; refusals happen just for bad bounds |
| PrimeConstruction.FormCandidate | beecrypt/mpprime.c:1018-1027 | p = 2 q s + 1 with nothing cut off, and the check on its bits is exact |
| PrimeConstruction.DrawCofactor | beecrypt/mpprime.c:989-1016 | s has exactly the bits asked for, also after its lowest bit is set, and meets the demands on the cofactor |
| PrimeConstruction.MpPRndConOne | beecrypt/mpprime.c:960-1066 | what is found in any run is p = 2 q s + 1 with exactly the bits asked for, f is coprime to the operand that was left over, which is the product of small primes when p is longer than the table, so that a longer p is never found for an f that shares a factor with the product; s meets the demands on the cofactor, p is coprime to the small primes, and p, and s if asked for, have passed Miller-Rabin if their setup was right; r is 2 s modulo the words of s |
| PrimeConstruction.ConstructedMeans | beecrypt/mpprime.c:989-1032 | what has been constructed: p = 2 q s + 1, p and s with exactly their bits, for the first kind of cofactor an odd s that q does not divide, for the second an odd s that is coprime to the small primes, and p coprime to them |
| PrimeConstruction.CompareWithF | beecrypt/mpprime.c:1034-1042 | keeps a candidate just when f is coprime to the operand, whatever p is, if the operand is not zero |
| PrimeConstruction.PromiseKept | beecrypt/mpprime.c:974 | p - 1 is coprime to f just when f is odd and coprime to q and to s |
| PrimeConstruction.NotCoprimeYetKept | beecrypt/mpprime.c:974-1042 | for every q that is coprime to the product, f = q and s a multiple of the product, trial division and the comparison keep a p longer than the table although p - 1 has the factor f |
| PrimeConstruction.KeptWithCommonFactor | beecrypt/mpprime.c:974-1042 | an input with the last product of the library: q = f = 1481 and s three times the product give a p of 33 words with all its 2059 bits that is kept, and 1481 divides p - 1 |
| PrimeConstruction.OneModuloQ | beecrypt/mpprime.c:960-967 | p mod q = 1 |
| PrimeConstruction.StoredCofactor | beecrypt/mpprime.c:1059-1060 | the stored r is 2 s just when the bits of s do not fill its words |
| Rsa.RsaPub | beecrypt/rsa.c:35-56 | refuses just m >= n; otherwise m^e mod n for e > 0 |
| Rsa.RsaPri | beecrypt/rsa.c:58-79 | refuses just c >= n; otherwise c^d mod n for d > 0 |
| Rsa.RsaPriCrt | beecrypt/rsa.c:81-150 | for primes of equal size the same as rsapri: c^d mod n |
| Rsa.CrtCorrect | beecrypt/rsa.c:133-144 | the recombined number is c^d modulo p q |
| Rsa.RecombinationFits | beecrypt/rsa.c:139-144 | h q + j2 stays below p q and its words, so nothing overflows |
| Rsa.CrtUnique | beecrypt/rsa.c:81-150 | there is one number below p q with given residues |
| Rsa.RoundTrip | beecrypt/rsa.c:35-79 | decrypting an encrypted message gives it back, for every m < p q |
| Rsa.RsaVrfy | beecrypt/rsa.c:152-177 | accepts just when m < n, c < n and m^e mod n is c; for a zero exponent, c is compared with what the buffer held before |
| Rsa.SignatureAccepted | beecrypt/rsa.c:152-177 | a signature passed as m, with the signed number as c, is accepted |
| Rsa.DocumentedOrder | beecrypt/rsa.c:152-177 | in the documented order, with the signature as c, it is accepted just when m^(e e) mod n is m |
| Rsa.DocumentedOrderRefused | beecrypt/rsa.c:152-177 | which fails for n = 33, e = 3, m = 2 and its signature 29 |
| Dsa.DsaSign | beecrypt/dsa.c:34-94 | k s = h + x r modulo q in any case, and r = (g^k mod p) mod q when that division meets no equal leading words, for the first invertible nonce that is drawn |
| Dsa.DsaVrfy | beecrypt/dsa.c:96-171 | the verdict for all inputs: accepts just when the checks succeed, s is invertible, and the recovered value is reduced to r by a division that meets no equal leading words; for a zero exponent the buffer of the power counts as it is |
| Dsa.AcceptedMeans | beecrypt/dsa.c:96-171 | acceptance written out for the inverse w of s: the checks, and r = (g^(h w mod q) y^(r w mod q) mod p) mod q by a division that meets no equal leading words |
| Dsa.CheckSignature | beecrypt/dsa.c:109-125 | the checks: the hash has no more bits than q, 0 < r < q and 0 < s < q, each of them asked for |
| Dsa.Recovers | beecrypt/dsa.c:143-159 | g^u1 y^u2 mod p is g^k mod p for every signature |
| Dsa.Completeness | beecrypt/dsa.c:34-171 | what dsasign returns with r and s not zero, for a hash that fits and that q does not divide, is accepted by dsavrfy just when g^k mod p is reduced modulo q without meeting equal leading words |
| Dsa.CompletenessWithoutHash | beecrypt/dsa.c:34-171 | for a hash that q divides the verdict hangs on what the unwritten buffer of the power of g holds: r must be what it makes of g^k mod p, reduced without equal leading words |
| ElGamal.ElgV1Sign | beecrypt/elgamal.c:34-69 | r = g^k mod p and k s = h - x r modulo p - 1, for the first invertible nonce that is drawn |
| ElGamal.Negated | beecrypt/elgamal.c:52-54 | negating in two's complement and adding n gives n - x r |
| ElGamal.ElgV1Vrfy | beecrypt/elgamal.c:71-113 | accepts just when 0 < r < p, 0 < s < n and y^r r^s = g^h modulo p, with y^r standing in for g^h when the hash is zero |
| ElGamal.OneRepresentative | beecrypt/elgamal.c:76-86 | of the pairs with the same s and congruent r, no more than one passes the checks |
| ElGamal.Completeness1 | beecrypt/elgamal.c:34-113 | a signature of variant 1 is accepted just when s is not zero and the hash is not zero or y^r is one |
| ElGamal.ElgV3Sign | beecrypt/elgamal.c:115-146 | r = g^k mod p and s = x r + k h modulo p - 1, for the first nonce that is drawn |
| ElGamal.ElgV3Vrfy | beecrypt/elgamal.c:148-190 | accepts just when 0 < r < p, 0 < s < n and y^r r^h = g^s modulo p, with what the buffer held standing in for r^h when the hash is zero |
| ElGamal.Completeness3 | beecrypt/elgamal.c:115-190 | a signature of variant 3 is accepted just when s is not zero and the hash is not zero or the unwritten buffer happens to hold a one modulo p |
| Sha256.Sha256Param.Reset | beecrypt/sha256.c:54-67 | starts an empty message |
| Sha256.InitialState | beecrypt/sha256.c:40-43 | the initial state is the first 32 fractional bits of the square roots of the first eight primes |
| Sha256.Sha256Param.Update | beecrypt/sha256.c:194-227 | appends to the message, however the pieces fall on the blocks: the state is the fold over the whole blocks and the bytes below offset |
| Sha256.Absorb | beecrypt/sha256.c:214-224 | a chunk that fits into the buffer keeps that state |
| Sha256.Sha256Param.Finish | beecrypt/sha256.c:229-272 | the state becomes the fold over the padded message, in one further block or two |
| Sha256.Sha256Param.Digest | beecrypt/sha256.c:274-314 | delivers the hash of everything since the last reset, every four bytes of which denote a word of the state, and resets |
| Sha256.FoldStates | beecrypt/sha256.c:214-268 | the states that the 64-byte blocks lead through, one after the other |
| Sha256.PaddedLayout | beecrypt/sha256.c:229-266 | the padded message is the message, the byte 0x80, zero bytes up to whole blocks, and eight bytes that denote the number of bits modulo 2^64 |
| Sha256.EncodedWords | beecrypt/sha256.c:278-310 | four bytes for each word of the state, which denote it with the most significant byte first |
| Bytes.BigEndianValue | beecrypt/sha256.c:249-256 | n bytes of a number, written with the most significant first, denote it modulo 256^n |
| Sha256.ZerosLeast | beecrypt/sha256.c:235-246 | the padding has the fewest zero bytes possible |
| Sha256.PaddedInjective | beecrypt/sha256.c:229-272 | messages below 2^61 bytes that differ still differ after padding |
| Hmac.HmacSetup | beecrypt/hmac.c:45-90 | refuses just an empty key; otherwise the pads are those of the key, or of its hash when it is longer than a block |
| Hmac.HmacReset | beecrypt/hmac.c:92-100 | starts the inner hash with the inner pad |
| Hmac.HmacUpdate | beecrypt/hmac.c:102-105 | appends to the inner message |
| Hmac.HmacDigest | beecrypt/hmac.c:107-119 | H((K xor opad) || H((K xor ipad) || message)) |
| Hmac.Pads | beecrypt/hmac.c:42-88 | the pads are the key, or its hash when it is longer than a block, filled up with zero bytes, with 0x36 or 0x5c added bit by bit |
| Hmac.NestedHash | beecrypt/hmac.c:92-119 | the code is H(outer || H(inner || message)) for those pads |
| Base64.B64Encode | beecrypt/base64.c:245-321 | the encoding with its line ends, in a buffer that is large enough, ended by its first zero byte |
| Base64.Alphabet | beecrypt/base64.c:247 | the symbols are the characters of the alphabet in their order |
| Base64.QuartetNumber | beecrypt/base64.c:281-299 | the symbols are the digits to the base 64 of the 24 bits that three bytes make, with padding for those missing |
| Base64.WholeLines | beecrypt/base64.c:301-318 | the encoding is cut into lines of cpl symbols, rounded up to four, with a line end after each and after what remains |
| Base64.CapacitySuffices | beecrypt/base64.c:258-267 | the computed size is never exceeded, for every line length and line end |
| Base64.LinesLength | beecrypt/base64.c:263-266 | no more lines are ended than the symbols fill or begin |
| Base64.B64Decode | beecrypt/base64.c:355-443 | returns just the codes and bytes that decoding a string stands for: 3 just for an invalid character, otherwise 2 just when the characters that are not white space do not come in fours |
| Base64.TableEntries | beecrypt/base64.c:366-386 | the table undoes the alphabet, reads the padding as zero, and marks white space and what is invalid |
| Base64.GroupNumber | beecrypt/base64.c:421-426 | a group of four characters gives the 24 bits of its digits, or the first bytes of them when it is padded |
| Base64.PaddingInside | beecrypt/base64.c:408-434 | decoding fails with 1 just when a group before the last one is padded |
| Base64.RoundTrip | beecrypt/base64.c:245-443 | decoding an encoding gives the bytes back, for every line length and every line end of white space |
| Base64.EncodeAndDecode | beecrypt/base64.c:245-443 | decoding what b64encode returns succeeds and gives the same bytes and length, when the line end is a string of white space |
| Base64.NoZeroInLines | beecrypt/base64.c:245-321 | no byte of an encoding is zero, so that it is read to its end |
| Base64.WhiteSpaceAnywhere | beecrypt/base64.c:355-443 | with white space anywhere in an encoding the bytes come back just when they are not one more than a multiple of three or the last two characters stand together; otherwise a zero byte is added |
| Base64.SplitPadding | beecrypt/base64.c:411-426 | an instance: a line feed between the two padding symbols |
| Blowfish.DecryptInvertsEncrypt | beecrypt/blowfish.c:482-542 | decryption inverts encryption for all contents of the tables |
| Blowfish.UndoTwoRounds | beecrypt/blowfish.c:326-327 | two rounds with the keys in the opposite order undo two rounds |
| Blowfish.BlowfishParam.Encrypt | beecrypt/blowfish.c:482-510 | writes the encrypted block, also over the source, and nothing else |
| Blowfish.BlowfishParam.Decrypt | beecrypt/blowfish.c:514-542 | writes the decrypted block, also over the source, and nothing else |
| Blowfish.RoundFunction | beecrypt/blowfish.c:326 | a round looks up one table for each byte of a half, and combines them by sum, bitwise addition and sum |
| Blowfish.BytesOfHalf | beecrypt/blowfish.c:326 | the bytes that index the tables, most significant first |
| Blowfish.SwappedBytes | beecrypt/blowfish.c:487-506 | swapping a word turns its bytes round |
| Blowfish.EncryptedBlock | beecrypt/blowfish.c:482-510 | sixteen rounds with the keys in their order, and the last two keys for the crossed halves |
| Blowfish.DecryptedBlock | beecrypt/blowfish.c:514-542 | decryption is encryption with the keys in the opposite order |
| BlockMode.BlockEncryptCBC | beecrypt/blockmode.c:68-103 | the chained cipher text, in place or elsewhere, with the last block kept for the next call |
| BlockMode.BlockDecryptCBC | beecrypt/blockmode.c:105-137 | the chained plain text, in place or elsewhere, with the last cipher block kept |
| BlockMode.CbcCipherBlock | beecrypt/blockmode.c:77-91 | block k of the cipher text is the cipher of text block k, bitwise added to cipher block k - 1 or to the initial block |
| BlockMode.CbcPlainBlock | beecrypt/blockmode.c:116-125 | block k of the plain text is the deciphered block k, bitwise added to cipher block k - 1 or to the initial block |
| BlockMode.DifferentStarts | beecrypt/blockmode.c:77-80 | different initial blocks give different first cipher blocks |
| BlockMode.CbcRoundTrip | beecrypt/blockmode.c:68-137 | for any cipher and its inverse, decryption restores the text |
| BlockMode.CbcEncryptSplit | beecrypt/blockmode.c:98-99 | encrypting in two calls gives the same text |
| BlockMode.CbcDecryptSplit | beecrypt/blockmode.c:120-125 | decrypting in two calls gives the same text |
| BlockPad.Pkcs5PadCopy | beecrypt/blockpad.c:73-90 | a copy filled up to whole blocks |
| BlockPad.PaddedLayout | beecrypt/blockpad.c:73-90 | the padded copy is the message and from one to a whole block of bytes, each of which is their number |
| BlockPad.Pkcs5Unpad | beecrypt/blockpad.c:49-71 | removes the padding in place, just when the last byte is at most a block and that many bytes at the end equal it; a last byte above the size, in a chunk shorter than a block, makes the size wrap around |
| BlockPad.Pkcs5UnpadCopy | beecrypt/blockpad.c:92-115 | copies what precedes the padding; the length of a block is not looked at |
| BlockPad.EndsInCopies | beecrypt/blockpad.c:92-108 | a string is taken as padded just when its end is as many copies of the last byte as that byte says |
| BlockPad.UnpadRestores | beecrypt/blockpad.c:49-90 | unpadding a padded string restores it |
| BlockPad.UnpadAcceptsPadded | beecrypt/blockpad.c:49-71 | of whole blocks, those accepted are the padded strings and those that end in a zero byte |
| PaddedCbc.RoundTrip | beecrypt/blockmode.c:68-137 | padding, encrypting, decrypting and unpadding gives every message back, for every initial block and all contents of the tables; what is decrypted is the padded message |
| PaddedCbc.WordAt | beecrypt/blowfish.c:484-488 | a word of the text is made of four bytes, the least significant first, as on a machine that is not big-endian |
| PaddedCbc.RoundTripInParts | beecrypt/blockmode.c:68-137 | the same when the padded text is encrypted in any number of calls and decrypted in any number of others, cut at any whole blocks |

## Left out

- MpGcd.MpGcdW: a zero operand is not modelled, since shifting out its zero bits runs past its words (`mp.c:1085-1110`); the memory in front of the result that the routine writes is part of the array.
- MpInverse.MpExtGcdW: sizes above 2^48 words are excluded, because the bound on the coefficients grows with the size; two even operands are excluded as the source demands (`mp.c:1196-1201`).
- Power.MpBTwoPowMod: asks for one readable word behind the exponent, which the source reads in its last round (`mpbarrett.c:728`).
- PrimeSearch.MpPRndR: f is not zero, which the greatest common divisor cannot handle. A range of a single number, for which the source does not end, and a minimum whose leading word is zero in the words of p, for which the setup of the modulus shifts by more than a word, are excluded.
- PrimeConstruction.MpPRndConOne: f is not zero. For a p that the table reaches, the operand left over is any number; when it is zero, which the greatest common divisor cannot handle, the comparison ends in any way. The rounds for the primality of s are a parameter.
- MpDivide.MpPNDiv: the high word is below twice the divisor, as it is in every division here; above that the routine subtracts too little and yields no quotient.
- Octets.Os2ip: a string of zeros only, or an empty one, must have a readable octet behind it, which the source looks at before it compares the size (`mp.c:1509`).
- Rsa.RsaPriCrt: p and q have the same number of words, without which the reduction modulo q cuts off part of c.
- Dsa.DsaVrfy: q is odd, and the buffers of the powers are assumed to hold some number when they are not written.
- Sha256.Sha256Param.Process: the compression function is an arbitrary function of the state and the block; the rounds, their constants and the length counter of 32-bit builds are not modelled.
- Hmac.HmacSetup: the hash is that of sha256.c, so the refusal of a digest longer than a block cannot occur.
- Base64.B64Encode: sizes are unbounded, where the source counts in int; an end-of-line string that is NULL is an empty one.
- BlockPad.Pkcs5UnpadCopy: sizes are unbounded, where the index in the source has 32 bits; a size that has wrapped around is taken to be more than malloc can give.
- BlockPad.Pkcs5Unpad: an empty chunk is excluded, in front of which the source reads; the index has 32 bits in the source here too.
- BlockMode.BlockEncryptCBC: the cipher is Blowfish with blocks of two words; the laws of chaining are proved for any cipher.
- Blowfish key setup, SetIV and counter mode, and the electronic code book mode: they add no property to the round trip over arbitrary tables.
- 32-bit words, assembler variants, OpenMP sections, memory allocation and its failures, wiping and freeing of memory.
- b64enc, b64dec, b64crc, pkcs5Pad, hs2ip and mpntrbits.
- AES, the other digests, DHIES, key generation and storage, entropy gathering, and the JavaScript bindings.
- The tables of small prime products are an arbitrary table of odd numbers; of the entries only those in the two inputs are numbers of the library, and none is compared with the primes.
