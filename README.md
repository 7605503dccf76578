# A verified model of a textbook RSA toy

The system is a small educational RSA program (`main.cpp`). It generates two primes with a Miller-Rabin test and derives a key pair with the extended Euclid algorithm. It then encrypts and decrypts a short message, read as a base-27 number (space = 0, A..Z = 1..26). This project models the program's arithmetic kernel in Dafny:

- `modpow`, square-and-multiply modulo p: `ModArith.ModPow`, a method proved against `ModularPower`;
- `stringToInt` / `intToString`, the base-27 text codec: `TextCodec.StringToInt` / `TextCodec.IntToString`, proved against `Encode` / `Decode`. They keep the source's loop with a running power and its in-place reversal of the digit buffer (`ReverseInPlace` on an `array<char>`);
- `millerRabin` / `isPrime`: `Primality.MillerRabin` / `Primality.IsPrime`. The random witness of each round is a parameter, and `IsPrime` takes the sequence of witnesses its rounds would draw;
- `gcd`, the recursive extended Euclid algorithm: the function `ExtendedGcd.Gcd`. It returns the triple (g, s, t) in place of the two reference parameters;
- `rsa`: `Rsa.Rsa`;
- the key derivation in `main` (call `gcd`, reject when g != 1, add phi to a negative s): `Rsa.DerivePrivateKey`.

The main results:

- `modpow` computes x^y mod p, except that a base divisible by p always yields 0, even as x^0.
- `gcd` returns the greatest common divisor with Bezout coefficients bounded by the inputs.
- The derived private key is the unique inverse of e modulo phi in [0, phi).
- The codec round-trips in both directions, up to upper-casing and the loss of leading spaces.
- Each `rsa` output is a valid input for the next call.
- `isPrime` never rejects a prime, whatever witnesses it draws. This rests on Fermat's little theorem (proved from the binomial theorem) and on the square roots of 1 modulo a prime.

`intToString(stringToInt(s))` is not `s` in general. It returns `Upper(StripLeadingSpaces(s))`, because leading spaces are leading zero digits and lower case folds to upper case (`TextCodec.DecodeEncode`). The exact round trip holds for canonical strings (`TextCodec.DecodeEncodeCanonical`).

Integer widths. The 64-bit `unsigned long long` arithmetic of the source is modelled with preconditions that keep every value in range:

- Moduli are below 2^32, so a product of two residues stays below 2^64 (`ModArith.ProductFits`). In `main.cpp`, `n = p * q` is computed on `unsigned int` operands, so n is always below 2^32.
- Messages are at most 11 characters (`TextCodec.MaxLength`). Then 27^11 < 2^53, so the double-precision weights `pow(27, power)` are exact (`TextCodec.WeightsExact`), and so is the running sum, which stays below 27^|s| (`TextCodec.StringToInt`).
- The evenness tests `ubigint(x / 2.0) == x / 2.0` are exact for x < 2^53 and are written `x % 2 == 0`.

## Model

| member | source | states |
|---|---|---|
| ModArith.ModPow | main.cpp:13-29 | returns ModularPower(x, y, p): 0 when p divides x, otherwise x^y mod p; the result is below p. The body proves each product `res*x` and `x*x` fits in 64 bits (`ProductFits`) |
| ModArith.ModularPowerIsPowMod | main.cpp:13-29 | the modpow value equals x^y mod p whenever y > 0 or p does not divide x, and is always below p |
| ModArith.ZeroResidueQuirk | main.cpp:16-18 | modpow(p, 0, p) is 0 although p^0 mod p is 1, for p > 1 |
| ModArith.SquareMultiplyStep | main.cpp:20-26 | one loop iteration (multiply when y is odd, halve y, square x) preserves res * x^y modulo p |
| ModArith.PowModBase | main.cpp:16 | reducing the base modulo p first does not change x^y mod p |
| ModArith.ProductFits | main.cpp:22-25 | products of two residues modulo p < 2^32 stay below 2^64 |
| ExtendedGcd.Gcd | main.cpp:109-121 | g divides both a and b; the base case b == 0 returns (a, 1, 0) |
| ExtendedGcd.GcdBezout | main.cpp:109-121 | the coefficients satisfy a*s + b*t == g |
| ExtendedGcd.GcdIsGreatest | main.cpp:109-121 | every common divisor of a and b divides g, so g is the greatest common divisor |
| ExtendedGcd.GcdOneIffCoprime | main.cpp:151-158 | g == 1 exactly when a and b have no common divisor but 1, so the retry test g != 1 rejects exactly the exponents without an inverse |
| ExtendedGcd.GcdCoefficientBounds | main.cpp:109-121 | for b > 0, abs(s)*g <= b, and abs(t)*g <= a when a > 0, so the signed coefficients stay within the inputs' range |
| ExtendedGcd.ExactQuotient | main.cpp:118 | the unsigned quotient (a - r) / b is exactly a / b, with no remainder |
| TextCodec.CharCode | main.cpp:36-39 | each alphabet character gets a digit below 27, and 0 only for space |
| TextCodec.CharCodeUpper | main.cpp:39 | a lower-case letter has the digit of its upper-case letter |
| TextCodec.DigitChar | main.cpp:54-56 | each digit below 27 gives a space or an upper-case letter whose code is that digit |
| TextCodec.CharCodeRoundTrip | main.cpp:36-56 | coding the character produced for a digit gives that character back |
| TextCodec.Encode | main.cpp:32-45 | the code of a string of length L is below 27^L |
| TextCodec.EncodeLeading | main.cpp:34-41 | the code is the most-significant-first positional sum: the first character's digit times 27^(L-1), plus the code of the rest |
| TextCodec.StringToInt | main.cpp:32-45 | the loop with the falling power returns Encode(s), which is below 27^L and below 2^53 |
| TextCodec.WeightsExact | main.cpp:40 | every weight 27^power of a message of at most 11 characters is below 2^53 |
| TextCodec.EncodeUpper | main.cpp:39 | upper-casing a string does not change its code |
| TextCodec.EncodeStrip | main.cpp:38-40 | dropping leading spaces does not change the code |
| TextCodec.EncodePositive | main.cpp:32-45 | a string that starts with a letter has a positive code |
| TextCodec.Decode | main.cpp:48-66 | the decoded string consists of spaces and upper-case letters, never starts with a space, and is empty exactly for 0 |
| TextCodec.IntToString | main.cpp:48-66 | the remainder loop followed by the reversal returns Decode(e) |
| TextCodec.ReverseInPlace | main.cpp:63 | the array afterwards holds its old contents reversed |
| TextCodec.ReversedAt | main.cpp:63 | position k of a reversed string holds position L-1-k of the original |
| TextCodec.DecodeAppendDigit | main.cpp:53-60 | the decoding of 27x + d is the decoding of x followed by the character of d |
| TextCodec.EncodeDecode | main.cpp:32-66 | every decoded string is encodable text, and encoding it gives the number back |
| TextCodec.DecodeEncodeCanonical | main.cpp:32-66 | a canonical string (digit characters, no leading space) survives encode then decode unchanged |
| TextCodec.DecodeEncode | main.cpp:32-66 | for any text, encode then decode yields the upper-cased string without its leading spaces |
| TextCodec.UpperStrip | main.cpp:38-39 | upper-casing and dropping leading spaces commute |
| TextCodec.DecodeLength | main.cpp:48-66 | a number below 27^k decodes to at most k characters |
| Primality.SplitPowerOfTwo | main.cpp:90-96 | n - 1 == 2^k * m with m odd |
| Primality.MillerRabin | main.cpp:69-83 | returns the verdict of one round for witness a: pass when a^m mod n is 1 or n-1, otherwise the first of the k squarings that reaches 1 fails the round, the first that reaches n-1 passes it, and none of them doing so fails it |
| Primality.IsPrime | main.cpp:86-106 | 2 and 3 are accepted; 0, 1 and even numbers above 2 are rejected; any other n is accepted exactly when every round passes, with n - 1 split as 2^k * m |
| Primality.SquaringsFindMinusOne | main.cpp:76-82 | modulo a prime, a value whose 2^j-th power is 1 is 1 or n-1, or repeated squaring reaches n-1 before 1 |
| Primality.MillerRabinAcceptsPrimes | main.cpp:69-83 | a prime n > 3 passes the round for every witness in [2, n-2] |
| Primality.IsPrimeAcceptsPrimes | main.cpp:86-106 | isPrime accepts every prime, whatever its rounds' witnesses |
| Primality.PrimeOdd | main.cpp:88 | every prime but 2 is odd, so the even test rejects no prime |
| Primality.SquareModPow | main.cpp:77 | squaring modulo n and then raising to the power h is raising to the power 2h modulo n |
| Primality.PowModPow | main.cpp:73-77 | (a^m mod n)^e is congruent to a^(e*m) modulo n |
| NumberTheory.FermatUnit | main.cpp:69-83 | a^(p-1) mod p == 1 for a prime p that does not divide a |
| NumberTheory.FermatLittle | main.cpp:69-83 | a^p mod p == a mod p for a prime p |
| NumberTheory.SquareRootsOfOne | main.cpp:78-79 | modulo a prime, the only square roots of 1 are 1 and p-1 |
| NumberTheory.EuclidLemma | main.cpp:69-83 | a prime that divides a product divides one of the factors |
| Rsa.DerivePrivateKey | main.cpp:149-161 | no key exactly when gcd(e, phi) != 1; otherwise a key in [0, phi) with e*s mod phi == 1 mod phi (for phi == 0 only e == 1 has a key, and it is 1) |
| Rsa.RawKeyInverse | main.cpp:151-155 | the raw coefficient s, before the adjustment, already satisfies e*s mod phi == 1 mod phi |
| Rsa.RawKeyBounds | main.cpp:161 | the raw coefficient lies strictly between -phi and phi, so one addition of phi makes it non-negative and below phi |
| Rsa.ShiftedKey | main.cpp:161 | adding phi to s leaves e*s modulo phi unchanged |
| Rsa.PrivateKeyUnique | main.cpp:149-161 | the derived key is the only inverse of e modulo phi in [0, phi) |
| Rsa.Rsa | main.cpp:124-131 | the output is Decode(modpow(Encode(M), key, n)); its code is exactly that residue, below n; it is at most 11 characters of the alphabet, so it is a valid message for the second call |
| Rsa.SevenDigits | main.cpp:130 | a value below 2^32 decodes to at most 7 characters |
| Rsa.TextbookKey | main.cpp:149-161 | for e = 17 and phi = 3120 the private key is 2753 |
| Rsa.TextbookCiphertext | main.cpp:128 | modpow(65, 17, 3233) == 2790 |

## Left out

- Console input and output, the prompts, and reading the message and the public exponent (main.cpp:141-176) are left out. They are I/O.
- Randomness is a parameter: `srand`/`rand`/`time`, and the witness draw `rand() % (n - 3) + 2`. Each round takes its witness, required to lie in [2, n-2].
- The prime-sampling loops of `main` (main.cpp:137-140) are left out. They sample randomly and may not terminate.
- The exponent retry loop (main.cpp:152-159) is reduced to one attempt: `Rsa.DerivePrivateKey` returns `None` where the source asks again.
- The 32-bit wrap-around of `n = p * q` and `phi_n = (p - 1) * (q - 1)` in `main` (main.cpp:144-145) is not modelled. The kernel takes n and phi as given, with n below 2^32.
- Floating point is not modelled: `stringToInt`'s double `pow` and sum are exact integers under the 11-character precondition, and the `x / 2.0` evenness tests are `x % 2 == 0`.
- Overflow of the 64-bit unsigned arithmetic is excluded by preconditions, not modelled as wrap-around. Moduli are below 2^32; `modpow`'s base and exponent, and `millerRabin`'s m and k, are below 2^64; messages are at most 11 characters.
- Characters outside space and the letters are excluded by a precondition (`TextCodec.IsText`). The source would produce digits outside 0..26 for them.
- ExtendedGcd.Gcd: the signed 64-bit `long long` coefficients are unbounded integers. `ExtendedGcd.GcdCoefficientBounds` shows they stay within the magnitude of the inputs, but an overflow of the intermediate product `t_ * ((a - r) / b)` is not modelled.
- Primality.IsPrime: nothing is proved about how often a composite number passes. The test is probabilistic, and only the direction "never rejects a prime" is proved.
- Primality.MillerRabin: the loop squares k times (`j = 1 .. k`), one more than the textbook k - 1, and is modelled as written. The model does not prove whether the extra squaring can change a verdict.
- Full RSA correctness, that decrypting an encryption with the derived key gives the message back, is not proved. It would need the Chinese remainder theorem over n = p * q. The model proves each step that `main` composes: the key inverts e modulo phi, and each `rsa` output is a valid input for the next call.
