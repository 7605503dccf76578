/** The RSA layer of main.cpp: the private key derived from the extended
    Euclid coefficients, and `rsa`, which encodes a message, raises it to a
    key modulo n and decodes the result. */
module Rsa {
  import opened ModArith
  import opened ExtendedGcd
  import opened NumberTheory
  import opened TextCodec

  datatype Option<T> = None | Some(value: T)

  /** The raw Bezout coefficient s of gcd(e, phi) is an inverse of e modulo
      phi, before main.cpp shifts it into range. */
  lemma RawKeyInverse(e: nat, phi: nat)
    requires phi > 0 && Gcd(e, phi).0 == 1
    ensures (e * Gcd(e, phi).1) % phi == 1 % phi
  {
    var (_, s, t) := Gcd(e, phi);
    GcdBezout(e, phi);
    BezoutInverse(e, s, t, phi);
  }

  /** e * s + phi * t == 1 makes s an inverse of e modulo phi. */
  lemma BezoutInverse(e: int, s: int, t: int, phi: int)
    requires phi > 0 && e * s + phi * t == 1
    ensures (e * s) % phi == 1 % phi
  {
    assert t * phi + e * s == 1;
    ModAddMultiple(t, e * s, phi);
  }

  /** An inverse modulo phi > 1 is not a multiple of phi, so neither phi nor
      -phi. */
  lemma InverseNotMultiple(e: int, s: int, phi: int)
    requires phi > 1 && (e * s) % phi == 1
    ensures s != phi && s != -phi
  {
    ModUnique(e * phi, e, 0, phi);
    ModUnique(e * (-phi), -e, 0, phi);
  }

  /** For coprime e and phi > 0 the raw coefficient lies strictly between
      -phi and phi, so one addition of phi makes it non-negative. */
  lemma RawKeyBounds(e: nat, phi: nat)
    requires phi > 0 && Gcd(e, phi).0 == 1
    ensures -(phi as int) < Gcd(e, phi).1 < phi
  {
    var s := Gcd(e, phi).1;
    GcdCoefficientBounds(e, phi);
    assert Abs(s) <= phi;
    if phi == 1 {
      assert Gcd(1, 0) == (1, 1, 0);
    } else {
      RawKeyInverse(e, phi);
      ModUnique(1, 0, 1, phi);
      InverseNotMultiple(e, s, phi);
    }
  }

  /** Adding phi to a key does not change it modulo phi. */
  lemma ShiftedKey(e: nat, s: int, phi: nat)
    requires phi > 0
    ensures (e * (s + phi)) % phi == (e * s) % phi
  {
    assert e * (s + phi) == e * phi + e * s;
    ModAddMultiple(e, e * s, phi);
  }

  /** The private key of main.cpp lines 149-161 for a public exponent e: no
      key when gcd(e, phi) != 1 (main.cpp then asks for another e);
      otherwise the coefficient s of gcd(e, phi, s, t), plus phi when it is
      negative. It is the inverse of e modulo phi, in [0, phi). */
  function DerivePrivateKey(e: nat, phi: nat): (r: Option<int>)
    ensures r.Some? <==> Coprime(e, phi)
    ensures r.Some? ==> r.value >= 0
    ensures r.Some? && phi > 0 ==> r.value < phi && (e * r.value) % phi == 1 % phi
    ensures r.Some? && phi == 0 ==> e == 1 && r.value == 1
  {
    var (g, s, _) := Gcd(e, phi);
    GcdOneIffCoprime(e, phi);
    if g != 1 then None
    else if phi == 0 then Some(s)
    else
      RawKeyInverse(e, phi);
      RawKeyBounds(e, phi);
      ShiftedKey(e, s, phi);
      Some(if s < 0 then s + phi else s)
  }

  /** A multiple of phi times x, with e coprime to phi, makes x a multiple of
      phi: the Bezout identity of Gcd(e, phi) cancels e. */
  lemma CoprimeCancel(e: nat, phi: nat, x: int)
    requires phi > 0 && Gcd(e, phi).0 == 1 && (e * x) % phi == 0
    ensures x % phi == 0
  {
    var (_, s, t) := Gcd(e, phi);
    GcdBezout(e, phi);
    var c := (e * x) / phi;
    assert e * x == phi * c;
    EuclidCombination(e, x, phi, s, t, c);
  }

  /** Two keys congruent as inverses of e differ by a multiple of phi once
      multiplied by e. */
  lemma CongruentDifference(e: int, d: int, k: int, phi: int)
    requires phi > 0 && (e * d) % phi == (e * k) % phi
    ensures (e * (d - k)) % phi == 0
  {
    SubCongruent(e * d, e * k, phi);
    assert e * d - e * k == e * (d - k);
  }

  /** Two residues in [0, phi) that differ by a multiple of phi are equal. */
  lemma SmallDifference(d: int, k: int, phi: int)
    requires 0 <= d < phi && 0 <= k < phi && (d - k) % phi == 0
    ensures d == k
  {
    ModUnique(0, 0, 0, phi);
    AddCongruent(d - k, 0, k, phi);
    ModUnique(d, 0, d, phi);
    ModUnique(k, 0, k, phi);
  }

  /** The derived key is the only inverse of e modulo phi in [0, phi). */
  lemma PrivateKeyUnique(e: nat, phi: nat, d: int)
    requires phi > 0 && Coprime(e, phi)
    requires 0 <= d < phi && (e * d) % phi == 1 % phi
    ensures DerivePrivateKey(e, phi) == Some(d)
  {
    GcdOneIffCoprime(e, phi);
    var k := DerivePrivateKey(e, phi).value;
    CongruentDifference(e, d, k, phi);
    CoprimeCancel(e, phi, d - k);
    SmallDifference(d, k, phi);
  }

  /** A value below 2^32 has at most 7 base-27 digits. */
  lemma SevenDigits(e: nat)
    requires e < U32
    ensures |Decode(e)| <= 7 <= MaxLength
  {
    assert Pow(27, 7) == 10460353203;
    DecodeLength(e, 7);
  }

  /** `rsa(M, key, n)` (main.cpp): the message's code raised to key modulo n,
      decoded. The result is an alphabet string whose code is that residue
      and no longer than MaxLength, so it is a valid message for the second
      call in main.cpp. */
  method Rsa(M: string, key: nat, n: nat) returns (out: string)
    requires IsText(M) && |M| <= MaxLength
    requires 0 < n < U32 && key < U64
    ensures out == Decode(ModularPower(Encode(M), key, n))
    ensures IsText(out) && Encode(out) == ModularPower(Encode(M), key, n)
    ensures Encode(out) < n && |out| <= MaxLength
  {
    var code := StringToInt(M);
    var enc := ModPow(code, key, n);
    out := IntToString(enc);
    EncodeDecode(enc);
    SevenDigits(enc);
  }

  /** The textbook example p = 61, q = 53: n = 3233, phi = 3120 and public
      exponent 17 give the private key 2753. */
  lemma TextbookKey()
    ensures DerivePrivateKey(17, 3120) == Some(2753)
  {
    assert Gcd(17, 3120) == (1, -367, 2);
    assert -367 + 3120 == 2753;
  }

  /** In the same example the message code 65 encrypts to 2790. */
  lemma TextbookCiphertext()
    ensures ModularPower(65, 17, 3233) == 2790
  {
    assert Pow(65, 1) == 65;
    assert Pow(65, 2) == 4225;
    assert Pow(65, 3) == 274625;
    assert Pow(65, 4) == 17850625;
    assert Pow(65, 5) == 1160290625;
    assert Pow(65, 6) == 75418890625;
    assert Pow(65, 7) == 4902227890625;
    assert Pow(65, 8) == 318644812890625;
    assert Pow(65, 9) == 20711912837890625;
    assert Pow(65, 10) == 1346274334462890625;
    assert Pow(65, 11) == 87507831740087890625;
    assert Pow(65, 12) == 5688009063105712890625;
    assert Pow(65, 13) == 369720589101871337890625;
    assert Pow(65, 14) == 24031838291621636962890625;
    assert Pow(65, 15) == 1562069488955406402587890625;
    assert Pow(65, 16) == 101534516782101416168212890625;
    assert Pow(65, 17) == 6599743590836592050933837890625;
  }
}
