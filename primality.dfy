/** The Miller-Rabin test `millerRabin` and the driver `isPrime` of main.cpp.
    The random witness of each round is a parameter: `IsPrime` takes the
    sequence of witnesses its rounds would draw. */
module Primality {
  import opened ModArith
  import opened ExtendedGcd
  import opened NumberTheory

  /** 2^j as a natural number. */
  function Pow2(j: nat): (r: nat)
    ensures r > 0
  {
    if j == 0 then 1 else 2 * Pow2(j - 1)
  }

  /** (k, m) with x == 2^k * m and m odd: the factorisation `isPrime` finds
      for n - 1 by halving while the quotient is even. */
  function SplitPowerOfTwo(x: nat): (r: (nat, nat))
    requires x > 0
    ensures x == Pow2(r.0) * r.1 && r.1 % 2 == 1
  {
    if x % 2 == 1 then (0, x)
    else
      var (k, m) := SplitPowerOfTwo(x / 2);
      (k + 1, m)
  }

  /** One squaring modulo n, `(b * b) % n`. */
  function SquareMod(b: nat, n: nat): (r: nat)
    requires n > 0
    ensures r < n
  {
    (b * b) % n
  }

  /** The verdict of the squaring loop of `millerRabin` with j squarings left
      and current value b: each squaring that reaches 1 rejects, each that
      reaches n - 1 accepts, and running out of squarings rejects. */
  function SquaringsVerdict(b: nat, j: nat, n: nat): bool
    requires n > 0
    decreases j
  {
    if j == 0 then false
    else
      var b' := SquareMod(b, n);
      if b' == 1 then false
      else if b' == n - 1 then true
      else SquaringsVerdict(b', j - 1, n)
  }

  /** The verdict of one Miller-Rabin round for n - 1 == 2^k * m and witness
      a: b = a^m mod n passes at once when it is 1 or n - 1; otherwise the k
      squarings decide. */
  function MillerRabinVerdict(n: nat, m: nat, k: nat, a: nat): bool
    requires n > 1
  {
    var b := ModularPower(a, m, n);
    if b == 1 || b == n - 1 then true else SquaringsVerdict(b, k, n)
  }

  /** The verdict of `isPrime(n, |witnesses|)`: 2 and 3 are prime, 1 and the
      even numbers are not, and any other n is declared prime exactly when
      every round passes. */
  function IsPrimeVerdict(n: nat, witnesses: seq<nat>): bool {
    if n == 2 || n == 3 then true
    else if n % 2 == 0 || n == 1 then false
    else
      var (k, m) := SplitPowerOfTwo(n - 1);
      forall i :: 0 <= i < |witnesses| ==> MillerRabinVerdict(n, m, k, witnesses[i])
  }

  /** `millerRabin(n, m, k)` (main.cpp) with the witness a it would draw. */
  method MillerRabin(n: nat, m: nat, k: nat, a: nat) returns (pass: bool)
    requires 3 < n < U32 && 2 <= a <= n - 2
    requires m < U64 && k < U64
    ensures pass == MillerRabinVerdict(n, m, k, a)
  {
    var b: nat := ModPow(a, m, n);
    if b == 1 || b == n - 1 {
      return true;
    }
    var j: nat := 1;
    while j <= k
      invariant 1 <= j <= k + 1 && b < n
      invariant MillerRabinVerdict(n, m, k, a) == SquaringsVerdict(b, k - j + 1, n)
      decreases k - j
    {
      ProductFits(b, b, n);
      b := SquareMod(b, n);
      if b == 1 {
        return false;
      }
      if b == n - 1 {
        return true;
      }
      j := j + 1;
    }
    return false;
  }

  /** `isPrime(n, rounds)` (main.cpp), one round per witness. The evenness
      tests `ubigint(x / 2.0) == x / 2.0` are exact below 2^53 and are
      written as x % 2 == 0. */
  method IsPrime(n: nat, witnesses: seq<nat>) returns (r: bool)
    requires n < U32
    requires n % 2 == 1 && n > 3 ==> forall i :: 0 <= i < |witnesses| ==> 2 <= witnesses[i] <= n - 2
    ensures r == IsPrimeVerdict(n, witnesses)
    ensures n == 2 || n == 3 ==> r
    ensures n == 1 || (n % 2 == 0 && n != 2) ==> !r
    ensures r && n > 3 ==> n % 2 == 1
  {
    if n == 2 || n == 3 {
      return true;
    }
    if n % 2 == 0 || n == 1 {
      return false;
    }
    var k: nat, m: nat := 0, n - 1;
    while m % 2 == 0
      invariant 0 < m <= n - 1
      invariant SplitPowerOfTwo(n - 1) == (k + SplitPowerOfTwo(m).0, SplitPowerOfTwo(m).1)
      invariant k + m <= n - 1
      decreases m
    {
      m := m / 2;
      k := k + 1;
    }
    assert (k, m) == SplitPowerOfTwo(n - 1);
    for i := 0 to |witnesses|
      invariant forall i' :: 0 <= i' < i ==> MillerRabinVerdict(n, m, k, witnesses[i'])
    {
      var pass := MillerRabin(n, m, k, witnesses[i]);
      if !pass {
        return false;
      }
    }
    return true;
  }

  /** Squaring a value b whose 2^j-th power is 1 modulo a prime n meets
      n - 1 before it meets 1, unless b is already 1 or n - 1: the only
      square roots of 1 modulo a prime are 1 and n - 1. */
  lemma {:induction false} SquaringsFindMinusOne(n: nat, b: nat, j: nat)
    requires IsPrimeNumber(n) && b < n
    requires Pow(b, Pow2(j)) % n == 1
    ensures b == 1 || b == n - 1 || SquaringsVerdict(b, j, n)
    decreases j
  {
    if j == 0 {
      assert Pow(b, 1) == b;
      ModUnique(b, 0, b, n);
    } else {
      var h := Pow2(j - 1);
      var b' := SquareMod(b, n);
      assert Pow2(j) == 2 * h;
      assert Pow(b', h) % n == 1 by {
        SquareModPow(b, h, n);
      }
      SquaringsFindMinusOne(n, b', j - 1);
      if b' == 1 {
        SquareRootsOfOne(n, b);
      }
    }
  }

  /** A prime n passes a Miller-Rabin round for every witness in [2, n-2]:
      by Fermat's little theorem a^(2^k * m) == 1 (mod n). */
  lemma MillerRabinAcceptsPrimes(n: nat, m: nat, k: nat, a: nat)
    requires IsPrimeNumber(n) && n > 3
    requires n - 1 == Pow2(k) * m
    requires 2 <= a <= n - 2
    ensures MillerRabinVerdict(n, m, k, a)
  {
    ModUnique(a, 0, a, n);
    var b := ModularPower(a, m, n);
    assert Pow(b, Pow2(k)) % n == Pow(a, n - 1) % n by {
      PowModPow(a, m, Pow2(k), n);
    }
    FermatUnit(a, n);
    SquaringsFindMinusOne(n, b, k);
  }

  /** Squaring modulo n and then raising to the power h is raising to the
      power 2h modulo n. */
  lemma SquareModPow(b: nat, h: nat, n: nat)
    requires n > 0
    ensures Pow(SquareMod(b, n), h) % n == Pow(b, 2 * h) % n
  {
    PowModBase(b * b, h, n);
    PowSquare(b, h);
  }

  /** (a^m mod n)^e == a^(m*e) (mod n), for a not divisible by n. */
  lemma PowModPow(a: nat, m: nat, e: nat, n: nat)
    requires n > 0 && a % n != 0
    ensures Pow(ModularPower(a, m, n), e) % n == Pow(a, e * m) % n
  {
    PowNonNegative(a, m);
    PowModBase(Pow(a, m), e, n);
    PowMul(a, m, e);
    assert m * e == e * m;
  }

  /** A prime is odd unless it is 2. */
  lemma PrimeOdd(n: nat)
    requires IsPrimeNumber(n)
    ensures n == 2 || n % 2 == 1
  {
    if n > 2 {
      assert !Divides(2, n);
    }
  }

  /** `isPrime` never rejects a prime, whatever witnesses its rounds draw. */
  lemma IsPrimeAcceptsPrimes(n: nat, witnesses: seq<nat>)
    requires IsPrimeNumber(n)
    requires n % 2 == 1 && n > 3 ==> forall i :: 0 <= i < |witnesses| ==> 2 <= witnesses[i] <= n - 2
    ensures IsPrimeVerdict(n, witnesses)
  {
    PrimeOdd(n);
    if n > 3 {
      var (k, m) := SplitPowerOfTwo(n - 1);
      forall i | 0 <= i < |witnesses|
        ensures MillerRabinVerdict(n, m, k, witnesses[i])
      {
        MillerRabinAcceptsPrimes(n, m, k, witnesses[i]);
      }
    }
  }
}
