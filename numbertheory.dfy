/** The number theory behind the claim that Miller-Rabin never rejects a
    prime: Euclid's lemma (from the Bezout identity of Gcd), the binomial
    theorem, Fermat's little theorem, and the square roots of 1 modulo a
    prime. */
module NumberTheory {
  import opened ModArith
  import opened ExtendedGcd

  /** n is prime: at least 2, with no divisor strictly between 1 and n. */
  ghost predicate IsPrimeNumber(n: nat) {
    n >= 2 && forall d: nat :: 1 < d < n ==> !Divides(d, n)
  }

  lemma DivisorAtMost(d: nat, n: nat)
    requires n > 0 && Divides(d, n)
    ensures 0 < d <= n
  {
    var q := n / d;
    assert n == d * q;
    assert q >= 1;
  }

  /** x == y (mod p) makes x - y a multiple of p. */
  lemma SubCongruent(x: int, y: int, p: int)
    requires p > 0 && x % p == y % p
    ensures (x - y) % p == 0
  {
    assert x == (x / p) * p + x % p;
    assert y == (y / p) * p + y % p;
    assert x - y == (x / p - y / p) * p;
    ModUnique(x - y, x / p - y / p, 0, p);
  }

  lemma AddCongruent(x: int, y: int, z: int, p: int)
    requires p > 0 && x % p == y % p
    ensures (x + z) % p == (y + z) % p
  {
    SubCongruent(x, y, p);
    var k := (x - y) / p;
    assert x - y == k * p + (x - y) % p;
    assert x + z == k * p + (y + z);
    ModAddMultiple(k, y + z, p);
  }

  /** A number a prime does not divide is coprime to it. */
  lemma PrimeGcdOne(p: nat, x: nat)
    requires IsPrimeNumber(p) && x % p != 0
    ensures Gcd(x, p).0 == 1
  {
    var g := Gcd(x, p).0;
    DivisorAtMost(g, p);
    if g == p {
      assert false;
    } else if g > 1 {
      assert false;
    }
  }

  /** Euclid's lemma: a prime that divides a product divides a factor. */
  lemma EuclidLemma(p: nat, x: nat, y: nat)
    requires IsPrimeNumber(p) && (x * y) % p == 0
    ensures x % p == 0 || y % p == 0
  {
    if x % p != 0 {
      PrimeGcdOne(p, x);
      GcdBezout(x, p);
      var (_, s, t) := Gcd(x, p);
      var c := (x * y) / p;
      assert x * y == p * c;
      assert x * s + p * t == 1;
      EuclidCombination(x, y, p, s, t, c);
    }
  }

  lemma EuclidCombination(x: int, y: int, p: int, s: int, t: int, c: int)
    requires p > 0 && x * y == p * c && x * s + p * t == 1
    ensures y % p == 0
  {
    assert y == y * (x * s + p * t);
    assert y == (c * s + y * t) * p;
    ModUnique(y, c * s + y * t, 0, p);
  }

  /** Binomial coefficients by Pascal's rule. */
  function Binom(n: nat, k: nat): nat {
    if k == 0 then 1
    else if n == 0 then 0
    else Binom(n - 1, k - 1) + Binom(n - 1, k)
  }

  lemma {:induction false} BinomAbove(n: nat, k: nat)
    requires k > n
    ensures Binom(n, k) == 0
  {
    if n > 0 {
      BinomAbove(n - 1, k - 1);
      BinomAbove(n - 1, k);
    }
  }

  lemma {:induction false} BinomOne(n: nat)
    ensures Binom(n, 1) == n
  {
    if n > 0 {
      BinomOne(n - 1);
    }
  }

  /** The absorption identity k * C(n, k) == n * C(n-1, k-1). */
  lemma {:induction false} Absorption(n: nat, k: nat)
    requires n > 0 && k > 0
    ensures k * Binom(n, k) == n * Binom(n - 1, k - 1)
  {
    if k == 1 {
      BinomOne(n);
    } else if n == 1 {
      assert Binom(0, k - 1) == 0 && Binom(0, k) == 0;
    } else {
      Absorption(n - 1, k - 1);
      Absorption(n - 1, k);
      var x, y := Binom(n - 1, k - 1), Binom(n - 1, k);
      var u, v := Binom(n - 2, k - 2), Binom(n - 2, k - 1);
      assert x == u + v;
      assert (k - 1) * x == (n - 1) * u;
      assert k * y == (n - 1) * v;
      AbsorptionArith(n, k, x, y, u, v);
    }
  }

  lemma AbsorptionArith(n: int, k: int, x: int, y: int, u: int, v: int)
    requires x == u + v && (k - 1) * x == (n - 1) * u && k * y == (n - 1) * v
    ensures k * (x + y) == n * x
  {
    assert k * (x + y) == (k - 1) * x + x + k * y;
    assert (n - 1) * u + (n - 1) * v == (n - 1) * x;
  }

  /** A prime divides every binomial coefficient C(p, k) with 0 < k < p. */
  lemma PrimeDividesBinom(p: nat, k: nat)
    requires IsPrimeNumber(p) && 0 < k < p
    ensures Binom(p, k) % p == 0
  {
    Absorption(p, k);
    ModUnique(k * Binom(p, k), Binom(p - 1, k - 1), 0, p);
    EuclidLemma(p, k, Binom(p, k));
    ModUnique(k, 0, k, p);
  }

  /** The first j + 1 terms of the binomial expansion of (a + 1)^n. */
  function BinomSum(a: nat, n: nat, j: nat): int {
    if j == 0 then 1 else BinomSum(a, n, j - 1) + Binom(n, j) * Pow(a, j)
  }

  lemma {:induction false} BinomSumPascal(a: nat, n: nat, j: nat)
    requires n > 0 && j > 0
    ensures BinomSum(a, n, j) == BinomSum(a, n - 1, j) + a * BinomSum(a, n - 1, j - 1)
  {
    var c, c' := Binom(n - 1, j - 1), Binom(n - 1, j);
    var w := Pow(a, j - 1);
    assert Pow(a, j) == a * w;
    assert Binom(n, j) == c + c';
    if j == 1 {
      PascalArith1(a, c');
    } else {
      BinomSumPascal(a, n, j - 1);
      PascalArith(a, c, c', w, BinomSum(a, n - 1, j - 1), BinomSum(a, n - 1, j - 2));
    }
  }

  lemma PascalArith1(a: int, c': int)
    ensures 1 + (1 + c') * (a * 1) == (1 + c' * (a * 1)) + a * 1
  {
  }

  lemma PascalArith(a: int, c: int, c': int, w: int, s1: int, s2: int)
    requires s1 == s2 + c * w
    ensures s1 + a * s2 + (c + c') * (a * w) == (s1 + c' * (a * w)) + a * s1
  {
    assert a * s1 == a * s2 + c * (a * w);
  }

  /** The binomial theorem for (a + 1)^n. */
  lemma {:induction false} BinomialTheorem(a: nat, n: nat)
    ensures Pow(a + 1, n) == BinomSum(a, n, n)
  {
    if n > 0 {
      BinomialTheorem(a, n - 1);
      BinomSumPascal(a, n, n);
      BinomAbove(n - 1, n);
      assert BinomSum(a, n - 1, n) == BinomSum(a, n - 1, n - 1);
    }
  }

  /** All proper terms of the expansion of (a + 1)^p vanish modulo p. */
  lemma {:induction false} BinomSumModPrime(a: nat, p: nat, j: nat)
    requires IsPrimeNumber(p) && j < p
    ensures BinomSum(a, p, j) % p == 1 % p
  {
    if j > 0 {
      BinomSumModPrime(a, p, j - 1);
      PrimeDividesBinom(p, j);
      var q := Binom(p, j) / p;
      assert Binom(p, j) == q * p;
      assert Binom(p, j) * Pow(a, j) == (q * Pow(a, j)) * p;
      ModAddMultiple(q * Pow(a, j), BinomSum(a, p, j - 1), p);
    }
  }

  /** (a + 1)^p == a^p + 1 (mod p). */
  lemma FreshmansDream(a: nat, p: nat)
    requires IsPrimeNumber(p)
    ensures Pow(a + 1, p) % p == (Pow(a, p) + 1) % p
  {
    BinomialTheorem(a, p);
    BinomSumModPrime(a, p, p - 1);
    BinomAbove(p - 1, p);
    assert Binom(p, p) == 1 by {
      BinomOnDiagonal(p);
    }
    assert BinomSum(a, p, p) == BinomSum(a, p, p - 1) + Pow(a, p);
    AddCongruent(BinomSum(a, p, p - 1), 1, Pow(a, p), p);
  }

  lemma {:induction false} BinomOnDiagonal(n: nat)
    ensures Binom(n, n) == 1
  {
    if n > 0 {
      BinomOnDiagonal(n - 1);
      BinomAbove(n - 1, n);
    }
  }

  /** Fermat's little theorem: a^p == a (mod p). */
  lemma {:induction false} FermatLittle(a: nat, p: nat)
    requires IsPrimeNumber(p)
    ensures Pow(a, p) % p == a % p
  {
    if a == 0 {
      assert Pow(0, p) == 0 * Pow(0, p - 1);
    } else {
      FermatLittle(a - 1, p);
      FreshmansDream(a - 1, p);
      AddCongruent(Pow(a - 1, p), a - 1, 1, p);
    }
  }

  /** Fermat's little theorem for a base the prime does not divide:
      a^(p-1) == 1 (mod p). */
  lemma FermatUnit(a: nat, p: nat)
    requires IsPrimeNumber(p) && a % p != 0
    ensures Pow(a, p - 1) % p == 1
  {
    FermatLittle(a, p);
    var w := Pow(a, p - 1);
    assert Pow(a, p) == a * w;
    PowPositive(a, p - 1);
    SubCongruent(a * w, a, p);
    assert a * (w - 1) == a * w - a;
    EuclidLemma(p, a, w - 1);
    assert w == (w - 1) + 1;
    ModAddMultiple((w - 1) / p, 1, p);
    assert w - 1 == ((w - 1) / p) * p;
    ModUnique(1, 0, 1, p);
  }

  /** The only square roots of 1 modulo a prime are 1 and p - 1. */
  lemma SquareRootsOfOne(p: nat, x: nat)
    requires IsPrimeNumber(p) && x < p && (x * x) % p == 1
    ensures x == 1 || x == p - 1
  {
    if x == 0 {
      assert false;
    } else {
      ModUnique(1, 0, 1, p);
      SubCongruent(x * x, 1, p);
      assert (x - 1) * (x + 1) == x * x - 1;
      EuclidLemma(p, x - 1, x + 1);
      if (x - 1) % p == 0 {
        ModUnique(x - 1, 0, x - 1, p);
      } else if x + 1 < p {
        ModUnique(x + 1, 0, x + 1, p);
      }
    }
  }
}
