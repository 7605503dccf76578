/** Modular arithmetic: exact powers, the square-and-multiply `modpow` of
    main.cpp and the congruence facts its loop invariant rests on. */
module ModArith {

  /** 2^64: one more than the largest `unsigned long long`. */
  const U64: nat := 0x1_0000_0000_0000_0000
  /** 2^32: below this bound a product of two residues fits in 64 bits. */
  const U32: nat := 0x1_0000_0000

  /** x^y over the integers. */
  function Pow(x: int, y: nat): int
    decreases y
  {
    if y == 0 then 1 else x * Pow(x, y - 1)
  }

  /** The value returned by `modpow(x, y, p)`: x^y mod p, except that a base
      divisible by p yields 0 before the exponent is looked at. */
  function ModularPower(x: nat, y: nat, p: nat): nat
    requires p > 0
  {
    if x % p == 0 then 0 else Pow(x, y) % p
  }

  lemma {:induction false} PowNonNegative(x: int, y: nat)
    requires x >= 0
    ensures Pow(x, y) >= 0
  {
    if y > 0 {
      PowNonNegative(x, y - 1);
    }
  }

  lemma {:induction false} PowPositive(x: int, y: nat)
    requires x > 0
    ensures Pow(x, y) > 0
  {
    if y > 0 {
      PowPositive(x, y - 1);
    }
  }

  lemma {:induction false} PowAdd(x: int, y: nat, z: nat)
    ensures Pow(x, y + z) == Pow(x, y) * Pow(x, z)
  {
    if y > 0 {
      PowAdd(x, y - 1, z);
      assert Pow(x, y + z) == x * Pow(x, y - 1 + z);
    }
  }

  lemma {:induction false} PowMul(x: int, y: nat, z: nat)
    ensures Pow(Pow(x, y), z) == Pow(x, y * z)
  {
    if z > 0 {
      PowMul(x, y, z - 1);
      PowAdd(x, y, y * (z - 1));
      assert y * z == y + y * (z - 1);
    }
  }

  lemma {:induction false} PowSquare(x: int, y: nat)
    ensures Pow(x * x, y) == Pow(x, 2 * y)
  {
    if y > 0 {
      PowSquare(x, y - 1);
      assert Pow(x, 2 * y) == x * (x * Pow(x, 2 * y - 2));
    }
  }

  /** Division with remainder is unique: z = q*p + r with 0 <= r < p fixes r. */
  lemma ModUnique(z: int, q: int, r: int, p: int)
    requires p > 0 && 0 <= r < p
    requires z == q * p + r
    ensures z % p == r
  {
    var d := q - z / p;
    assert z == (z / p) * p + z % p;
    assert d * p == z % p - r;
  }

  /** (k*p + r) mod p == r mod p. */
  lemma ModAddMultiple(k: int, r: int, p: int)
    requires p > 0
    ensures (k * p + r) % p == r % p
  {
    var q := r / p;
    assert r == q * p + r % p;
    assert k * p + r == (k + q) * p + r % p;
    ModUnique(k * p + r, k + q, r % p, p);
  }

  lemma MulMod(a: int, b: int, p: int)
    requires p > 0
    ensures (a * b) % p == ((a % p) * (b % p)) % p
  {
    var qa, ra := a / p, a % p;
    var qb, rb := b / p, b % p;
    assert a == qa * p + ra;
    assert b == qb * p + rb;
    assert a * b == (qa * qb * p + qa * rb + ra * qb) * p + ra * rb;
    ModAddMultiple(qa * qb * p + qa * rb + ra * qb, ra * rb, p);
  }

  lemma MulCongruent(a: int, b: int, c: int, d: int, p: int)
    requires p > 0
    requires a % p == c % p && b % p == d % p
    ensures (a * b) % p == (c * d) % p
  {
    MulMod(a, b, p);
    MulMod(c, d, p);
  }

  /** Reducing the base first does not change a power modulo p. */
  lemma {:induction false} PowModBase(x: int, y: nat, p: int)
    requires p > 0
    ensures Pow(x, y) % p == Pow(x % p, y) % p
  {
    if y > 0 {
      var r := x % p;
      var a, b := Pow(x, y - 1), Pow(r, y - 1);
      assert a % p == b % p by {
        PowModBase(x, y - 1, p);
      }
      assert r % p == x % p;
      MulCongruent(x, a, r, b, p);
      assert Pow(x, y) == x * a && Pow(r, y) == r * b;
    }
  }

  /** ModularPower is x^y mod p in every case but one: a zero residue raised
      to the power 0, where x^0 mod p is 1 % p but the source answers 0. */
  lemma ModularPowerIsPowMod(x: nat, y: nat, p: nat)
    requires p > 0
    ensures y > 0 || x % p != 0 ==> ModularPower(x, y, p) == Pow(x, y) % p
    ensures ModularPower(x, y, p) < p
  {
    if x % p == 0 && y > 0 {
      PowModBase(x, y, p);
      assert Pow(0, y) == 0 * Pow(0, y - 1);
    }
  }

  /** The quirk of `modpow`: a base divisible by p gives 0 even for exponent
      0, so modpow(p, 0, p) is 0 and not 1 (for p > 1). */
  lemma ZeroResidueQuirk(p: nat)
    requires p > 1
    ensures ModularPower(p, 0, p) == 0
    ensures Pow(p, 0) % p == 1
  {
  }

  /** One step of square-and-multiply keeps res * x^y congruent. */
  lemma SquareMultiplyStep(res: int, x: int, y: nat, p: int)
    requires p > 0 && y > 0
    ensures var res' := if y % 2 == 1 then (res * x) % p else res;
            (res' * Pow((x * x) % p, y / 2)) % p == (res * Pow(x, y)) % p
  {
    var h := y / 2;
    var sq, sqr := Pow(x * x, h), Pow((x * x) % p, h);
    assert sqr % p == sq % p by {
      PowModBase(x * x, h, p);
    }
    assert sq == Pow(x, 2 * h) by {
      PowSquare(x, h);
    }
    if y % 2 == 1 {
      assert Pow(x, y) == x * sq by {
        assert y == 2 * h + 1;
      }
      var rx := res * x;
      assert (rx % p) % p == rx % p;
      MulCongruent(rx % p, sqr, rx, sq, p);
      Assoc(res, x, sq);
    } else {
      assert y == 2 * h;
      MulCongruent(res, sqr, res, sq, p);
    }
  }

  /** Associativity of multiplication, proved apart from the congruence
      context of SquareMultiplyStep, where the solver finds it slowly. */
  lemma Assoc(a: int, b: int, c: int)
    ensures (a * b) * c == a * (b * c)
  {
  }

  lemma MulStrict(a: nat, b: nat, c: nat)
    requires a < c && b < c
    ensures a * b < c * c
  {
    if a > 0 {
      assert a * b < a * c;
    }
    assert a * c < c * c;
  }

  /** A product of two residues modulo p < 2^32 fits in 64 bits. */
  lemma ProductFits(a: nat, b: nat, p: nat)
    requires a < p && b < p && p < U32
    ensures a * b < U64
  {
    MulStrict(a, b, p);
    MulStrict(p, p, U32);
  }

  /** `modpow` (main.cpp): binary exponentiation modulo p. The modulus is
      below 2^32, so every product of two residues fits in 64 bits, as the
      source's `unsigned long long` arithmetic needs. */
  method ModPow(x0: nat, y0: nat, p: nat) returns (res: nat)
    requires 0 < p < U32
    requires x0 < U64 && y0 < U64
    ensures res == ModularPower(x0, y0, p)
    ensures res < p
    ensures x0 % p == 0 ==> res == 0
    ensures x0 % p != 0 ==> res == Pow(x0, y0) % p
  {
    res := 1;
    var x: nat, y: nat := x0 % p, y0;
    if x == 0 {
      return 0;
    }
    PowModBase(x0, y0, p);
    while y > 0
      invariant x < p && res < p
      invariant (res * Pow(x, y)) % p == Pow(x0, y0) % p
      decreases y
    {
      ghost var res0, x1, y1 := res, x, y;
      if y % 2 == 1 {
        ProductFits(res, x, p);
        res := (res * x) % p;
      }
      y := y / 2;
      ProductFits(x, x, p);
      x := (x * x) % p;
      assert (res * Pow(x, y)) % p == (res0 * Pow(x1, y1)) % p by {
        SquareMultiplyStep(res0, x1, y1, p);
      }
    }
    assert res * Pow(x, y) == res;
    ModUnique(res, 0, res, p);
  }
}
