/** The recursive extended Euclid algorithm `gcd` of main.cpp, with its
    output parameters s and t returned as the last two fields of a triple. */
module ExtendedGcd {
  import opened ModArith

  /** d divides n; 0 divides only 0. */
  predicate Divides(d: nat, n: nat) {
    if d == 0 then n == 0 else n % d == 0
  }

  /** g is the greatest common divisor of a and b in the divisibility order:
      a common divisor that every common divisor divides. */
  ghost predicate IsGcd(g: nat, a: nat, b: nat) {
    && Divides(g, a) && Divides(g, b)
    && forall d: nat :: Divides(d, a) && Divides(d, b) ==> Divides(d, g)
  }

  /** a and b have no common divisor but 1. */
  ghost predicate Coprime(a: nat, b: nat) {
    forall d: nat :: Divides(d, a) && Divides(d, b) ==> d == 1
  }

  function Abs(x: int): nat {
    if x < 0 then -x else x
  }

  /** d divides every integer combination of two of its multiples. */
  lemma DividesCombination(d: nat, x: nat, y: nat, s: int, t: int)
    requires d > 0 && Divides(d, x) && Divides(d, y)
    ensures (x * s + y * t) % d == 0
  {
    var i, j := x / d, y / d;
    assert x == i * d && y == j * d;
    assert x * s + y * t == (i * s + j * t) * d;
    ModUnique(x * s + y * t, i * s + j * t, 0, d);
  }

  /** The unsigned quotient (a - a % b) / b of main.cpp is the exact a / b. */
  lemma ExactQuotient(a: nat, b: nat)
    requires b > 0
    ensures (a - a % b) / b == a / b
    ensures a - a % b == b * (a / b)
  {
    ModUnique(a - a % b, a / b, 0, b);
    assert a - a % b == (a / b) * b;
  }

  /** `gcd(a, b, s, t)` (main.cpp): (g, s, t) with g a common divisor of a and
      b; GcdBezout below shows a*s + b*t == g. The recursion is on
      (b, a % b), and a % b < b. */
  function Gcd(a: nat, b: nat): (r: (nat, int, int))
    ensures Divides(r.0, a) && Divides(r.0, b)
    ensures b == 0 ==> r == (a, 1, 0)
    decreases b
  {
    if b == 0 then (a, 1, 0)
    else
      var rem := a % b;
      var (g, s', t') := Gcd(b, rem);
      RemainderStepDivides(a, b, g);
      (g, t', s' - t' * ((a - rem) / b))
  }

  /** The coefficients Gcd returns satisfy the Bezout identity. */
  lemma {:induction false} GcdBezout(a: nat, b: nat)
    ensures var (g, s, t) := Gcd(a, b); a * s + b * t == g
    decreases b
  {
    if b > 0 {
      var rem := a % b;
      var (g, s', t') := Gcd(b, rem);
      GcdBezout(b, rem);
      ExactQuotient(a, b);
      BezoutStep(a, b, (a - rem) / b, rem, g, s', t');
    }
  }

  /** Back-substitution keeps the Bezout identity: from b*s' + r*t' == g and
      a == b*q + r follows a*t' + b*(s' - t'*q) == g. */
  lemma BezoutStep(a: int, b: int, q: int, r: int, g: int, s': int, t': int)
    requires a == b * q + r && b * s' + r * t' == g
    ensures a * t' + b * (s' - t' * q) == g
  {
  }

  /** A common divisor of b and a % b divides a. */
  lemma RemainderStepDivides(a: nat, b: nat, g: nat)
    requires b > 0 && Divides(g, b) && Divides(g, a % b)
    ensures Divides(g, a)
  {
    assert a == b * (a / b) + a % b;
    if g == 0 {
      assert false;
    } else {
      DividesCombination(g, b, a % b, a / b, 1);
    }
  }

  /** The g that Gcd returns is the greatest common divisor: by the Bezout
      identity every common divisor of a and b divides it. */
  lemma GcdIsGreatest(a: nat, b: nat)
    ensures IsGcd(Gcd(a, b).0, a, b)
  {
    var (g, s, t) := Gcd(a, b);
    GcdBezout(a, b);
    forall d: nat | Divides(d, a) && Divides(d, b)
      ensures Divides(d, g)
    {
      if d > 0 {
        DividesCombination(d, a, b, s, t);
      }
    }
  }

  /** gcd(a, b) == 1 exactly when a and b are coprime, so the test `g != 1`
      in main.cpp accepts precisely the exponents that have an inverse. */
  lemma GcdOneIffCoprime(a: nat, b: nat)
    ensures Gcd(a, b).0 == 1 <==> Coprime(a, b)
  {
    var g := Gcd(a, b).0;
    GcdIsGreatest(a, b);
    if g == 1 {
      forall d: nat | Divides(d, a) && Divides(d, b)
        ensures d == 1
      {
        assert Divides(d, 1);
      }
    } else if g == 0 {
      assert a == 0 && b == 0;
      assert Divides(2, a) && Divides(2, b);
    } else {
      assert Divides(g, a) && Divides(g, b);
    }
  }

  /** Multiplying both sides of x <= y by k, proved apart from the
      coefficient context of CoefficientStep, where the solver finds it
      slowly. */
  lemma MulLeMonotone(x: nat, y: nat, k: nat)
    requires x <= y
    ensures x * k <= y * k
  {
  }

  /** The bound on the new t coefficient, t = s' - t'*q, from those on s', t'. */
  lemma CoefficientStep(g: nat, s': int, t': int, q: nat, rem: nat, b: nat)
    requires Abs(s') * g <= rem && Abs(t') * g <= b
    ensures Abs(s' - t' * q) * g <= b * q + rem
  {
    assert Abs(t' * q) == Abs(t') * q;
    var bound := Abs(s') + Abs(t') * q;
    assert Abs(s' - t' * q) <= bound;
    MulLeMonotone(Abs(s' - t' * q), bound, g);
    assert bound * g == Abs(s') * g + (Abs(t') * g) * q;
    MulLeMonotone(Abs(t') * g, b, q);
  }

  /** A positive multiple of b is at least b. */
  lemma MultipleAtLeast(a: nat, b: nat, q: int)
    requires b > 0 && a > 0 && a == b * q
    ensures b <= a
  {
    assert q >= 1;
  }

  /** Extended Euclid keeps its coefficients small: |s|*g <= b, and |t|*g <= a
      when a > 0. */
  lemma {:induction false} GcdCoefficientBounds(a: nat, b: nat)
    requires b > 0
    ensures var (g, s, t) := Gcd(a, b); Abs(s) * g <= b && (a > 0 ==> Abs(t) * g <= a)
    decreases b
  {
    var rem, q := a % b, a / b;
    var (g, s', t') := Gcd(b, rem);
    ExactQuotient(a, b);
    assert Gcd(a, b) == (g, t', s' - t' * q);
    if rem == 0 {
      assert g == b && s' == 1 && t' == 0;
      if a > 0 {
        MultipleAtLeast(a, b, q);
      }
    } else {
      GcdCoefficientBounds(b, rem);
      CoefficientStep(g, s', t', q, rem, b);
    }
  }
}
