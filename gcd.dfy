/**
 * The greatest common divisor layer of the RSA engine: `Rsa::euclides`, the
 * Bézout coefficients that the extended algorithm tracks, and the facts about
 * primes (Euclid's lemma) that the correctness of RSA rests on.
 */
module Gcd {
  import opened Arith

  /** `g` is a greatest common divisor of `a` and `b`: a common divisor that every common divisor divides. */
  ghost predicate IsGcd(g: nat, a: nat, b: nat) {
    && Divides(g, a)
    && Divides(g, b)
    && forall c: nat :: Divides(c, a) && Divides(c, b) ==> Divides(c, g)
  }

  /** One step of Euclid's algorithm keeps the greatest common divisor. */
  lemma EuclidStep(a: nat, b: nat, g: nat)
    requires b > 0 && IsGcd(g, b, a % b)
    ensures IsGcd(g, a, b)
  {
    assert a == (a / b) * b + 1 * (a % b);
    DividesLinear(g, b, a % b, a / b, 1);
    forall c: nat | Divides(c, a) && Divides(c, b)
      ensures Divides(c, g)
    {
      assert a % b == 1 * a + (-(a / b)) * b;
      DividesLinear(c, a, b, 1, -(a / b));
    }
  }

  lemma DividesSelf(a: nat)
    ensures Divides(a, a)
  {
    DividesMultiple(a, 1);
  }

  /** `Rsa::euclides`: the recursive Euclidean algorithm; its result is the greatest common divisor. */
  function Euclides(a: nat, b: nat): (g: nat)
    ensures IsGcd(g, a, b)
    decreases b
  {
    if b == 0 then
      DividesSelf(a);
      a
    else
      var g := Euclides(b, a % b);
      EuclidStep(a, b, g);
      g
  }

  /** One step of evaluating `Euclides`. */
  lemma EuclidesUnfold(a: nat, b: nat, r: nat, g: nat)
    requires b > 0 && r == a % b && Euclides(b, r) == g
    ensures Euclides(a, b) == g
  {
  }

  /** No common divisor of `a` and `b`, not both zero, exceeds `Euclides(a, b)`, which is positive. */
  lemma EuclidesGreatest(a: nat, b: nat, c: nat)
    requires a > 0 || b > 0
    requires Divides(c, a) && Divides(c, b)
    ensures 0 < c <= Euclides(a, b)
  {
    var g := Euclides(a, b);
    assert g > 0;
    DividesBound(c, g);
  }

  /** The greatest common divisor does not depend on the order of its arguments. */
  lemma EuclidesSymmetric(a: nat, b: nat)
    ensures Euclides(a, b) == Euclides(b, a)
  {
    DividesAntisym(Euclides(a, b), Euclides(b, a));
  }

  /** Integer coefficients `x`, `y` with `x * a + y * b == Euclides(a, b)`, as the extended algorithm computes them. */
  ghost function Bezout(a: nat, b: nat): (c: (int, int))
    ensures c.0 * a + c.1 * b == Euclides(a, b)
    decreases b
  {
    if b == 0 then
      (1, 0)
    else
      var c := Bezout(b, a % b);
      BezoutStep(a, b, a / b, a % b, c.0, c.1, Euclides(a, b));
      (c.1, c.0 - c.1 * (a / b))
  }

  /** Coefficients for `b` and `r` give coefficients for `a == q * b + r` and `b`. */
  lemma BezoutStep(a: int, b: int, q: int, r: int, s: int, t: int, g: int)
    requires a == q * b + r && s * b + t * r == g
    ensures t * a + (s - t * q) * b == g
  {
    calc {
      t * a + (s - t * q) * b;
      t * (q * b) + t * r + s * b - (t * q) * b;
      { assert t * (q * b) == (t * q) * b; }
      s * b + t * r;
    }
  }

  /** With `s * m + t * a == 1`, `x` is a combination of `m` and `a * x`. */
  lemma BezoutScale(s: int, m: int, t: int, a: int, x: int)
    requires s * m + t * a == 1
    ensures x == (s * x) * m + t * (a * x)
  {
    calc {
      x;
      (s * m + t * a) * x;
      (s * x) * m + t * (a * x);
    }
  }

  /** Gauss's lemma: if `m` is coprime to `a` and divides `a * x`, it divides `x`. */
  lemma CoprimeDividesProduct(m: nat, a: nat, x: int)
    requires Euclides(m, a) == 1 && Divides(m, a * x)
    ensures Divides(m, x)
  {
    var (s, t) := Bezout(m, a);
    BezoutScale(s, m, t, a, x);
    DividesSelf(m);
    DividesLinear(m, m, a * x, s * x, t);
  }

  /** `p` is prime: at least 2, with no divisors but 1 and itself. */
  ghost predicate IsPrime(p: nat) {
    p >= 2 && forall d: nat :: Divides(d, p) ==> d == 1 || d == p
  }

  /** A prime is coprime to every number it does not divide. */
  lemma PrimeCoprime(p: nat, a: nat)
    requires IsPrime(p) && !Divides(p, a)
    ensures Euclides(p, a) == 1
  {
  }

  /** Euclid's lemma: a prime that divides a product divides one of the factors. */
  lemma EuclidLemma(p: nat, a: nat, x: int)
    requires IsPrime(p) && Divides(p, a * x)
    ensures Divides(p, a) || Divides(p, x)
  {
    if !Divides(p, a) {
      PrimeCoprime(p, a);
      CoprimeDividesProduct(p, a, x);
    }
  }
}
