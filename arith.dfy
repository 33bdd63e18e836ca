/**
 * Integer arithmetic shared by the RSA engine: divisibility, the facts about
 * Euclidean `/` and `%` that the proofs need, natural powers, and the modular
 * exponentiation that the engine takes from its big-integer library.
 */
module Arith {

  /** `d` divides `x`; zero divides only zero. */
  predicate Divides(d: nat, x: int) {
    if d == 0 then x == 0 else x % d == 0
  }

  function Abs(x: int): nat {
    if x < 0 then -x else x
  }

  /** `b` raised to the natural power `x`. */
  function Pow(b: nat, x: nat): nat
    decreases x
  {
    if x == 0 then 1 else b * Pow(b, x - 1)
  }

  /** Quotient and remainder are determined by `a == q * n + r` with `0 <= r < n`. */
  lemma DivModUnique(a: int, n: int, q: int, r: int)
    requires n > 0 && 0 <= r < n && a == q * n + r
    ensures a / n == q && a % n == r
  {
    var q0, r0 := a / n, a % n;
    assert (q - q0) * n == r0 - r;
    if q0 < q {
      MulAtLeast(q - q0, n);
    } else if q0 > q {
      MulAtLeast(q0 - q, n);
    }
  }

  lemma MulAtLeast(k: int, n: int)
    requires k >= 1 && n > 0
    ensures k * n >= n
  {
    assert k * n == (k - 1) * n + n;
  }

  /** Adding a multiple of `n` does not change the remainder. */
  lemma ModAddMultiple(c: int, k: int, n: int)
    requires n > 0
    ensures (c + k * n) % n == c % n
  {
    assert c + k * n == (c / n + k) * n + c % n;
    DivModUnique(c + k * n, n, c / n + k, c % n);
  }

  /** Two numbers have the same remainder exactly when `n` divides their difference. */
  lemma ModEqDividesDiff(x: int, y: int, n: int)
    requires n > 0
    ensures x % n == y % n <==> (x - y) % n == 0
  {
    var qx, qy := x / n, y / n;
    assert x == qx * n + x % n && y == qy * n + y % n;
    if x % n == y % n {
      assert (qx - qy) * n == qx * n - qy * n;
      DivModUnique(x - y, n, qx - qy, 0);
    }
    if (x - y) % n == 0 {
      var k := (x - y) / n;
      assert x - y == k * n;
      assert (qy + k) * n == qy * n + k * n;
      DivModUnique(x, n, qy + k, y % n);
    }
  }

  /** A remainder is its own remainder. */
  lemma ModMod(x: int, n: int)
    requires n > 0
    ensures (x % n) % n == x % n
  {
    DivModUnique(x % n, n, 0, x % n);
  }

  /** Remainders of congruent numbers stay equal after adding the same `c`. */
  lemma ModAddCongruent(x: int, y: int, c: int, n: int)
    requires n > 0 && x % n == y % n
    ensures (x + c) % n == (y + c) % n
  {
    assert x + c == (x % n + c) + (x / n) * n;
    assert y + c == (y % n + c) + (y / n) * n;
    ModAddMultiple(x % n + c, x / n, n);
    ModAddMultiple(y % n + c, y / n, n);
  }

  /** The remainder of a product depends only on the remainders of the factors. */
  lemma MulMod(a: int, b: int, n: int)
    requires n > 0
    ensures (a * b) % n == ((a % n) * (b % n)) % n
  {
    var qa, ra := a / n, a % n;
    var qb, rb := b / n, b % n;
    var k := qa * qb * n + qa * rb + ra * qb;
    calc {
      a * b;
      (qa * n + ra) * (qb * n + rb);
      ra * rb + k * n;
    }
    ModAddMultiple(ra * rb, k, n);
  }

  /** Divisibility is closed under integer linear combinations. */
  lemma DividesLinear(d: nat, x: int, y: int, a: int, b: int)
    requires Divides(d, x) && Divides(d, y)
    ensures Divides(d, a * x + b * y)
  {
    if d > 0 {
      var kx, ky := x / d, y / d;
      assert x == kx * d && y == ky * d;
      assert a * x + b * y == 0 + (a * kx + b * ky) * d;
      ModAddMultiple(0, a * kx + b * ky, d);
    }
  }

  /** `d` divides every multiple `k * d` of itself. */
  lemma DividesMultiple(d: nat, k: int)
    ensures Divides(d, k * d)
  {
    if d > 0 {
      ModAddMultiple(0, k, d);
    }
  }

  /** Dividing by an exact positive divisor leaves a cofactor. */
  lemma DivisorQuotient(d: nat, x: int)
    requires d > 0 && Divides(d, x)
    ensures x == d * (x / d)
  {
  }

  /** A positive number is at least as large as each of its divisors. */
  lemma DividesBound(d: nat, x: nat)
    requires x > 0 && Divides(d, x)
    ensures 1 <= d <= x
  {
    assert x == (x / d) * d;
    assert x / d >= 1;
  }

  /** Divisibility is transitive. */
  lemma DividesTrans(a: nat, b: nat, c: int)
    requires Divides(a, b) && Divides(b, c)
    ensures Divides(a, c)
  {
    if b > 0 {
      assert c == (c / b) * b;
      DividesLinear(a, b, 0, c / b, 0);
    }
  }

  /** Two naturals that divide each other are equal. */
  lemma DividesAntisym(a: nat, b: nat)
    requires Divides(a, b) && Divides(b, a)
    ensures a == b
  {
    if a > 0 && b > 0 {
      DividesBound(a, b);
      DividesBound(b, a);
    }
  }

  lemma {:induction false} PowAdd(b: nat, x: nat, y: nat)
    ensures Pow(b, x + y) == Pow(b, x) * Pow(b, y)
    decreases x
  {
    if x > 0 {
      PowAdd(b, x - 1, y);
      assert Pow(b, x + y) == b * Pow(b, x - 1 + y);
    }
  }

  lemma {:induction false} PowMul(b: nat, x: nat, y: nat)
    ensures Pow(b, x * y) == Pow(Pow(b, x), y)
    decreases y
  {
    if y > 0 {
      var z := x * (y - 1);
      PowMul(b, x, y - 1);
      assert x * y == z + x;
      PowAdd(b, z, x);
      assert Pow(Pow(b, x), y) == Pow(b, x) * Pow(Pow(b, x), y - 1);
    }
  }

  lemma {:induction false} PowOne(y: nat)
    ensures Pow(1, y) == 1
  {
    if y > 0 {
      PowOne(y - 1);
    }
  }

  /** A positive power of a multiple of `n` is again a multiple of `n`. */
  lemma PowDivides(n: nat, b: nat, x: nat)
    requires x >= 1 && Divides(n, b)
    ensures Divides(n, Pow(b, x))
  {
    DividesLinear(n, b, 0, Pow(b, x - 1), 0);
  }

  /** The remainder of a power depends only on the remainder of the base. */
  lemma {:induction false} PowModBase(b: nat, x: nat, n: nat)
    requires n > 0
    ensures Pow(b % n, x) % n == Pow(b, x) % n
    decreases x
  {
    if x > 0 {
      PowModBase(b, x - 1, n);
      MulMod(b % n, Pow(b % n, x - 1), n);
      MulMod(b, Pow(b, x - 1), n);
      ModMod(b, n);
    }
  }

  /**
   * Modular exponentiation by repeated squaring, the operation the engine takes
   * from its big-integer library: `b` to the power `x`, reduced modulo `n`
   * (`ModPowIsPow`).
   */
  function ModPow(b: nat, x: nat, n: nat): nat
    requires n > 0
    decreases x
  {
    if x == 0 then
      1 % n
    else if x % 2 == 0 then
      var h := ModPow(b, x / 2, n);
      (h * h) % n
    else
      (b * ModPow(b, x - 1, n)) % n
  }

  lemma {:induction false} ModPowIsPow(b: nat, x: nat, n: nat)
    requires n > 0
    ensures ModPow(b, x, n) == Pow(b, x) % n
    decreases x
  {
    if x > 0 && x % 2 == 0 {
      ModPowIsPow(b, x / 2, n);
      PowAdd(b, x / 2, x / 2);
      MulMod(Pow(b, x / 2), Pow(b, x / 2), n);
    } else if x > 0 {
      ModPowIsPow(b, x - 1, n);
      MulMod(b, Pow(b, x - 1), n);
      MulMod(b, Pow(b, x - 1) % n, n);
      ModMod(Pow(b, x - 1), n);
    }
  }

  /** One step of evaluating `ModPow` on an even exponent, `h * h == q * n + r`. */
  lemma ModPowEven(b: nat, x: nat, n: nat, h: nat, q: nat, r: nat)
    requires n > 0 && x > 0 && x % 2 == 0 && ModPow(b, x / 2, n) == h
    requires h * h == q * n + r && r < n
    ensures ModPow(b, x, n) == r
  {
    DivModUnique(h * h, n, q, r);
  }

  /** One step of evaluating `ModPow` on an odd exponent, `b * h == q * n + r`. */
  lemma ModPowOdd(b: nat, x: nat, n: nat, h: nat, q: nat, r: nat)
    requires n > 0 && x % 2 == 1 && ModPow(b, x - 1, n) == h
    requires b * h == q * n + r && r < n
    ensures ModPow(b, x, n) == r
  {
    DivModUnique(b * h, n, q, r);
  }

  /** A product grows with its second factor. */
  lemma MulMonotone(a: nat, b: int, c: int)
    requires b <= c
    ensures a * b <= a * c
  {
    assert a * c - a * b == a * (c - b);
  }

  /** Squaring is monotone on naturals. */
  lemma SquareMonotone(a: nat, b: nat)
    requires a <= b
    ensures a * a <= b * b
  {
    MulMonotone(a, a, b);
    MulMonotone(b, a, b);
  }

  /** A common positive factor scales divisibility. */
  lemma DividesScale(c: nat, x: nat, y: int)
    requires Divides(x, y)
    ensures Divides(c * x, c * y)
  {
    if x > 0 {
      var t := y / x;
      assert y == x * t;
      assert c * y == t * (c * x);
      DividesMultiple(c * x, t);
    }
  }

  /** A common positive factor can be cancelled from divisibility. */
  lemma DividesCancel(c: nat, x: nat, y: int)
    requires c > 0 && Divides(c * x, c * y)
    ensures Divides(x, y)
  {
    if x > 0 {
      var t := (c * y) / (c * x);
      assert c * y == (c * x) * t;
      assert c * (y - x * t) == 0;
      assert y == t * x;
      DividesMultiple(x, t);
    }
  }
}
