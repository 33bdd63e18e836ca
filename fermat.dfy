/**
 * Why RSA decryption undoes encryption: Fermat's little theorem, proved from
 * the binomial theorem, and its consequence for a product of two distinct
 * primes, `m^x == m (mod p*q)` whenever `x == 1 (mod (p-1)*(q-1))`.
 */
module Fermat {
  import opened Arith
  import opened Gcd

  /** The binomial coefficient "n choose k", by Pascal's rule. */
  function Binom(n: nat, k: nat): nat
    decreases n
  {
    if k == 0 then 1 else if n == 0 then 0 else Binom(n - 1, k - 1) + Binom(n - 1, k)
  }

  lemma {:induction false} BinomAbove(n: nat, k: nat)
    requires k > n
    ensures Binom(n, k) == 0
    decreases n
  {
    if n > 0 {
      BinomAbove(n - 1, k - 1);
      BinomAbove(n - 1, k);
    }
  }

  lemma {:induction false} BinomDiagonal(n: nat)
    ensures Binom(n, n) == 1
  {
    if n > 0 {
      BinomDiagonal(n - 1);
      BinomAbove(n - 1, n);
    }
  }

  /** The absorption identity `(k+1) * C(n+1, k+1) == (n+1) * C(n, k)`. */
  lemma {:induction false} Absorption(n: nat, k: nat)
    ensures (k + 1) * Binom(n + 1, k + 1) == (n + 1) * Binom(n, k)
    decreases n
  {
    if n == 0 {
      if k > 0 {
        BinomAbove(0, k);
        BinomAbove(1, k + 1);
      }
    } else if k == 0 {
      Absorption(n - 1, 0);
      assert Binom(n, 1) == n;
    } else {
      // C(n+1, k+1) == C(n, k) + C(n, k+1); the hypothesis rewrites the
      // multiples of C(n, k) and C(n, k+1) into multiples of C(n-1, _).
      Absorption(n - 1, k);
      Absorption(n - 1, k - 1);
      AbsorptionStep(n, k, Binom(n + 1, k + 1), Binom(n, k), Binom(n, k + 1), Binom(n - 1, k - 1), Binom(n - 1, k));
    }
  }

  lemma AbsorptionStep(n: int, k: int, a: int, b: int, c: int, d: int, e: int)
    requires a == b + c && b == d + e
    requires (k + 1) * c == n * e && k * b == n * d
    ensures (k + 1) * a == (n + 1) * b
  {
    calc {
      (k + 1) * a;
      k * b + b + (k + 1) * c;
      n * d + b + n * e;
      n * (d + e) + b;
      (n + 1) * b;
    }
  }

  /** The absorption identity as `k * C(n, k) == C(n-1, k-1) * n`. */
  lemma AbsorptionAt(n: nat, k: nat)
    requires n >= 1 && k >= 1
    ensures k * Binom(n, k) == Binom(n - 1, k - 1) * n
  {
    Absorption(n - 1, k - 1);
  }

  /** A prime `p` divides every `C(p, k)` with `0 < k < p`. */
  lemma PrimeDividesBinom(p: nat, k: nat)
    requires IsPrime(p) && 0 < k < p
    ensures Divides(p, Binom(p, k))
  {
    var c, b := Binom(p, k), Binom(p - 1, k - 1);
    AbsorptionAt(p, k);
    DividesMultiple(p, b);
    EuclidLemma(p, k, c);
    if Divides(p, k) {
      DividesBound(p, k);
    }
  }

  /** The first `j + 1` terms of the expansion of `(a + 1)^n`: the sum of `C(n, i) * a^i` for `i` from 0 to `j`. */
  function BinomSum(a: nat, n: nat, j: nat): nat
    decreases j
  {
    if j == 0 then Binom(n, 0) * Pow(a, 0) else BinomSum(a, n, j - 1) + Binom(n, j) * Pow(a, j)
  }

  /** Pascal's rule lifted to the partial sums. */
  lemma {:induction false} BinomSumPascal(a: nat, n: nat, j: nat)
    requires j >= 1
    ensures BinomSum(a, n + 1, j) == a * BinomSum(a, n, j - 1) + BinomSum(a, n, j)
    decreases j
  {
    if j == 1 {
      assert Pow(a, 1) == a;
    } else {
      BinomSumPascal(a, n, j - 1);
      PascalStep(a, BinomSum(a, n, j - 2), BinomSum(a, n, j - 1), Binom(n, j - 1), Binom(n, j), Pow(a, j - 1));
    }
  }

  lemma PascalStep(a: int, u: int, v: int, b1: int, b2: int, w: int)
    ensures a * u + v + (b1 + b2) * (a * w) == a * (u + b1 * w) + (v + b2 * (a * w))
  {
  }

  /** Terms beyond `C(n, n)` are zero. */
  lemma {:induction false} BinomSumTail(a: nat, n: nat, j: nat)
    requires j >= n
    ensures BinomSum(a, n, j) == BinomSum(a, n, n)
    decreases j
  {
    if j > n {
      BinomSumTail(a, n, j - 1);
      BinomAbove(n, j);
    }
  }

  /** The binomial theorem for `(a + 1)^n`. */
  lemma {:induction false} BinomialTheorem(a: nat, n: nat)
    ensures Pow(a + 1, n) == BinomSum(a, n, n)
    decreases n
  {
    if n > 0 {
      var s := BinomSum(a, n - 1, n - 1);
      assert Pow(a + 1, n) == (a + 1) * s by {
        BinomialTheorem(a, n - 1);
      }
      assert BinomSum(a, n, n) == a * s + s by {
        BinomSumPascal(a, n - 1, n);
        BinomSumTail(a, n - 1, n);
      }
      assert (a + 1) * s == a * s + s;
    }
  }

  /** Below the last term, the expansion of `(a + 1)^p` is 1 modulo a prime `p`. */
  lemma {:induction false} BinomSumModPrime(a: nat, p: nat, j: nat)
    requires IsPrime(p) && j < p
    ensures BinomSum(a, p, j) % p == 1
    decreases j
  {
    if j == 0 {
      DivModUnique(1, p, 0, 1);
    } else {
      BinomSumModPrime(a, p, j - 1);
      PrimeDividesBinom(p, j);
      var k := Binom(p, j) / p;
      assert Binom(p, j) * Pow(a, j) == (k * Pow(a, j)) * p;
      ModAddMultiple(BinomSum(a, p, j - 1), k * Pow(a, j), p);
    }
  }

  /** `(a + 1)^p == a^p + 1 (mod p)` for a prime `p`. */
  lemma FreshmansDream(a: nat, p: nat)
    requires IsPrime(p)
    ensures Pow(a + 1, p) % p == (Pow(a, p) + 1) % p
  {
    BinomialTheorem(a, p);
    BinomDiagonal(p);
    BinomSumModPrime(a, p, p - 1);
    var s := BinomSum(a, p, p - 1);
    assert Pow(a + 1, p) == s + Pow(a, p);
    assert s == 1 + (s / p) * p;
    ModAddMultiple(Pow(a, p) + 1, s / p, p);
  }

  /** Fermat's little theorem: `a^p == a (mod p)` for a prime `p`. */
  lemma {:induction false} FermatLittle(a: nat, p: nat)
    requires IsPrime(p)
    ensures Pow(a, p) % p == a % p
    decreases a
  {
    if a == 0 {
      assert Pow(0, p) == 0 * Pow(0, p - 1);
    } else {
      FermatLittle(a - 1, p);
      FreshmansDream(a - 1, p);
      ModAddCongruent(Pow(a - 1, p), a - 1, 1, p);
    }
  }

  /** For `a` not divisible by the prime `p`, `a^(p-1) == 1 (mod p)`. */
  lemma FermatCoprime(a: nat, p: nat)
    requires IsPrime(p) && !Divides(p, a)
    ensures Pow(a, p - 1) % p == 1
  {
    FermatLittle(a, p);
    ModEqDividesDiff(Pow(a, p), a, p);
    assert Pow(a, p) - a == a * (Pow(a, p - 1) - 1);
    EuclidLemma(p, a, Pow(a, p - 1) - 1);
    ModEqDividesDiff(Pow(a, p - 1), 1, p);
    DivModUnique(1, p, 0, 1);
  }

  /** `m^x == m (mod p)` for `x == 1 + j*(p-1)`, for a prime `p` and every `m`, divisible by `p` or not. */
  lemma FermatExponent(p: nat, m: nat, j: nat, x: nat)
    requires IsPrime(p) && x == 1 + j * (p - 1)
    ensures Pow(m, x) % p == m % p
  {
    var y := Pow(Pow(m, p - 1), j);
    PowMul(m, p - 1, j);
    assert (p - 1) * j == j * (p - 1);
    assert Pow(m, x) == m * y;
    MulMod(m, y, p);
    if Divides(p, m) {
      assert m % p == 0;
    } else {
      FermatCoprime(m, p);
      PowModBase(Pow(m, p - 1), j, p);
      PowOne(j);
      DivModUnique(1, p, 0, 1);
      assert y % p == 1;
      ModMod(m, p);
    }
  }

  /** Two distinct primes that both divide `x` divide it together. */
  lemma DistinctPrimesDivide(p: nat, q: nat, x: int)
    requires IsPrime(p) && IsPrime(q) && p != q
    requires Divides(p, x) && Divides(q, x)
    ensures Divides(p * q, x)
  {
    var t := x / p;
    assert x == p * t;
    assert !Divides(q, p);
    EuclidLemma(q, p, t);
    assert t == (t / q) * q;
    assert x == (t / q) * (p * q);
    DividesMultiple(p * q, t / q);
  }

  /**
   * The RSA identity: for distinct primes `p`, `q` and an exponent `x` with
   * `x % ((p-1)*(q-1)) == 1`, raising to the power `x` is the identity modulo `p*q`.
   */
  lemma RsaExponent(p: nat, q: nat, m: nat, x: nat)
    requires IsPrime(p) && IsPrime(q) && p != q
    requires x % ((p - 1) * (q - 1)) == 1
    ensures Pow(m, x) % (p * q) == m % (p * q)
  {
    RsaExponentModFactors(p, q, m, x);
    ChineseRemainder(p, q, Pow(m, x), m);
  }

  /** Modulo each of the two primes, raising to the power `x` is the identity. */
  lemma RsaExponentModFactors(p: nat, q: nat, m: nat, x: nat)
    requires IsPrime(p) && IsPrime(q)
    requires x % ((p - 1) * (q - 1)) == 1
    ensures Pow(m, x) % p == m % p && Pow(m, x) % q == m % q
  {
    var phi := (p - 1) * (q - 1);
    MulAtLeast(p - 1, q - 1);
    var k := x / phi;
    ExponentSplit(x, k, p - 1, q - 1);
    FermatExponent(p, m, k * (q - 1), x);
    FermatExponent(q, m, k * (p - 1), x);
  }

  /** Numbers congruent modulo two distinct primes are congruent modulo their product. */
  lemma ChineseRemainder(p: nat, q: nat, y: int, m: int)
    requires IsPrime(p) && IsPrime(q) && p != q
    requires y % p == m % p && y % q == m % q
    ensures y % (p * q) == m % (p * q)
  {
    MulAtLeast(p, q);
    ModEqDividesDiff(y, m, p);
    ModEqDividesDiff(y, m, q);
    DistinctPrimesDivide(p, q, y - m);
    ModEqDividesDiff(y, m, p * q);
  }

  lemma ExponentSplit(x: int, k: int, a: int, b: int)
    requires a * b > 0 && k == x / (a * b) && x % (a * b) == 1
    ensures x == 1 + (k * b) * a && x == 1 + (k * a) * b
  {
    assert x == k * (a * b) + 1;
  }
}
