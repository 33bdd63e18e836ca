/**
 * Primality of the two primes the engine's demonstration and tests use,
 * 1000000007 and 1000000009, by Pocklington's criterion: if every prime
 * factor of `n` is `1` modulo some `a` with `(a + 1)^2 > n`, then `n` is prime.
 * The generic theory comes first; the certificates follow, each one a chain of
 * prime factors of `n - 1` down to 2.
 */
module Primality {
  import opened Arith
  import opened Gcd
  import opened Fermat

  /** Every prime factor of `n` is `1` modulo `a`. */
  ghost predicate FactorsAbove(n: nat, a: nat) {
    forall p: nat :: IsPrime(p) && Divides(p, n) ==> Divides(a, p - 1)
  }

  /** If `a^x` and `a^y` are both `1` modulo `p`, so is `a^gcd(x, y)`. */
  lemma {:induction false} PowGcd(a: nat, p: nat, x: nat, y: nat)
    requires p >= 2 && Pow(a, x) % p == 1 && Pow(a, y) % p == 1
    ensures Pow(a, Euclides(x, y)) % p == 1
    decreases y
  {
    if y > 0 {
      PowMultipleOne(a, p, y, x / y);
      var u, v := Pow(a, y * (x / y)), Pow(a, x % y);
      assert x == y * (x / y) + x % y;
      PowAdd(a, y * (x / y), x % y);
      MulMod(u, v, p);
      ModMod(v, p);
      PowGcd(a, p, y, x % y);
    }
  }

  /** If `a^y` is `1` modulo `p`, so is every power `a^(y*t)`. */
  lemma PowMultipleOne(a: nat, p: nat, y: nat, t: nat)
    requires p >= 2 && Pow(a, y) % p == 1
    ensures Pow(a, y * t) % p == 1
  {
    PowMul(a, y, t);
    PowModBase(Pow(a, y), t, p);
    PowOne(t);
    DivModUnique(1, p, 0, 1);
  }

  /** A divisor of `q^k * s` that does not divide `q^(k-1) * s`, for a prime `q`, is a multiple of `q^k`. */
  lemma {:induction false} PrimePowerDivides(q: nat, k: nat, s: nat, g: nat)
    requires IsPrime(q) && k >= 1
    requires Divides(g, Pow(q, k) * s) && !Divides(g, Pow(q, k - 1) * s)
    ensures Divides(Pow(q, k), g)
    decreases k
  {
    var m := Pow(q, k - 1) * s;
    PowFactorOut(q, k, s);
    assert Divides(q, g) by {
      if !Divides(q, g) {
        PrimeCoprime(q, g);
        EuclidesSymmetric(q, g);
        CoprimeDividesProduct(g, q, m);
      }
    }
    if k == 1 {
      assert Pow(q, 1) == q;
    } else {
      var h := g / q;
      DivisorQuotient(q, g);
      assert Divides(h, m) by {
        DividesCancel(q, h, m);
      }
      var m' := Pow(q, k - 2) * s;
      assert !Divides(h, m') by {
        PowFactorOut(q, k - 1, s);
        if Divides(h, m') {
          DividesScale(q, h, m');
        }
      }
      PrimePowerDivides(q, k - 1, s, h);
      DividesScale(q, Pow(q, k - 1), h);
    }
  }

  /** `q^k * s == q * (q^(k-1) * s)`. */
  lemma PowFactorOut(q: nat, k: nat, s: nat)
    requires k >= 1
    ensures Pow(q, k) * s == q * (Pow(q, k - 1) * s)
  {
    var r := Pow(q, k - 1);
    assert Pow(q, k) == q * r;
    assert (q * r) * s == q * (r * s);
  }

  /** A congruence modulo `n` holds modulo every divisor of `n`. */
  lemma CongruentModDivisor(x: int, y: int, n: nat, p: nat)
    requires n > 0 && p > 0 && Divides(p, n) && x % n == y % n
    ensures x % p == y % p
  {
    ModEqDividesDiff(x, y, n);
    DividesTrans(p, n, x - y);
    ModEqDividesDiff(x, y, p);
  }

  /** `(w % n + n - 1) % n`, the witness minus one as the engine would reduce it, is divisible by `p` when `w` is `1` modulo `p`. */
  lemma PredecessorDivides(n: nat, p: nat, w: nat, y: int)
    requires n >= 2 && p >= 2 && Divides(p, n) && w % p == 1
    requires y == (w % n + n - 1) % n
    ensures Divides(p, y)
  {
    var r := w % n;
    assert w - 1 == (r - 1) + (w / n) * n;
    ModAddMultiple(r - 1, w / n, n);
    ModAddMultiple(r - 1, 1, n);
    ModMod(r + n - 1, n);
    CongruentModDivisor(y, w - 1, n, p);
    DivModUnique(1, p, 0, 1);
    ModEqDividesDiff(w, 1, p);
  }

  /** If `a^m - 1` is coprime to `n`, then `a^m` is not `1` modulo any prime factor `p` of `n`. */
  lemma PocklingtonOrder(n: nat, m: nat, a: nat, p: nat)
    requires n >= 2 && IsPrime(p) && Divides(p, n)
    requires Euclides(n, (ModPow(a, m, n) + n - 1) % n) == 1
    ensures Pow(a, m) % p != 1
  {
    var w := Pow(a, m);
    ModPowIsPow(a, m, n);
    var y := (w % n + n - 1) % n;
    CoprimeNotDivided(n, y, p);
    if w % p == 1 {
      PredecessorDivides(n, p, w, y);
    }
  }

  /** No divisor of `n` from 2 up divides a `y` coprime to `n`. */
  lemma CoprimeNotDivided(n: nat, y: nat, p: nat)
    requires n >= 1 && p >= 2 && Divides(p, n) && Euclides(n, y) == 1
    ensures !Divides(p, y)
  {
    if Divides(p, y) {
      EuclidesGreatest(n, y, p);
    }
  }

  /** Modulo a prime factor `p` of `n`, the witness `a` has `a^(n-1) == 1`, and `a` is not a multiple of `p`. */
  lemma WitnessModFactor(n: nat, a: nat, p: nat)
    requires n >= 2 && ModPow(a, n - 1, n) == 1 && IsPrime(p) && Divides(p, n)
    ensures Pow(a, n - 1) % p == 1 && !Divides(p, a)
  {
    ModPowIsPow(a, n - 1, n);
    DivModUnique(1, n, 0, 1);
    CongruentModDivisor(Pow(a, n - 1), 1, n, p);
    DivModUnique(1, p, 0, 1);
    if Divides(p, a) {
      PowDivides(p, a, n - 1);
    }
  }

  /**
   * Pocklington's step for one prime factor `p` of `n` and one prime power
   * `q^k` dividing `n - 1`, with witness `a` and `r == a^((n-1)/q) mod n`.
   */
  lemma PocklingtonPrime(n: nat, q: nat, k: nat, a: nat, m: nat, r: nat, p: nat)
    requires n >= 2 && IsPrime(q) && k >= 1 && Divides(Pow(q, k), n - 1)
    requires m == (n - 1) / q && ModPow(a, n - 1, n) == 1 && ModPow(a, m, n) == r
    requires Euclides(n, (r + n - 1) % n) == 1
    requires IsPrime(p) && Divides(p, n)
    ensures Divides(Pow(q, k), p - 1)
  {
    PocklingtonOrder(n, m, a, p);
    WitnessModFactor(n, a, p);
    OrderDividesPredecessor(q, k, a, p, n - 1, m);
  }

  /**
   * If `a^x == 1` but `a^(x/q) != 1` modulo a prime `p` that does not divide
   * `a`, for a prime power `q^k` dividing `x`, then `q^k` divides `p - 1`.
   */
  lemma OrderDividesPredecessor(q: nat, k: nat, a: nat, p: nat, x: nat, m: nat)
    requires IsPrime(q) && k >= 1 && IsPrime(p) && x > 0 && Divides(Pow(q, k), x)
    requires m == x / q && Pow(a, x) % p == 1 && Pow(a, m) % p != 1 && !Divides(p, a)
    ensures Divides(Pow(q, k), p - 1)
  {
    FermatCoprime(a, p);
    var g := Euclides(x, p - 1);
    assert Pow(a, g) % p == 1 && g > 0 by {
      PowGcd(a, p, x, p - 1);
      EuclidesGreatest(x, p - 1, 1);
    }
    var s := QuotientByPrime(x, q, k);
    OrderNotDividing(a, p, g, Pow(q, k - 1) * s);
    PrimePowerDivides(q, k, s, g);
    DividesTrans(Pow(q, k), g, p - 1);
  }

  /** An exponent `g` with `a^g == 1 (mod p)` divides no `m` with `a^m != 1 (mod p)`. */
  lemma OrderNotDividing(a: nat, p: nat, g: nat, m: nat)
    requires p >= 2 && g > 0 && Pow(a, g) % p == 1 && Pow(a, m) % p != 1
    ensures !Divides(g, m)
  {
    if Divides(g, m) {
      DivisorQuotient(g, m);
      PowMultipleOne(a, p, g, m / g);
    }
  }

  /** For `x == q^k * s`, dividing by `q` leaves `q^(k-1) * s`. */
  lemma QuotientByPrime(x: nat, q: nat, k: nat) returns (s: nat)
    requires q >= 1 && k >= 1 && Divides(Pow(q, k), x)
    ensures x == Pow(q, k) * s && x / q == Pow(q, k - 1) * s
  {
    PowPositive(q, k);
    s := x / Pow(q, k);
    assert x == Pow(q, k) * s;
    assert x == q * (Pow(q, k - 1) * s);
    DivModUnique(x, q, Pow(q, k - 1) * s, 0);
  }

  lemma {:induction false} PowPositive(q: nat, k: nat)
    requires q >= 1
    ensures Pow(q, k) >= 1
  {
    if k > 0 {
      PowPositive(q, k - 1);
      MulAtLeast(q, Pow(q, k - 1));
    }
  }

  /** Pocklington's criterion for one prime power `q^k` dividing `n - 1`, with witness `a` and `r == a^m mod n` for `m == (n-1)/q`. */
  lemma PocklingtonPower(n: nat, q: nat, k: nat, a: nat, m: nat, r: nat)
    requires n >= 2 && IsPrime(q) && k >= 1 && Divides(Pow(q, k), n - 1)
    requires ModPow(a, n - 1, n) == 1
    requires m == (n - 1) / q && ModPow(a, m, n) == r && Euclides(n, (r + n - 1) % n) == 1
    ensures FactorsAbove(n, Pow(q, k))
  {
    forall p: nat | IsPrime(p) && Divides(p, n)
      ensures Divides(Pow(q, k), p - 1)
    {
      PocklingtonPrime(n, q, k, a, m, r, p);
    }
  }

  /** Coprime moduli combine. */
  lemma FactorsCombine(n: nat, a: nat, b: nat)
    requires FactorsAbove(n, a) && FactorsAbove(n, b) && Euclides(a, b) == 1
    ensures FactorsAbove(n, a * b)
  {
    forall p: nat | IsPrime(p) && Divides(p, n)
      ensures Divides(a * b, p - 1)
    {
      CoprimeDivisorsDivide(a, b, p - 1);
    }
  }

  /** Two coprime divisors of a positive `x` divide it together. */
  lemma CoprimeDivisorsDivide(a: nat, b: nat, x: nat)
    requires x > 0 && Divides(a, x) && Divides(b, x) && Euclides(a, b) == 1
    ensures Divides(a * b, x)
  {
    DividesBound(a, x);
    var t := x / a;
    DivisorQuotient(a, x);
    EuclidesSymmetric(a, b);
    CoprimeDividesProduct(b, a, t);
    DividesScale(a, b, t);
  }

  /** Every number from 2 up has a prime factor. */
  lemma {:induction false} PrimeFactor(s: nat) returns (p: nat)
    requires s >= 2
    ensures IsPrime(p) && Divides(p, s)
    decreases s
  {
    if IsPrime(s) {
      DividesSelf(s);
      p := s;
    } else {
      var d: nat :| Divides(d, s) && d != 1 && d != s;
      DividesBound(d, s);
      p := PrimeFactor(d);
      DividesTrans(p, d, s);
    }
  }

  /** A composite `n` has a prime factor `p` with `p * p <= n`. */
  lemma SmallPrimeFactor(n: nat) returns (p: nat)
    requires n >= 2 && !IsPrime(n)
    ensures IsPrime(p) && Divides(p, n) && p * p <= n
  {
    var d: nat :| Divides(d, n) && d != 1 && d != n;
    DividesBound(d, n);
    var e := n / d;
    assert n == e * d;
    assert e != 1;
    DividesMultiple(e, d);
    var s := if d <= e then d else e;
    MulMonotone(s, s, if d <= e then e else d);
    assert s * s <= n;
    p := PrimeFactor(s);
    DividesBound(p, s);
    DividesTrans(p, s, n);
    SquareMonotone(p, s);
  }

  /** Pocklington's criterion: if every prime factor of `n` is `1` modulo `a` and `(a + 1)^2 > n`, then `n` is prime. */
  lemma PrimeFromFactors(n: nat, a: nat)
    requires n >= 2 && FactorsAbove(n, a) && (a + 1) * (a + 1) > n
    ensures IsPrime(n)
  {
    if !IsPrime(n) {
      var p := SmallPrimeFactor(n);
      DividesBound(a, p - 1);
      SquareMonotone(a + 1, p);
    }
  }

  lemma Prime2()
    ensures IsPrime(2)
  {
    forall d: nat | Divides(d, 2)
      ensures d == 1 || d == 2
    {
      DividesBound(d, 2);
    }
  }
}
