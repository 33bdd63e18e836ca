/**
 * The RSA engine of `src/main.rs`: the modular inverse by the iterative
 * extended Euclidean algorithm, the coprime finder, key construction, and
 * encryption and decryption of numbers and of strings, one character at a time.
 *
 * Numbers are unbounded; the Rust code works on `u128`/`i128`.
 */
module Rsa {
  import opened Arith
  import opened Gcd
  import opened Fermat

  datatype Option<T> = None | Some(value: T)

  /**
   * An RSA key: modulus `n`, public exponent `e`, private exponent `d`, and the
   * shareable pair `publicKey == (n, e)`.
   */
  datatype Key = Key(n: nat, e: nat, d: nat, publicKey: (nat, nat))

  /** The updated coefficients of one pass of the loop in `ModInverse` keep the loop's invariants. */
  lemma ModInverseStep(e0: int, m0: int, e: int, m: int, x0: int, x1: int, y0: int, y1: int)
    requires e > 1 && m > 0
    requires x1 * e0 + y1 * m0 == e && x0 * e0 + y0 * m0 == m
    requires Abs(x0) * e + Abs(x1) * m == m0 && x0 * x1 <= 0
    ensures (x1 - (e / m) * x0) * e0 + (y1 - (e / m) * y0) * m0 == e % m
    ensures Abs(x1 - (e / m) * x0) * m + Abs(x0) * (e % m) == m0
    ensures (x1 - (e / m) * x0) * x0 <= 0
    ensures 2 * Abs(x0) <= m0
  {
    var q := e / m;
    assert e % m == e - q * m;
    StepBezout(e0, m0, e, m, x0, x1, y0, y1, q);
    StepAbs(x0, x1, q);
    StepSum(Abs(x0), Abs(x1), e, m, q, m0);
    MulMonotone(Abs(x0), 2, e);
  }

  lemma StepBezout(e0: int, m0: int, e: int, m: int, x0: int, x1: int, y0: int, y1: int, q: int)
    requires x1 * e0 + y1 * m0 == e && x0 * e0 + y0 * m0 == m
    ensures (x1 - q * x0) * e0 + (y1 - q * y0) * m0 == e - q * m
  {
    assert (x1 - q * x0) * e0 + (y1 - q * y0) * m0 == (x1 * e0 + y1 * m0) - q * (x0 * e0 + y0 * m0);
  }

  lemma StepAbs(x0: int, x1: int, q: int)
    requires x0 * x1 <= 0 && q >= 0
    ensures Abs(x1 - q * x0) == Abs(x1) + q * Abs(x0) && (x1 - q * x0) * x0 <= 0
  {
    if x0 < 0 {
      assert x1 >= 0 && q * x0 <= 0;
    } else if x0 > 0 {
      assert x1 <= 0 && q * x0 >= 0;
    }
  }

  lemma StepSum(a0: int, a1: int, e: int, m: int, q: int, m0: int)
    requires a0 * e + a1 * m == m0
    ensures (a1 + q * a0) * m + a0 * (e - q * m) == m0
  {
  }

  /** With `d * e + y * m == 1` and `-m < d < m`, the normalised coefficient is the inverse of `e` in `[0, m)`. */
  lemma NormalisedInverse(e: int, m: int, d: int, y: int)
    requires m >= 2 && -m < d < m && d * e + y * m == 1
    ensures var r := if d < 0 then d + m else d; 0 <= r < m && (e * r) % m == 1
  {
    var r := if d < 0 then d + m else d;
    if d < 0 {
      assert e * r == (e - y) * m + 1;
      DivModUnique(e * r, m, e - y, 1);
    } else {
      assert e * r == -y * m + 1;
      DivModUnique(e * r, m, -y, 1);
    }
  }

  /**
   * `Rsa::mod_inverse`: the inverse of `e0` modulo `m0` by the iterative extended
   * Euclidean algorithm. `None` stands for the division by zero on which the
   * Rust code panics: the loop reaches `m == 0` while `e > 1`, which happens
   * exactly when `e0 >= 2` shares a factor with `m0`.
   */
  method ModInverse(e0: nat, m0: nat) returns (r: Option<nat>)
    ensures m0 == 1 ==> r == Some(0)
    ensures m0 != 1 && e0 <= 1 ==> r == Some(1)
    ensures r.None? <==> m0 != 1 && e0 >= 2 && Euclides(e0, m0) != 1
    ensures m0 >= 2 && e0 >= 2 && Euclides(e0, m0) == 1 ==> r.Some? && r.value < m0 && (e0 * r.value) % m0 == 1
  {
    // The Rust code converts both arguments to `i128`.
    var m: int := m0;
    var e: int := e0;
    var q, t;
    var x0: int := 0;
    var x1: int := 1;
    // Coefficients of `m0` that make `x0`, `x1` Bézout coefficients of `m`, `e`.
    ghost var y0: int := 1;
    ghost var y1: int := 0;
    if m == 1 {
      return Some(0);
    }
    while e > 1
      invariant 0 <= e && 0 <= m
      invariant Euclides(e, m) == Euclides(e0, m0)
      invariant x1 * e0 + y1 * m0 == e && x0 * e0 + y0 * m0 == m
      invariant Abs(x0) * e + Abs(x1) * m == m0 && x0 * x1 <= 0
      invariant x1 == 1 || 2 * Abs(x1) <= m0
      invariant e0 <= 1 ==> e == e0 && x1 == 1
      invariant e0 >= 2 ==> e >= 1
      decreases m
    {
      if m == 0 {
        // `e / m` divides by zero: the Rust code panics here.
        return None;
      }
      ModInverseStep(e0, m0, e, m, x0, x1, y0, y1);
      q := e / m;
      t := m;
      m := e % m;
      e := t;
      t := x0;
      x0 := x1 - q * x0;
      x1 := t;
      y0, y1 := y1 - q * y0, y0;
    }
    if e0 >= 2 {
      assert e == 1;
      assert Divides(Euclides(1, m), 1);
      DividesBound(Euclides(1, m), 1);
      NormalisedInverse(e0, m0, x1, y1);
    }
    if x1 < 0 {
      x1 := x1 + m0;
    }
    return Some(x1);
  }

  /** The inverse modulo `m` of a number coprime to `m` is unique in `[0, m)`. */
  lemma InverseUnique(e: nat, m: nat, d1: nat, d2: nat)
    requires Euclides(m, e) == 1
    requires d1 < m && d2 < m && (e * d1) % m == 1 && (e * d2) % m == 1
    ensures d1 == d2
  {
    ModEqDividesDiff(e * d1, e * d2, m);
    assert e * d1 - e * d2 == e * (d1 - d2);
    CoprimeDividesProduct(m, e, d1 - d2);
    if d1 != d2 {
      DivModUnique(d1 - d2, m, if d1 < d2 then -1 else 0, if d1 < d2 then d1 - d2 + m else d1 - d2);
    }
  }

  /** The candidate that `Rsa::find_coprime` derives from a raw random draw: a number in `[1, n-1]`. */
  function Candidate(n: nat, draw: nat): (c: nat)
    requires n >= 2
    ensures 1 <= c <= n - 1
  {
    draw % (n - 1) + 1
  }

  /** The test `Rsa::find_coprime` applies to a candidate. */
  predicate Accepts(n: nat, c: nat) {
    c != 1 && Euclides(n, c) == 1
  }

  /**
   * `Rsa::find_coprime`: draws candidates until one is coprime to `n` and not 1.
   * The random source is the sequence `draws` of raw random numbers; `r` is the
   * first accepted candidate and `k` the index of its draw, or `None` when the
   * sequence runs out (the Rust loop would go on drawing). For `n` below 2 the
   * Rust code panics on its first draw (`n - 1` underflows at 0, `% (n - 1)`
   * divides by zero at 1); the model returns `None` without drawing.
   */
  method FindCoprime(n: nat, draws: seq<nat>) returns (r: Option<nat>, k: nat)
    ensures n < 2 ==> r.None? && k == 0
    ensures k <= |draws|
    ensures forall j :: 0 <= j < k ==> !Accepts(n, Candidate(n, draws[j]))
    ensures r.Some? <==> n >= 2 && k < |draws|
    ensures r.Some? ==> r.value == Candidate(n, draws[k]) && Accepts(n, r.value)
    ensures r.Some? ==> 1 < r.value < n && Euclides(n, r.value) == 1
  {
    k := 0;
    if n < 2 {
      return None, k;
    }
    while k < |draws|
      invariant k <= |draws|
      invariant forall j :: 0 <= j < k ==> !Accepts(n, Candidate(n, draws[j]))
    {
      var randomNum := draws[k] % (n - 1) + 1;
      if randomNum != 1 && Euclides(n, randomNum) == 1 {
        return Some(randomNum), k;
      }
      k := k + 1;
    }
    return None, k;
  }

  /** `key` was built from `p` and `q`: modulus `p * q` and `e * d == 1` modulo `(p-1) * (q-1)`. */
  predicate KeyFrom(key: Key, p: nat, q: nat) {
    && p >= 2 && q >= 2
    && key.n == p * q
    && key.publicKey == (key.n, key.e)
    && (key.e * key.d) % ((p - 1) * (q - 1)) == 1
  }

  /**
   * `Rsa::new` reaches the coprime finder with a modulus it can draw from:
   * otherwise `p - 1` or `q - 1` underflows, or `find_coprime` receives 0 or 1
   * and panics.
   */
  predicate NewDefined(p: nat, q: nat) {
    p >= 2 && q >= 2 && (p - 1) * (q - 1) >= 2
  }

  /**
   * `Rsa::new`: the key for the primes `p` and `q`, with the public exponent
   * drawn by the coprime finder from `draws`. `None` when the draws run out
   * before a coprime exponent is found, and where the Rust code panics.
   */
  method New(p: nat, q: nat, draws: seq<nat>) returns (key: Option<Key>)
    ensures !NewDefined(p, q) ==> key.None?
    ensures key.Some? ==> NewDefined(p, q)
    ensures key.Some? ==> KeyFrom(key.value, p, q)
    ensures key.Some? ==> 1 < key.value.e < (p - 1) * (q - 1) && Euclides((p - 1) * (q - 1), key.value.e) == 1
    ensures key.Some? ==> key.value.d < (p - 1) * (q - 1)
    ensures key.Some? ==> exists k :: 0 <= k < |draws| && key.value.e == Candidate((p - 1) * (q - 1), draws[k])
                                     && forall j :: 0 <= j < k ==> !Accepts((p - 1) * (q - 1), Candidate((p - 1) * (q - 1), draws[j]))
    ensures key.None? && NewDefined(p, q) ==> forall j :: 0 <= j < |draws| ==> !Accepts((p - 1) * (q - 1), Candidate((p - 1) * (q - 1), draws[j]))
  {
    if !NewDefined(p, q) {
      return None;
    }
    var n := q * p;
    var phi := (p - 1) * (q - 1);
    var found, k := FindCoprime(phi, draws);
    if found.None? {
      return None;
    }
    var e := found.value;
    var publicKey := (n, e);
    EuclidesSymmetric(phi, e);
    // `mod_inverse` cannot fail here: `e` is coprime to `phi`, so `unwrap` succeeds.
    var inverse := ModInverse(e, phi);
    var d := inverse.value;
    return Some(Key(n, e, d, publicKey));
  }

  /** `Rsa::encrypt`: `m` to the public exponent, modulo `n`. */
  function Encrypt(key: Key, m: nat): (c: nat)
    requires key.n > 0
    ensures c == Pow(m, key.e) % key.n && c < key.n
  {
    ModPowIsPow(m, key.e, key.n);
    ModPow(m, key.e, key.n)
  }

  /** `Rsa::decrypt`: `c` to the private exponent, modulo `n`. */
  function Decrypt(key: Key, c: nat): (m: nat)
    requires key.n > 0
    ensures m == Pow(c, key.d) % key.n && m < key.n
  {
    ModPowIsPow(c, key.d, key.n);
    ModPow(c, key.d, key.n)
  }

  /** Raising to `x` and then to `y` modulo `n` is raising to `x * y`. */
  lemma PowPowMod(b: nat, x: nat, y: nat, n: nat)
    requires n > 0
    ensures Pow(Pow(b, x) % n, y) % n == Pow(b, x * y) % n
  {
    PowModBase(Pow(b, x), y, n);
    PowMul(b, x, y);
  }

  /** Decryption undoes encryption below the modulus of a key built from two distinct primes. */
  lemma RoundTrip(key: Key, p: nat, q: nat, m: nat)
    requires IsPrime(p) && IsPrime(q) && p != q && KeyFrom(key, p, q)
    requires m < key.n
    ensures Decrypt(key, Encrypt(key, m)) == m
  {
    PowPowMod(m, key.e, key.d, key.n);
    RsaExponent(p, q, m, key.e * key.d);
    DivModUnique(m, key.n, 0, m);
  }

  /** Encryption undoes decryption too: the two are inverse permutations of `[0, n)`. */
  lemma RoundTripReverse(key: Key, p: nat, q: nat, c: nat)
    requires IsPrime(p) && IsPrime(q) && p != q && KeyFrom(key, p, q)
    requires c < key.n
    ensures Encrypt(key, Decrypt(key, c)) == c
  {
    PowPowMod(c, key.d, key.e, key.n);
    assert key.d * key.e == key.e * key.d;
    RsaExponent(p, q, c, key.d * key.e);
    DivModUnique(c, key.n, 0, c);
  }

  /** Distinct messages below the modulus have distinct ciphertexts. */
  lemma EncryptInjective(key: Key, p: nat, q: nat, m1: nat, m2: nat)
    requires IsPrime(p) && IsPrime(q) && p != q && KeyFrom(key, p, q)
    requires m1 < key.n && m2 < key.n && Encrypt(key, m1) == Encrypt(key, m2)
    ensures m1 == m2
  {
    RoundTrip(key, p, q, m1);
    RoundTrip(key, p, q, m2);
  }

  /** `Rsa::str_encrypt`: one ciphertext per character, in order, each the encryption of the character's code. */
  function StrEncrypt(key: Key, s: string): (cs: seq<nat>)
    requires key.n > 0
    ensures |cs| == |s|
    ensures forall i :: 0 <= i < |s| ==> cs[i] == Encrypt(key, s[i] as nat)
  {
    if s == [] then [] else [Encrypt(key, s[0] as nat)] + StrEncrypt(key, s[1..])
  }

  /**
   * The low byte of a decrypted number, read back as a character, as
   * `as u8 as char` does: a single-byte character congruent to `x` modulo 256,
   * and `x` itself when `x` already fits in a byte.
   */
  function ByteChar(x: nat): (c: char)
    ensures c as int < 256 && Divides(256, x - c as int)
    ensures x < 256 ==> c as int == x
  {
    (x % 256) as char
  }

  /** `Rsa::str_decrypt`: one character per ciphertext, in order, the low byte of its decryption. */
  function StrDecrypt(key: Key, cs: seq<nat>): (s: string)
    requires key.n > 0
    ensures |s| == |cs|
    ensures forall i :: 0 <= i < |cs| ==> s[i] as int == Decrypt(key, cs[i]) % 256
  {
    if cs == [] then [] else [ByteChar(Decrypt(key, cs[0]))] + StrDecrypt(key, cs[1..])
  }

  /** Each character code below the modulus comes back reduced to its low byte. */
  lemma StrRoundTripBytes(key: Key, p: nat, q: nat, s: string)
    requires IsPrime(p) && IsPrime(q) && p != q && KeyFrom(key, p, q)
    requires forall i :: 0 <= i < |s| ==> s[i] as int < key.n
    ensures |StrDecrypt(key, StrEncrypt(key, s))| == |s|
    ensures forall i :: 0 <= i < |s| ==> StrDecrypt(key, StrEncrypt(key, s))[i] as int == (s[i] as int) % 256
  {
    forall i | 0 <= i < |s|
      ensures StrDecrypt(key, StrEncrypt(key, s))[i] as int == (s[i] as int) % 256
    {
      RoundTrip(key, p, q, s[i] as nat);
    }
  }

  /** A string of single-byte characters, each below the modulus, survives encryption and decryption. */
  lemma StrRoundTrip(key: Key, p: nat, q: nat, s: string)
    requires IsPrime(p) && IsPrime(q) && p != q && KeyFrom(key, p, q)
    requires forall i :: 0 <= i < |s| ==> s[i] as int < 256 && s[i] as int < key.n
    ensures StrDecrypt(key, StrEncrypt(key, s)) == s
  {
    var cs := StrEncrypt(key, s);
    var t := StrDecrypt(key, cs);
    forall i | 0 <= i < |s|
      ensures t[i] == s[i]
    {
      RoundTrip(key, p, q, s[i] as nat);
      assert t[i] == ByteChar(Decrypt(key, cs[i]));
    }
  }
}
