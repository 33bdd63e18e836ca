# A verified model of a textbook RSA engine

This project models the `Rsa` type in `src/main.rs`. It has six parts:

- **Euclid's algorithm** (`euclides`).
- **The modular inverse** (`mod_inverse`), computed by the iterative extended Euclidean algorithm.
- **A coprime finder** (`find_coprime`), a rejection-sampling loop.
- **Key construction** (`new`): the modulus is `p * q`. The public exponent is coprime to `(p-1)*(q-1)`, and the private exponent is its inverse.
- **Number encryption and decryption** (`encrypt`, `decrypt`), each a modular power.
- **String encryption and decryption** (`str_encrypt`, `str_decrypt`), one character at a time.

Some parts of the source update local state in place. `mod_inverse` and `find_coprime` do, and they are methods with loops and loop invariants. The rest are functions over values.

The central property is that decryption undoes encryption. It is proved for every key built from any two distinct primes. The proof takes Fermat's little theorem, itself proved from the binomial theorem, and combines it over the two primes.

The demonstration and the tests use the primes 1000000007 and 1000000009. Pocklington's criterion proves both are prime. The certificates descend through the prime factors of `n - 1`, and each modular power is evaluated one squaring at a time. That makes the concrete statements in `main`, `test_rsa` and `test_strings` theorems about every key the engine can build from those primes.

Modules:

- **`Arith`** (`arith.dfy`): the divisibility and remainder facts the proofs use. It also holds the natural power `Pow` and the square-and-multiply `ModPow`, which stands in for the big-integer library's `modpow`.
- **`Gcd`** (`gcd.dfy`): `Euclides`, Bézout coefficients, Euclid's lemma and primes.
- **`Fermat`** (`fermat.dfy`): binomial coefficients, Fermat's little theorem, and the identity `m^x == m (mod p*q)` for `x == 1 (mod (p-1)*(q-1))`.
- **`Rsa`** (`rsa.dfy`): the key, the inverse, the coprime finder, key construction, and encryption and decryption.
- **`Primality`** (`primality.dfy`): Pocklington's criterion.
- **`Primes`** (`primes.dfy`): the primality certificates.
- **`Demo`** (`demo.dfy`): `main` and the tests of `mod tests`: the concrete values of `test_euclides` and `test_mod_inverse`, and what `main`, `test_rsa` and `test_strings` assert for the primes 1000000007 and 1000000009.

The random source is a parameter: a finite sequence `draws` of raw random numbers. A method that draws returns `None` when the sequence runs out before a candidate is accepted. The Rust loop would keep drawing.

`mod_inverse` has one error path. The Rust code panics there, by dividing by zero, and the model returns `None`. This happens exactly when `e >= 2` shares a factor with `m`. `find_coprime` panics for a modulus below 2, and so does `new` when `p` or `q` is below 2 or both are 2. The model returns `None` in those cases too.

## Model

| member | source | states |
|---|---|---|
| Gcd.Euclides | src/main.rs:17-19 | the result is a greatest common divisor of the arguments: a common divisor that every common divisor divides |
| Gcd.EuclidesGreatest | src/main.rs:17-19 | when the arguments are not both zero, the result is positive and at least every common divisor |
| Gcd.EuclidesSymmetric | src/main.rs:17-19 | the result does not depend on the order of the arguments, so `euclides(n, e)` at line 51 and the coprimality that `mod_inverse(e, n)` needs agree |
| Gcd.Bezout | src/main.rs:27-39 | integer coefficients whose combination of the arguments is their gcd, the quantity the coefficients `x0`, `x1` of `mod_inverse` track |
| Rsa.ModInverse | src/main.rs:21-45 | modulus 1 gives `Some(0)`; `e <= 1` with another modulus gives `Some(1)`; the result is `None` (the panic) exactly when `e >= 2` and `gcd(e, m) != 1`; for coprime `e >= 2` and `m >= 2` the result is `Some(d)` with `d < m` and `(e * d) % m == 1` |
| Rsa.InverseUnique | src/main.rs:140-142 | an inverse modulo `m` in `[0, m)` is unique, so the tests' values 4, 9 and 8 are the only possible results for (3, 11), (5, 11) and (7, 11) |
| Rsa.Candidate | src/main.rs:50 | the candidate derived from a raw draw lies in `[1, n-1]` |
| Rsa.FindCoprime | src/main.rs:48-55 | the result is the candidate of the first draw that is not 1 and is coprime to `n`; every earlier draw was rejected; the result lies strictly between 1 and `n`; for `n` below 2, where the Rust code panics on `n - 1` or `% (n - 1)`, the result is `None` without a draw; otherwise `None` exactly when every draw was rejected |
| Rsa.New | src/main.rs:57-66 | the key has modulus `p * q` and public key `(n, e)`; `e` is the first accepted draw's candidate, with `1 < e < (p-1)*(q-1)` and coprime to it; `d < (p-1)*(q-1)` and `e * d == 1` modulo `(p-1)*(q-1)`, so the `unwrap` cannot fail; `None` where the Rust code panics (`p` or `q` below 2, or `(p-1)*(q-1)` below 2, which `NewDefined` excludes) and otherwise only when every draw is rejected |
| Rsa.Encrypt | src/main.rs:68-74 | the ciphertext is `m^e mod n`, below `n` |
| Rsa.Decrypt | src/main.rs:81-87 | the plaintext is `c^d mod n`, below `n` |
| Arith.ModPowIsPow | src/main.rs:72 | the square-and-multiply evaluation of `modpow` equals `b^x mod n` |
| Fermat.RsaExponent | src/main.rs:68-87 | for distinct primes `p`, `q` and `x == 1 (mod (p-1)*(q-1))`, `m^x == m (mod p*q)` for every `m` |
| Rsa.RoundTrip | src/main.rs:68-87 | for a key built from two distinct primes, decrypting the encryption of any `m` below the modulus returns `m` |
| Rsa.RoundTripReverse | src/main.rs:68-87 | encrypting the decryption of any `c` below the modulus returns `c` |
| Rsa.EncryptInjective | src/main.rs:68-74 | distinct messages below the modulus have distinct ciphertexts |
| Rsa.StrEncrypt | src/main.rs:76-78 | one ciphertext per character, in order, each the encryption of the character's code |
| Rsa.ByteChar | src/main.rs:90 | the `as u8 as char` cast gives a single-byte character congruent to the number modulo 256, and the number itself when it is below 256 |
| Rsa.StrDecrypt | src/main.rs:89-91 | one character per ciphertext, in order, each the low byte of its decryption |
| Rsa.StrRoundTripBytes | src/main.rs:76-91 | each character whose code is below the modulus comes back as its code modulo 256 |
| Rsa.StrRoundTrip | src/main.rs:76-91 | a string of single-byte characters below the modulus comes back unchanged |
| Primes.Prime1000000007 | src/main.rs:95 | 1000000007 is prime |
| Primes.Prime1000000009 | src/main.rs:95 | 1000000009 is prime |
| Demo.DemoPrimes | src/main.rs:95 | the engine's two primes are distinct primes |
| Demo.DemoRoundTrip | src/main.rs:118-128 | for every key built from 1000000007 and 1000000009, every message below the modulus comes back from decryption; this covers every message below 10000 and the message 100 of `main` |
| Demo.HelloWorldRoundTrip | src/main.rs:153-168 | for every key built from 1000000007 and 1000000009, "Hello, World!" comes back unchanged from `str_decrypt(str_encrypt(_))` |
| Demo.RunMain | src/main.rs:94-110 | the computation of `main`: the decrypted message is 100 whenever key construction accepts a draw |

The concrete values of `test_euclides` (src/main.rs:132-136) are asserted in `Demo.TestEuclides`, and those of `test_mod_inverse` (src/main.rs:139-143) in `Demo.TestModInverse3`, `Demo.TestModInverse5` and `Demo.TestModInverse7`. The property `test_find_coprime` checks (src/main.rs:146-150) is part of the contract of `Rsa.FindCoprime`.

## Left out

- Fixed-width integers: the model uses unbounded integers. It leaves out the `u128` overflow of `q*p` and `(p-1)*(q-1)`, and the panics of `try_into().unwrap()` on conversion between `u128` and `i128`. For the engine's primes every value fits.
- Randomness: `rand::random` is a finite sequence of draws given as a parameter. The probabilistic termination of the unbounded loop in `find_coprime` is not modelled. Running out of draws gives `None`. `test_rsa` draws its messages at random; `Demo.DemoRoundTrip` covers every message below the modulus instead.
- Console output: the `println!` calls in `main` and `test_strings`, and the joined ciphertext string that `test_strings` prints, are left out.
- The big-integer library: `to_bigint` and `try_into` are identities on unbounded integers. `modpow` is modelled by its value, `b^x mod n`, computed by square and multiply. The library's own algorithm is not modelled.
- Characters outside one byte: `str_decrypt` keeps only the low byte of each decrypted number, as `as u8 as char` does. `Rsa.StrRoundTripBytes` states exactly what comes back. The identity round trip is stated only for single-byte characters.
- The modular inverse follows the code, not an idealised inverse. An `e` of 0 or 1 with a modulus other than 1 skips the loop and returns `Some(1)`, although 0 has no inverse. Division by zero is surfaced as `None` instead of a panic.
- Key construction: the Rust code does not check that `p` and `q` are prime or distinct, and neither does the model. The round-trip lemmas require it.
- Rsa.FindCoprime: the panic for `n` below 2 (underflow of `n - 1` at 0, division by zero at 1) is surfaced as `None`, as `Rsa.ModInverse` does for its division by zero. Such a `None` is told apart from exhausted draws only by `n`.
- Rsa.New: the panics for `p` or `q` below 2 (underflow of `p - 1`, `q - 1`, or `find_coprime` given 0) and for `p == q == 2` (`find_coprime(1)`) are surfaced as `None`. Such a `None` is told apart from exhausted draws only by `NewDefined(p, q)`.
