/**
 * The engine's demonstration and tests use one fixed pair of primes,
 * 1000000007 and 1000000009. With their primality certified, the general round
 * trips specialise to every key built from them.
 */
module Demo {
  import opened Arith
  import opened Gcd
  import opened Rsa
  import opened Primes

  const P: nat := 1000000007
  const Q: nat := 1000000009

  lemma DemoPrimes()
    ensures IsPrime(P) && IsPrime(Q) && P != Q
  {
    Prime1000000007();
    Prime1000000009();
  }

  /** Every message below the modulus comes back from a key built from `P` and `Q`, 100 and every message below 10000 among them. */
  lemma DemoRoundTrip(key: Key, m: nat)
    requires KeyFrom(key, P, Q) && m < key.n
    ensures Decrypt(key, Encrypt(key, m)) == m
  {
    DemoPrimes();
    RoundTrip(key, P, Q, m);
  }

  /** The string test: "Hello, World!" survives encryption and decryption character by character. */
  lemma HelloWorldRoundTrip(key: Key)
    requires KeyFrom(key, P, Q)
    ensures StrDecrypt(key, StrEncrypt(key, "Hello, World!")) == "Hello, World!"
  {
    DemoPrimes();
    var s := "Hello, World!";
    assert forall i :: 0 <= i < |s| ==> s[i] as int < 128;
    MulAtLeast(P, Q);
    StrRoundTrip(key, P, Q, s);
  }

  /**
   * `main`: build a key from `P` and `Q`, encrypt the message 100 and decrypt
   * it again. The outcome is 100 whenever key generation accepts a draw.
   */
  method RunMain(draws: seq<nat>) returns (original: Option<nat>)
    ensures original.Some? ==> original.value == 100
    ensures original.None? ==> forall j :: 0 <= j < |draws| ==> !Accepts((P - 1) * (Q - 1), Candidate((P - 1) * (Q - 1), draws[j]))
  {
    MulAtLeast(P - 1, Q - 1);
    var key := New(P, Q, draws);
    if key.None? {
      return None;
    }
    MulAtLeast(P, Q);
    var encrypted := Encrypt(key.value, 100);
    var m := Decrypt(key.value, encrypted);
    DemoRoundTrip(key.value, 100);
    return Some(m);
  }

  /** The assertions of the `test_euclides` test. */
  method TestEuclides() {
    assert Euclides(10, 5) == 5;
    assert Euclides(10, 3) == 1;
    assert Euclides(10, 2) == 2;
  }

  /** The assertions of the `test_mod_inverse` test, one value each. */
  method TestModInverse3() {
    var r := ModInverse(3, 11);
    InverseUnique(3, 11, r.value, 4);
    assert r == Some(4);
  }

  method TestModInverse5() {
    var r := ModInverse(5, 11);
    InverseUnique(5, 11, r.value, 9);
    assert r == Some(9);
  }

  method TestModInverse7() {
    var r := ModInverse(7, 11);
    InverseUnique(7, 11, r.value, 8);
    assert r == Some(8);
  }
}
