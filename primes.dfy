/**
 * Pocklington certificates for the primes 1000000007 and 1000000009 that the
 * engine's demonstration and tests build their keys from, and for every prime
 * the certificates rest on. Each certificate evaluates the witness powers one
 * squaring or multiplication at a time (`ModPowEven`, `ModPowOdd`), applies
 * `PocklingtonPower` to prime powers dividing `n - 1` whose product `f`
 * satisfies `(f + 1)^2 > n`, and concludes with `PrimeFromFactors`.
 *
 * For the prime power `q^k` with witness `a`, `PrimeNWitnessA` shows
 * `a^(n-1) == 1 (mod n)`, `PrimeNPowerQ` evaluates `r == a^((n-1)/q) mod n`,
 * and `PrimeNCoprimeQ` runs Euclid's algorithm on `n` and `r - 1`. Each
 * `ModPowEven(b, x, n, h, t, r)` or `ModPowOdd(b, x, n, h, t, r)` call is
 * one step: the power `h` for the previous exponent, squared (or times `b`),
 * is `t * n + r`, so the power for `x` is `r`.
 */
module Primes {
  import opened Arith
  import opened Gcd
  import opened Primality

  /**
   * Certificate for 3: 3-1 = 2. It uses F = 2, with
   * (F+1)^2 = 9 > 3, and the prime power(s) 2 with witness 2.
   */
  lemma Prime3Witness2(n: nat)
    requires n == 3
    ensures ModPow(2, 2, n) == 1
  {
    assert ModPow(2, 0, n) == 1;
    ModPowOdd(2, 1, n, 1, 0, 2);
    ModPowEven(2, 2, n, 2, 1, 1);
  }

  lemma Prime3Coprime2(n: nat)
    requires n == 3
    ensures Euclides(n, 1) == 1
  {
    EuclidesUnfold(n, 1, 0, 1);
  }

  lemma Prime3Power2(n: nat)
    requires n == 3
    ensures ModPow(2, 1, n) == 2
  {
    assert ModPow(2, 0, n) == 1;
    ModPowOdd(2, 1, n, 1, 0, 2);
  }

  lemma Prime3Factor2(n: nat)
    requires n == 3 && IsPrime(2)
    ensures FactorsAbove(n, Pow(2, 1))
  {
    Prime3Witness2(n);
    Prime3Power2(n);
    Prime3Coprime2(n);
    DivModUnique(2 + n - 1, n, 1, 1);
    DivModUnique(n - 1, 2, 1, 0);
    PocklingtonPower(n, 2, 1, 2, 1, 2);
  }

  lemma Prime3()
    ensures IsPrime(3)
  {
    Prime2();
    Prime3Factor2(3);
    assert Pow(2, 1) == 2;
    PrimeFromFactors(3, 2);
  }

  /**
   * Certificate for 5: 5-1 = 2^2. It uses F = 2^2 = 4, with
   * (F+1)^2 = 25 > 5, and the prime power(s) 2^2 with witness 2.
   */
  lemma Prime5Witness2(n: nat)
    requires n == 5
    ensures ModPow(2, 4, n) == 1
  {
    assert ModPow(2, 0, n) == 1;
    ModPowOdd(2, 1, n, 1, 0, 2);
    ModPowEven(2, 2, n, 2, 0, 4);
    ModPowEven(2, 4, n, 4, 3, 1);
  }

  lemma Prime5Coprime2(n: nat)
    requires n == 5
    ensures Euclides(n, 3) == 1
  {
    EuclidesUnfold(2, 1, 0, 1);
    EuclidesUnfold(3, 2, 1, 1);
    EuclidesUnfold(n, 3, 2, 1);
  }

  lemma Prime5Power2(n: nat)
    requires n == 5
    ensures ModPow(2, 2, n) == 4
  {
    assert ModPow(2, 0, n) == 1;
    ModPowOdd(2, 1, n, 1, 0, 2);
    ModPowEven(2, 2, n, 2, 0, 4);
  }

  lemma Prime5Factor2(n: nat)
    requires n == 5 && IsPrime(2)
    ensures FactorsAbove(n, Pow(2, 2))
  {
    Prime5Witness2(n);
    Prime5Power2(n);
    Prime5Coprime2(n);
    DivModUnique(4 + n - 1, n, 1, 3);
    DivModUnique(n - 1, 2, 2, 0);
    assert Pow(2, 2) == 4;
    DivModUnique(n - 1, 4, 1, 0);
    PocklingtonPower(n, 2, 2, 2, 2, 4);
  }

  lemma Prime5()
    ensures IsPrime(5)
  {
    Prime2();
    Prime5Factor2(5);
    assert Pow(2, 2) == 4;
    PrimeFromFactors(5, 4);
  }

  /**
   * Certificate for 11: 11-1 = 2·5. It uses F = 5, with
   * (F+1)^2 = 36 > 11, and the prime power(s) 5 with witness 2.
   */
  lemma Prime11Witness2(n: nat)
    requires n == 11
    ensures ModPow(2, 10, n) == 1
  {
    assert ModPow(2, 0, n) == 1;
    ModPowOdd(2, 1, n, 1, 0, 2);
    ModPowEven(2, 2, n, 2, 0, 4);
    ModPowEven(2, 4, n, 4, 1, 5);
    ModPowOdd(2, 5, n, 5, 0, 10);
    ModPowEven(2, 10, n, 10, 9, 1);
  }

  lemma Prime11Coprime5(n: nat)
    requires n == 11
    ensures Euclides(n, 3) == 1
  {
    EuclidesUnfold(2, 1, 0, 1);
    EuclidesUnfold(3, 2, 1, 1);
    EuclidesUnfold(n, 3, 2, 1);
  }

  lemma Prime11Power5(n: nat)
    requires n == 11
    ensures ModPow(2, 2, n) == 4
  {
    assert ModPow(2, 0, n) == 1;
    ModPowOdd(2, 1, n, 1, 0, 2);
    ModPowEven(2, 2, n, 2, 0, 4);
  }

  lemma Prime11Factor5(n: nat)
    requires n == 11 && IsPrime(5)
    ensures FactorsAbove(n, Pow(5, 1))
  {
    Prime11Witness2(n);
    Prime11Power5(n);
    Prime11Coprime5(n);
    DivModUnique(4 + n - 1, n, 1, 3);
    DivModUnique(n - 1, 5, 2, 0);
    PocklingtonPower(n, 5, 1, 2, 2, 4);
  }

  lemma Prime11()
    ensures IsPrime(11)
  {
    Prime5();
    Prime11Factor5(11);
    assert Pow(5, 1) == 5;
    PrimeFromFactors(11, 5);
  }

  /**
   * Certificate for 13: 13-1 = 2^2·3. It uses F = 2^2 = 4, with
   * (F+1)^2 = 25 > 13, and the prime power(s) 2^2 with witness 2.
   */
  lemma Prime13Witness2(n: nat)
    requires n == 13
    ensures ModPow(2, 12, n) == 1
  {
    assert ModPow(2, 0, n) == 1;
    ModPowOdd(2, 1, n, 1, 0, 2);
    ModPowEven(2, 2, n, 2, 0, 4);
    ModPowOdd(2, 3, n, 4, 0, 8);
    ModPowEven(2, 6, n, 8, 4, 12);
    ModPowEven(2, 12, n, 12, 11, 1);
  }

  lemma Prime13Coprime2(n: nat)
    requires n == 13
    ensures Euclides(n, 11) == 1
  {
    EuclidesUnfold(2, 1, 0, 1);
    EuclidesUnfold(11, 2, 1, 1);
    EuclidesUnfold(n, 11, 2, 1);
  }

  lemma Prime13Power2(n: nat)
    requires n == 13
    ensures ModPow(2, 6, n) == 12
  {
    assert ModPow(2, 0, n) == 1;
    ModPowOdd(2, 1, n, 1, 0, 2);
    ModPowEven(2, 2, n, 2, 0, 4);
    ModPowOdd(2, 3, n, 4, 0, 8);
    ModPowEven(2, 6, n, 8, 4, 12);
  }

  lemma Prime13Factor2(n: nat)
    requires n == 13 && IsPrime(2)
    ensures FactorsAbove(n, Pow(2, 2))
  {
    Prime13Witness2(n);
    Prime13Power2(n);
    Prime13Coprime2(n);
    DivModUnique(12 + n - 1, n, 1, 11);
    DivModUnique(n - 1, 2, 6, 0);
    assert Pow(2, 2) == 4;
    DivModUnique(n - 1, 4, 3, 0);
    PocklingtonPower(n, 2, 2, 2, 6, 12);
  }

  lemma Prime13()
    ensures IsPrime(13)
  {
    Prime2();
    Prime13Factor2(13);
    assert Pow(2, 2) == 4;
    PrimeFromFactors(13, 4);
  }

  /**
   * Certificate for 41: 41-1 = 2^3·5. It uses F = 2^3 = 8, with
   * (F+1)^2 = 81 > 41, and the prime power(s) 2^3 with witness 3.
   */
  lemma Prime41Witness3(n: nat)
    requires n == 41
    ensures ModPow(3, 40, n) == 1
  {
    assert ModPow(3, 0, n) == 1;
    ModPowOdd(3, 1, n, 1, 0, 3);
    ModPowEven(3, 2, n, 3, 0, 9);
    ModPowEven(3, 4, n, 9, 1, 40);
    ModPowOdd(3, 5, n, 40, 2, 38);
    ModPowEven(3, 10, n, 38, 35, 9);
    ModPowEven(3, 20, n, 9, 1, 40);
    ModPowEven(3, 40, n, 40, 39, 1);
  }

  lemma Prime41Coprime2(n: nat)
    requires n == 41
    ensures Euclides(n, 39) == 1
  {
    EuclidesUnfold(2, 1, 0, 1);
    EuclidesUnfold(39, 2, 1, 1);
    EuclidesUnfold(n, 39, 2, 1);
  }

  lemma Prime41Power2(n: nat)
    requires n == 41
    ensures ModPow(3, 20, n) == 40
  {
    assert ModPow(3, 0, n) == 1;
    ModPowOdd(3, 1, n, 1, 0, 3);
    ModPowEven(3, 2, n, 3, 0, 9);
    ModPowEven(3, 4, n, 9, 1, 40);
    ModPowOdd(3, 5, n, 40, 2, 38);
    ModPowEven(3, 10, n, 38, 35, 9);
    ModPowEven(3, 20, n, 9, 1, 40);
  }

  lemma Prime41Factor2(n: nat)
    requires n == 41 && IsPrime(2)
    ensures FactorsAbove(n, Pow(2, 3))
  {
    Prime41Witness3(n);
    Prime41Power2(n);
    Prime41Coprime2(n);
    DivModUnique(40 + n - 1, n, 1, 39);
    DivModUnique(n - 1, 2, 20, 0);
    assert Pow(2, 3) == 8;
    DivModUnique(n - 1, 8, 5, 0);
    PocklingtonPower(n, 2, 3, 3, 20, 40);
  }

  lemma Prime41()
    ensures IsPrime(41)
  {
    Prime2();
    Prime41Factor2(41);
    assert Pow(2, 3) == 8;
    PrimeFromFactors(41, 8);
  }

  /**
   * Certificate for 83: 83-1 = 2·41. It uses F = 41, with
   * (F+1)^2 = 1764 > 83, and the prime power(s) 41 with witness 2.
   */
  lemma Prime83Witness2(n: nat)
    requires n == 83
    ensures ModPow(2, 82, n) == 1
  {
    assert ModPow(2, 0, n) == 1;
    ModPowOdd(2, 1, n, 1, 0, 2);
    ModPowEven(2, 2, n, 2, 0, 4);
    ModPowEven(2, 4, n, 4, 0, 16);
    ModPowOdd(2, 5, n, 16, 0, 32);
    ModPowEven(2, 10, n, 32, 12, 28);
    ModPowEven(2, 20, n, 28, 9, 37);
    ModPowEven(2, 40, n, 37, 16, 41);
    ModPowOdd(2, 41, n, 41, 0, 82);
    ModPowEven(2, 82, n, 82, 81, 1);
  }

  lemma Prime83Coprime41(n: nat)
    requires n == 83
    ensures Euclides(n, 3) == 1
  {
    EuclidesUnfold(2, 1, 0, 1);
    EuclidesUnfold(3, 2, 1, 1);
    EuclidesUnfold(n, 3, 2, 1);
  }

  lemma Prime83Power41(n: nat)
    requires n == 83
    ensures ModPow(2, 2, n) == 4
  {
    assert ModPow(2, 0, n) == 1;
    ModPowOdd(2, 1, n, 1, 0, 2);
    ModPowEven(2, 2, n, 2, 0, 4);
  }

  lemma Prime83Factor41(n: nat)
    requires n == 83 && IsPrime(41)
    ensures FactorsAbove(n, Pow(41, 1))
  {
    Prime83Witness2(n);
    Prime83Power41(n);
    Prime83Coprime41(n);
    DivModUnique(4 + n - 1, n, 1, 3);
    DivModUnique(n - 1, 41, 2, 0);
    PocklingtonPower(n, 41, 1, 2, 2, 4);
  }

  lemma Prime83()
    ensures IsPrime(83)
  {
    Prime41();
    Prime83Factor41(83);
    assert Pow(41, 1) == 41;
    PrimeFromFactors(83, 41);
  }

  /**
   * Certificate for 109: 109-1 = 2^2·3^3. It uses F = 3^3 = 27, with
   * (F+1)^2 = 784 > 109, and the prime power(s) 3^3 with witness 3.
   */
  lemma Prime109Witness3(n: nat)
    requires n == 109
    ensures ModPow(3, 108, n) == 1
  {
    assert ModPow(3, 0, n) == 1;
    ModPowOdd(3, 1, n, 1, 0, 3);
    ModPowEven(3, 2, n, 3, 0, 9);
    ModPowOdd(3, 3, n, 9, 0, 27);
    ModPowEven(3, 6, n, 27, 6, 75);
    ModPowEven(3, 12, n, 75, 51, 66);
    ModPowOdd(3, 13, n, 66, 1, 89);
    ModPowEven(3, 26, n, 89, 72, 73);
    ModPowOdd(3, 27, n, 73, 2, 1);
    ModPowEven(3, 54, n, 1, 0, 1);
    ModPowEven(3, 108, n, 1, 0, 1);
  }

  lemma Prime109Coprime3(n: nat)
    requires n == 109
    ensures Euclides(n, 62) == 1
  {
    EuclidesUnfold(2, 1, 0, 1);
    EuclidesUnfold(15, 2, 1, 1);
    EuclidesUnfold(47, 15, 2, 1);
    EuclidesUnfold(62, 47, 15, 1);
    EuclidesUnfold(n, 62, 47, 1);
  }

  lemma Prime109Power3(n: nat)
    requires n == 109
    ensures ModPow(3, 36, n) == 63
  {
    assert ModPow(3, 0, n) == 1;
    ModPowOdd(3, 1, n, 1, 0, 3);
    ModPowEven(3, 2, n, 3, 0, 9);
    ModPowEven(3, 4, n, 9, 0, 81);
    ModPowEven(3, 8, n, 81, 60, 21);
    ModPowOdd(3, 9, n, 21, 0, 63);
    ModPowEven(3, 18, n, 63, 36, 45);
    ModPowEven(3, 36, n, 45, 18, 63);
  }

  lemma Prime109Factor3(n: nat)
    requires n == 109 && IsPrime(3)
    ensures FactorsAbove(n, Pow(3, 3))
  {
    Prime109Witness3(n);
    Prime109Power3(n);
    Prime109Coprime3(n);
    DivModUnique(63 + n - 1, n, 1, 62);
    DivModUnique(n - 1, 3, 36, 0);
    assert Pow(3, 3) == 27;
    DivModUnique(n - 1, 27, 4, 0);
    PocklingtonPower(n, 3, 3, 3, 36, 63);
  }

  lemma Prime109()
    ensures IsPrime(109)
  {
    Prime3();
    Prime109Factor3(109);
    assert Pow(3, 3) == 27;
    PrimeFromFactors(109, 27);
  }

  /**
   * Certificate for 167: 167-1 = 2·83. It uses F = 83, with
   * (F+1)^2 = 7056 > 167, and the prime power(s) 83 with witness 2.
   */
  lemma Prime167Witness2(n: nat)
    requires n == 167
    ensures ModPow(2, 166, n) == 1
  {
    assert ModPow(2, 0, n) == 1;
    ModPowOdd(2, 1, n, 1, 0, 2);
    ModPowEven(2, 2, n, 2, 0, 4);
    ModPowEven(2, 4, n, 4, 0, 16);
    ModPowOdd(2, 5, n, 16, 0, 32);
    ModPowEven(2, 10, n, 32, 6, 22);
    ModPowEven(2, 20, n, 22, 2, 150);
    ModPowEven(2, 40, n, 150, 134, 122);
    ModPowOdd(2, 41, n, 122, 1, 77);
    ModPowEven(2, 82, n, 77, 35, 84);
    ModPowOdd(2, 83, n, 84, 1, 1);
    ModPowEven(2, 166, n, 1, 0, 1);
  }

  lemma Prime167Coprime83(n: nat)
    requires n == 167
    ensures Euclides(n, 3) == 1
  {
    EuclidesUnfold(2, 1, 0, 1);
    EuclidesUnfold(3, 2, 1, 1);
    EuclidesUnfold(n, 3, 2, 1);
  }

  lemma Prime167Power83(n: nat)
    requires n == 167
    ensures ModPow(2, 2, n) == 4
  {
    assert ModPow(2, 0, n) == 1;
    ModPowOdd(2, 1, n, 1, 0, 2);
    ModPowEven(2, 2, n, 2, 0, 4);
  }

  lemma Prime167Factor83(n: nat)
    requires n == 167 && IsPrime(83)
    ensures FactorsAbove(n, Pow(83, 1))
  {
    Prime167Witness2(n);
    Prime167Power83(n);
    Prime167Coprime83(n);
    DivModUnique(4 + n - 1, n, 1, 3);
    DivModUnique(n - 1, 83, 2, 0);
    PocklingtonPower(n, 83, 1, 2, 2, 4);
  }

  lemma Prime167()
    ensures IsPrime(167)
  {
    Prime83();
    Prime167Factor83(167);
    assert Pow(83, 1) == 83;
    PrimeFromFactors(167, 83);
  }

  /**
   * Certificate for 148721: 148721-1 = 2^4·5·11·13^2. It uses F = 11·13^2 = 1859, with
   * (F+1)^2 = 3459600 > 148721, and the prime power(s) 13^2 with witness 3, 11 with witness 2.
   */
  lemma Prime148721Witness2(n: nat)
    requires n == 148721
    ensures ModPow(2, 148720, n) == 1
  {
    assert ModPow(2, 0, n) == 1;
    ModPowOdd(2, 1, n, 1, 0, 2);
    ModPowEven(2, 2, n, 2, 0, 4);
    ModPowEven(2, 4, n, 4, 0, 16);
    ModPowEven(2, 8, n, 16, 0, 256);
    ModPowOdd(2, 9, n, 256, 0, 512);
    ModPowEven(2, 18, n, 512, 1, 113423);
    ModPowEven(2, 36, n, 113423, 86502, 112987);
    ModPowEven(2, 72, n, 112987, 85839, 250);
    ModPowEven(2, 144, n, 250, 0, 62500);
    ModPowOdd(2, 145, n, 62500, 0, 125000);
    ModPowEven(2, 290, n, 125000, 105062, 74298);
    ModPowEven(2, 580, n, 74298, 37117, 115447);
    ModPowEven(2, 1160, n, 115447, 89617, 79952);
    ModPowOdd(2, 1161, n, 79952, 1, 11183);
    ModPowEven(2, 2322, n, 11183, 840, 133849);
    ModPowOdd(2, 2323, n, 133849, 1, 118977);
    ModPowEven(2, 4646, n, 118977, 95181, 113028);
    ModPowOdd(2, 4647, n, 113028, 1, 77335);
    ModPowEven(2, 9294, n, 77335, 40214, 35931);
    ModPowOdd(2, 9295, n, 35931, 0, 71862);
    ModPowEven(2, 18590, n, 71862, 34723, 107761);
    ModPowEven(2, 37180, n, 107761, 78081, 148720);
    ModPowEven(2, 74360, n, 148720, 148719, 1);
    ModPowEven(2, 148720, n, 1, 0, 1);
  }

  lemma Prime148721Witness3(n: nat)
    requires n == 148721
    ensures ModPow(3, 148720, n) == 1
  {
    assert ModPow(3, 0, n) == 1;
    ModPowOdd(3, 1, n, 1, 0, 3);
    ModPowEven(3, 2, n, 3, 0, 9);
    ModPowEven(3, 4, n, 9, 0, 81);
    ModPowEven(3, 8, n, 81, 0, 6561);
    ModPowOdd(3, 9, n, 6561, 0, 19683);
    ModPowEven(3, 18, n, 19683, 2605, 2284);
    ModPowEven(3, 36, n, 2284, 35, 11421);
    ModPowEven(3, 72, n, 11421, 877, 10924);
    ModPowEven(3, 144, n, 10924, 802, 59534);
    ModPowOdd(3, 145, n, 59534, 1, 29881);
    ModPowEven(3, 290, n, 29881, 6003, 101998);
    ModPowEven(3, 580, n, 101998, 69953, 111891);
    ModPowEven(3, 1160, n, 111891, 84181, 113380);
    ModPowOdd(3, 1161, n, 113380, 2, 42698);
    ModPowEven(3, 2322, n, 42698, 12258, 97186);
    ModPowOdd(3, 2323, n, 97186, 1, 142837);
    ModPowEven(3, 4646, n, 142837, 137185, 118184);
    ModPowOdd(3, 4647, n, 118184, 2, 57110);
    ModPowEven(3, 9294, n, 57110, 21930, 100570);
    ModPowOdd(3, 9295, n, 100570, 2, 4268);
    ModPowEven(3, 18590, n, 4268, 122, 71862);
    ModPowEven(3, 37180, n, 71862, 34723, 107761);
    ModPowEven(3, 74360, n, 107761, 78081, 148720);
    ModPowEven(3, 148720, n, 148720, 148719, 1);
  }

  lemma Prime148721Coprime13(n: nat)
    requires n == 148721
    ensures Euclides(n, 18049) == 1
  {
    EuclidesUnfold(8, 1, 0, 1);
    EuclidesUnfold(9, 8, 1, 1);
    EuclidesUnfold(17, 9, 8, 1);
    EuclidesUnfold(26, 17, 9, 1);
    EuclidesUnfold(43, 26, 17, 1);
    EuclidesUnfold(69, 43, 26, 1);
    EuclidesUnfold(664, 69, 43, 1);
    EuclidesUnfold(733, 664, 69, 1);
    EuclidesUnfold(4329, 733, 664, 1);
    EuclidesUnfold(18049, 4329, 733, 1);
    EuclidesUnfold(n, 18049, 4329, 1);
  }

  lemma Prime148721Power13(n: nat)
    requires n == 148721
    ensures ModPow(3, 11440, n) == 18050
  {
    assert ModPow(3, 0, n) == 1;
    ModPowOdd(3, 1, n, 1, 0, 3);
    ModPowEven(3, 2, n, 3, 0, 9);
    ModPowEven(3, 4, n, 9, 0, 81);
    ModPowOdd(3, 5, n, 81, 0, 243);
    ModPowEven(3, 10, n, 243, 0, 59049);
    ModPowOdd(3, 11, n, 59049, 1, 28426);
    ModPowEven(3, 22, n, 28426, 5433, 36283);
    ModPowEven(3, 44, n, 36283, 8851, 126518);
    ModPowEven(3, 88, n, 126518, 107629, 111815);
    ModPowOdd(3, 89, n, 111815, 2, 38003);
    ModPowEven(3, 178, n, 38003, 9710, 147099);
    ModPowEven(3, 356, n, 147099, 145494, 102627);
    ModPowOdd(3, 357, n, 102627, 2, 10439);
    ModPowEven(3, 714, n, 10439, 732, 108949);
    ModPowOdd(3, 715, n, 108949, 2, 29405);
    ModPowEven(3, 1430, n, 29405, 5813, 138852);
    ModPowEven(3, 2860, n, 138852, 129637, 133627);
    ModPowEven(3, 5720, n, 133627, 120064, 136985);
    ModPowEven(3, 11440, n, 136985, 126175, 18050);
  }

  lemma Prime148721Factor13(n: nat)
    requires n == 148721 && IsPrime(13)
    ensures FactorsAbove(n, Pow(13, 2))
  {
    Prime148721Witness3(n);
    Prime148721Power13(n);
    Prime148721Coprime13(n);
    DivModUnique(18050 + n - 1, n, 1, 18049);
    DivModUnique(n - 1, 13, 11440, 0);
    assert Pow(13, 2) == 169;
    DivModUnique(n - 1, 169, 880, 0);
    PocklingtonPower(n, 13, 2, 3, 11440, 18050);
  }

  lemma Prime148721Coprime11(n: nat)
    requires n == 148721
    ensures Euclides(n, 39) == 1
  {
    EuclidesUnfold(2, 1, 0, 1);
    EuclidesUnfold(3, 2, 1, 1);
    EuclidesUnfold(11, 3, 2, 1);
    EuclidesUnfold(14, 11, 3, 1);
    EuclidesUnfold(39, 14, 11, 1);
    EuclidesUnfold(n, 39, 14, 1);
  }

  lemma Prime148721Power11(n: nat)
    requires n == 148721
    ensures ModPow(2, 13520, n) == 40
  {
    assert ModPow(2, 0, n) == 1;
    ModPowOdd(2, 1, n, 1, 0, 2);
    ModPowEven(2, 2, n, 2, 0, 4);
    ModPowOdd(2, 3, n, 4, 0, 8);
    ModPowEven(2, 6, n, 8, 0, 64);
    ModPowEven(2, 12, n, 64, 0, 4096);
    ModPowOdd(2, 13, n, 4096, 0, 8192);
    ModPowEven(2, 26, n, 8192, 451, 35693);
    ModPowEven(2, 52, n, 35693, 8566, 46163);
    ModPowEven(2, 104, n, 46163, 14328, 148081);
    ModPowOdd(2, 105, n, 148081, 1, 147441);
    ModPowEven(2, 210, n, 147441, 146172, 2469);
    ModPowOdd(2, 211, n, 2469, 0, 4938);
    ModPowEven(2, 422, n, 4938, 163, 142321);
    ModPowEven(2, 844, n, 142321, 136196, 61725);
    ModPowOdd(2, 845, n, 61725, 0, 123450);
    ModPowEven(2, 1690, n, 123450, 102473, 15467);
    ModPowEven(2, 3380, n, 15467, 1608, 84721);
    ModPowEven(2, 6760, n, 84721, 48262, 74939);
    ModPowEven(2, 13520, n, 74939, 37761, 40);
  }

  lemma Prime148721Factor11(n: nat)
    requires n == 148721 && IsPrime(11)
    ensures FactorsAbove(n, Pow(11, 1))
  {
    Prime148721Witness2(n);
    Prime148721Power11(n);
    Prime148721Coprime11(n);
    DivModUnique(40 + n - 1, n, 1, 39);
    DivModUnique(n - 1, 11, 13520, 0);
    PocklingtonPower(n, 11, 1, 2, 13520, 40);
  }

  lemma Prime148721()
    ensures IsPrime(148721)
  {
    Prime11();
    Prime13();
    Prime148721Factor13(148721);
    assert Pow(13, 2) == 169;
    Prime148721Factor11(148721);
    FactorsCombine(148721, 169, 11);
    PrimeFromFactors(148721, 1859);
  }

  /**
   * Certificate for 500000003: 500000003-1 = 2·41^2·148721. It uses F = 148721, with
   * (F+1)^2 = 22118233284 > 500000003, and the prime power(s) 148721 with witness 2.
   */
  lemma Prime500000003Witness2(n: nat)
    requires n == 500000003
    ensures ModPow(2, 500000002, n) == 1
  {
    assert ModPow(2, 0, n) == 1;
    ModPowOdd(2, 1, n, 1, 0, 2);
    ModPowEven(2, 2, n, 2, 0, 4);
    ModPowOdd(2, 3, n, 4, 0, 8);
    ModPowEven(2, 6, n, 8, 0, 64);
    ModPowOdd(2, 7, n, 64, 0, 128);
    ModPowEven(2, 14, n, 128, 0, 16384);
    ModPowEven(2, 28, n, 16384, 0, 268435456);
    ModPowOdd(2, 29, n, 268435456, 1, 36870909);
    ModPowEven(2, 58, n, 36870909, 2718927, 422329500);
    ModPowOdd(2, 59, n, 422329500, 1, 344658997);
    ModPowEven(2, 118, n, 344658997, 237579647, 307068);
    ModPowOdd(2, 119, n, 307068, 0, 614136);
    ModPowEven(2, 238, n, 614136, 754, 163024234);
    ModPowEven(2, 476, n, 163024234, 53153801, 211825353);
    ModPowEven(2, 952, n, 211825353, 89739959, 404354732);
    ModPowOdd(2, 953, n, 404354732, 1, 308709461);
    ModPowEven(2, 1906, n, 308709461, 190603061, 239101338);
    ModPowOdd(2, 1907, n, 239101338, 0, 478202676);
    ModPowEven(2, 3814, n, 478202676, 457355595, 461494191);
    ModPowEven(2, 7628, n, 461494191, 425953774, 48883159);
    ModPowOdd(2, 7629, n, 48883159, 0, 97766318);
    ModPowEven(2, 15258, n, 97766318, 19116505, 377927609);
    ModPowEven(2, 30516, n, 377927609, 285658553, 287481222);
    ModPowOdd(2, 30517, n, 287481222, 1, 74962441);
    ModPowEven(2, 61034, n, 74962441, 11238735, 26962276);
    ModPowOdd(2, 61035, n, 26962276, 0, 53924552);
    ModPowEven(2, 122070, n, 53924552, 5815714, 290953562);
    ModPowEven(2, 244140, n, 290953562, 169307949, 232563997);
    ModPowEven(2, 488280, n, 232563997, 108172024, 376099937);
    ModPowOdd(2, 488281, n, 376099937, 1, 252199871);
    ModPowEven(2, 976562, n, 252199871, 127209549, 50787994);
    ModPowEven(2, 1953124, n, 50787994, 5158840, 319067516);
    ModPowOdd(2, 1953125, n, 319067516, 1, 138135029);
    ModPowEven(2, 3906250, n, 138135029, 38162572, 122343125);
    ModPowEven(2, 7812500, n, 122343125, 29935680, 144958585);
    ModPowEven(2, 15625000, n, 144958585, 42025982, 239124279);
    ModPowEven(2, 31250000, n, 239124279, 114360840, 464187321);
    ModPowEven(2, 62500000, n, 464187321, 430939735, 184337836);
    ModPowEven(2, 125000000, n, 184337836, 67960875, 77280271);
    ModPowEven(2, 250000000, n, 77280271, 11944480, 250000001);
    ModPowOdd(2, 250000001, n, 250000001, 0, 500000002);
    ModPowEven(2, 500000002, n, 500000002, 500000001, 1);
  }

  lemma Prime500000003Coprime148721(n: nat)
    requires n == 500000003
    ensures Euclides(n, 233858056) == 1
  {
    EuclidesUnfold(5, 1, 0, 1);
    EuclidesUnfold(6, 5, 1, 1);
    EuclidesUnfold(155, 6, 5, 1);
    EuclidesUnfold(161, 155, 6, 1);
    EuclidesUnfold(1121, 161, 155, 1);
    EuclidesUnfold(10250, 1121, 161, 1);
    EuclidesUnfold(11371, 10250, 1121, 1);
    EuclidesUnfold(123960, 11371, 10250, 1);
    EuclidesUnfold(135331, 123960, 11371, 1);
    EuclidesUnfold(665284, 135331, 123960, 1);
    EuclidesUnfold(800615, 665284, 135331, 1);
    EuclidesUnfold(7870819, 800615, 665284, 1);
    EuclidesUnfold(32283891, 7870819, 800615, 1);
    EuclidesUnfold(233858056, 32283891, 7870819, 1);
    EuclidesUnfold(n, 233858056, 32283891, 1);
  }

  lemma Prime500000003Power148721(n: nat)
    requires n == 500000003
    ensures ModPow(2, 3362, n) == 233858057
  {
    assert ModPow(2, 0, n) == 1;
    ModPowOdd(2, 1, n, 1, 0, 2);
    ModPowEven(2, 2, n, 2, 0, 4);
    ModPowOdd(2, 3, n, 4, 0, 8);
    ModPowEven(2, 6, n, 8, 0, 64);
    ModPowEven(2, 12, n, 64, 0, 4096);
    ModPowOdd(2, 13, n, 4096, 0, 8192);
    ModPowEven(2, 26, n, 8192, 0, 67108864);
    ModPowEven(2, 52, n, 67108864, 9007199, 100348899);
    ModPowEven(2, 104, n, 100348899, 20139802, 470092795);
    ModPowOdd(2, 105, n, 470092795, 1, 440185587);
    ModPowEven(2, 210, n, 440185587, 387526699, 339954472);
    ModPowEven(2, 420, n, 339954472, 231138084, 339384532);
    ModPowEven(2, 840, n, 339384532, 230363719, 369767867);
    ModPowEven(2, 1680, n, 369767867, 273456549, 145360042);
    ModPowOdd(2, 1681, n, 145360042, 0, 290720084);
    ModPowEven(2, 3362, n, 290720084, 169036333, 233858057);
  }

  lemma Prime500000003Factor148721(n: nat)
    requires n == 500000003 && IsPrime(148721)
    ensures FactorsAbove(n, Pow(148721, 1))
  {
    Prime500000003Witness2(n);
    Prime500000003Power148721(n);
    Prime500000003Coprime148721(n);
    DivModUnique(233858057 + n - 1, n, 1, 233858056);
    DivModUnique(n - 1, 148721, 3362, 0);
    PocklingtonPower(n, 148721, 1, 2, 3362, 233858057);
  }

  lemma Prime500000003()
    ensures IsPrime(500000003)
  {
    Prime148721();
    Prime500000003Factor148721(500000003);
    assert Pow(148721, 1) == 148721;
    PrimeFromFactors(500000003, 148721);
  }

  /**
   * Certificate for 1000000007: 1000000007-1 = 2·500000003. It uses F = 500000003, with
   * (F+1)^2 = 250000004000000016 > 1000000007, and the prime power(s) 500000003 with witness 2.
   */
  lemma Prime1000000007Witness2(n: nat)
    requires n == 1000000007
    ensures ModPow(2, 1000000006, n) == 1
  {
    assert ModPow(2, 0, n) == 1;
    ModPowOdd(2, 1, n, 1, 0, 2);
    ModPowEven(2, 2, n, 2, 0, 4);
    ModPowOdd(2, 3, n, 4, 0, 8);
    ModPowEven(2, 6, n, 8, 0, 64);
    ModPowOdd(2, 7, n, 64, 0, 128);
    ModPowEven(2, 14, n, 128, 0, 16384);
    ModPowEven(2, 28, n, 16384, 0, 268435456);
    ModPowOdd(2, 29, n, 268435456, 0, 536870912);
    ModPowEven(2, 58, n, 536870912, 288230374, 134099126);
    ModPowOdd(2, 59, n, 134099126, 0, 268198252);
    ModPowEven(2, 118, n, 268198252, 71930301, 872343397);
    ModPowOdd(2, 119, n, 872343397, 1, 744686787);
    ModPowEven(2, 238, n, 744686787, 554558406, 850474527);
    ModPowEven(2, 476, n, 850474527, 723306916, 12725317);
    ModPowEven(2, 952, n, 12725317, 161933, 691616958);
    ModPowOdd(2, 953, n, 691616958, 1, 383233909);
    ModPowEven(2, 1906, n, 383233909, 146868227, 979342692);
    ModPowOdd(2, 1907, n, 979342692, 1, 958685377);
    ModPowEven(2, 3814, n, 958685377, 919077645, 640088614);
    ModPowEven(2, 7628, n, 640088614, 409713430, 904446986);
    ModPowOdd(2, 7629, n, 904446986, 1, 808893965);
    ModPowEven(2, 15258, n, 808893965, 654309442, 33255131);
    ModPowEven(2, 30516, n, 33255131, 1105903, 730085840);
    ModPowOdd(2, 30517, n, 730085840, 1, 460171673);
    ModPowEven(2, 61034, n, 460171673, 211757967, 149313160);
    ModPowOdd(2, 61035, n, 149313160, 0, 298626320);
    ModPowEven(2, 122070, n, 298626320, 89177678, 372498654);
    ModPowEven(2, 244140, n, 372498654, 138755246, 260524994);
    ModPowEven(2, 488280, n, 260524994, 67873272, 23587132);
    ModPowOdd(2, 488281, n, 23587132, 0, 47174264);
    ModPowEven(2, 976562, n, 47174264, 2225411, 168363819);
    ModPowEven(2, 1953124, n, 168363819, 28346375, 349840136);
    ModPowOdd(2, 1953125, n, 349840136, 0, 699680272);
    ModPowEven(2, 3906250, n, 699680272, 489552479, 599126631);
    ModPowEven(2, 7812500, n, 599126631, 358952717, 460741142);
    ModPowEven(2, 15625000, n, 460741142, 212282398, 445487378);
    ModPowEven(2, 31250000, n, 445487378, 198459002, 568101870);
    ModPowEven(2, 62500000, n, 568101870, 322739732, 438318776);
    ModPowEven(2, 125000000, n, 438318776, 192123348, 49274740);
    ModPowEven(2, 250000000, n, 49274740, 2427999, 985071607);
    ModPowOdd(2, 250000001, n, 985071607, 1, 970143207);
    ModPowEven(2, 500000002, n, 970143207, 941177835, 500000004);
    ModPowOdd(2, 500000003, n, 500000004, 1, 1);
    ModPowEven(2, 1000000006, n, 1, 0, 1);
  }

  lemma Prime1000000007Coprime500000003(n: nat)
    requires n == 1000000007
    ensures Euclides(n, 3) == 1
  {
    EuclidesUnfold(2, 1, 0, 1);
    EuclidesUnfold(3, 2, 1, 1);
    EuclidesUnfold(n, 3, 2, 1);
  }

  lemma Prime1000000007Power500000003(n: nat)
    requires n == 1000000007
    ensures ModPow(2, 2, n) == 4
  {
    assert ModPow(2, 0, n) == 1;
    ModPowOdd(2, 1, n, 1, 0, 2);
    ModPowEven(2, 2, n, 2, 0, 4);
  }

  lemma Prime1000000007Factor500000003(n: nat)
    requires n == 1000000007 && IsPrime(500000003)
    ensures FactorsAbove(n, Pow(500000003, 1))
  {
    Prime1000000007Witness2(n);
    Prime1000000007Power500000003(n);
    Prime1000000007Coprime500000003(n);
    DivModUnique(4 + n - 1, n, 1, 3);
    DivModUnique(n - 1, 500000003, 2, 0);
    PocklingtonPower(n, 500000003, 1, 2, 2, 4);
  }

  lemma Prime1000000007()
    ensures IsPrime(1000000007)
  {
    Prime500000003();
    Prime1000000007Factor500000003(1000000007);
    assert Pow(500000003, 1) == 500000003;
    PrimeFromFactors(1000000007, 500000003);
  }

  /**
   * Certificate for 1000000009: 1000000009-1 = 2^3·3^2·7·109^2·167. It uses F = 109^2·167 = 1984127, with
   * (F+1)^2 = 3936763920384 > 1000000009, and the prime power(s) 109^2 with witness 2, 167 with witness 2.
   */
  lemma Prime1000000009Witness2(n: nat)
    requires n == 1000000009
    ensures ModPow(2, 1000000008, n) == 1
  {
    assert ModPow(2, 0, n) == 1;
    ModPowOdd(2, 1, n, 1, 0, 2);
    ModPowEven(2, 2, n, 2, 0, 4);
    ModPowOdd(2, 3, n, 4, 0, 8);
    ModPowEven(2, 6, n, 8, 0, 64);
    ModPowOdd(2, 7, n, 64, 0, 128);
    ModPowEven(2, 14, n, 128, 0, 16384);
    ModPowEven(2, 28, n, 16384, 0, 268435456);
    ModPowOdd(2, 29, n, 268435456, 0, 536870912);
    ModPowEven(2, 58, n, 536870912, 288230373, 557638387);
    ModPowOdd(2, 59, n, 557638387, 1, 115276765);
    ModPowEven(2, 118, n, 115276765, 13288732, 429266637);
    ModPowOdd(2, 119, n, 429266637, 0, 858533274);
    ModPowEven(2, 238, n, 858533274, 737079375, 931444701);
    ModPowEven(2, 476, n, 931444701, 867589223, 212676394);
    ModPowEven(2, 952, n, 212676394, 45231248, 157762004);
    ModPowOdd(2, 953, n, 157762004, 0, 315524008);
    ModPowEven(2, 1906, n, 315524008, 99555398, 728385482);
    ModPowOdd(2, 1907, n, 728385482, 1, 456770955);
    ModPowEven(2, 3814, n, 456770955, 208639703, 453854698);
    ModPowEven(2, 7628, n, 453854698, 205984085, 42814439);
    ModPowOdd(2, 7629, n, 42814439, 0, 85628878);
    ModPowEven(2, 15258, n, 85628878, 7332304, 681548148);
    ModPowEven(2, 30516, n, 681548148, 464507873, 861659047);
    ModPowOdd(2, 30517, n, 861659047, 1, 723318085);
    ModPowEven(2, 61034, n, 723318085, 523189047, 379365802);
    ModPowOdd(2, 61035, n, 379365802, 0, 758731604);
    ModPowEven(2, 122070, n, 758731604, 575673641, 727350047);
    ModPowEven(2, 244140, n, 727350047, 529038086, 109559435);
    ModPowEven(2, 488280, n, 109559435, 12003269, 689489804);
    ModPowOdd(2, 488281, n, 689489804, 1, 378979599);
    ModPowEven(2, 976562, n, 378979599, 143625535, 165570986);
    ModPowEven(2, 1953124, n, 165570986, 27413751, 158288437);
    ModPowOdd(2, 1953125, n, 158288437, 0, 316576874);
    ModPowEven(2, 3906250, n, 316576874, 100220916, 249623632);
    ModPowEven(2, 7812500, n, 249623632, 62311957, 92063811);
    ModPowEven(2, 15625000, n, 92063811, 8475745, 219562016);
    ModPowEven(2, 31250000, n, 219562016, 48207478, 436116954);
    ModPowEven(2, 62500000, n, 436116954, 190197995, 854456161);
    ModPowEven(2, 125000000, n, 854456161, 730095324, 500000005);
    ModPowOdd(2, 125000001, n, 500000005, 1, 1);
    ModPowEven(2, 250000002, n, 1, 0, 1);
    ModPowEven(2, 500000004, n, 1, 0, 1);
    ModPowEven(2, 1000000008, n, 1, 0, 1);
  }

  lemma Prime1000000009Coprime109(n: nat)
    requires n == 1000000009
    ensures Euclides(n, 885035684) == 1
  {
    EuclidesUnfold(4, 1, 0, 1);
    EuclidesUnfold(5, 4, 1, 1);
    EuclidesUnfold(9, 5, 4, 1);
    EuclidesUnfold(140, 9, 5, 1);
    EuclidesUnfold(149, 140, 9, 1);
    EuclidesUnfold(1481, 149, 140, 1);
    EuclidesUnfold(7554, 1481, 149, 1);
    EuclidesUnfold(16589, 7554, 1481, 1);
    EuclidesUnfold(40732, 16589, 7554, 1);
    EuclidesUnfold(57321, 40732, 16589, 1);
    EuclidesUnfold(98053, 57321, 40732, 1);
    EuclidesUnfold(449533, 98053, 57321, 1);
    EuclidesUnfold(1446652, 449533, 98053, 1);
    EuclidesUnfold(1896185, 1446652, 449533, 1);
    EuclidesUnfold(10927577, 1896185, 1446652, 1);
    EuclidesUnfold(34678916, 10927577, 1896185, 1);
    EuclidesUnfold(80285409, 34678916, 10927577, 1);
    EuclidesUnfold(114964325, 80285409, 34678916, 1);
    EuclidesUnfold(885035684, 114964325, 80285409, 1);
    EuclidesUnfold(n, 885035684, 114964325, 1);
  }

  lemma Prime1000000009Power109(n: nat)
    requires n == 1000000009
    ensures ModPow(2, 9174312, n) == 885035685
  {
    assert ModPow(2, 0, n) == 1;
    ModPowOdd(2, 1, n, 1, 0, 2);
    ModPowEven(2, 2, n, 2, 0, 4);
    ModPowEven(2, 4, n, 4, 0, 16);
    ModPowEven(2, 8, n, 16, 0, 256);
    ModPowEven(2, 16, n, 256, 0, 65536);
    ModPowOdd(2, 17, n, 65536, 0, 131072);
    ModPowEven(2, 34, n, 131072, 17, 179869031);
    ModPowEven(2, 68, n, 179869031, 32352868, 21703149);
    ModPowOdd(2, 69, n, 21703149, 0, 43406298);
    ModPowEven(2, 138, n, 43406298, 1884106, 689107850);
    ModPowOdd(2, 139, n, 689107850, 1, 378215691);
    ModPowEven(2, 278, n, 378215691, 143047107, 631183518);
    ModPowOdd(2, 279, n, 631183518, 1, 262367027);
    ModPowEven(2, 558, n, 262367027, 68836456, 237290625);
    ModPowOdd(2, 559, n, 237290625, 0, 474581250);
    ModPowEven(2, 1118, n, 474581250, 225227360, 824516260);
    ModPowOdd(2, 1119, n, 824516260, 1, 649032511);
    ModPowEven(2, 2238, n, 649032511, 421243196, 543776357);
    ModPowOdd(2, 2239, n, 543776357, 1, 87552705);
    ModPowEven(2, 4478, n, 87552705, 7665476, 83827741);
    ModPowOdd(2, 4479, n, 83827741, 0, 167655482);
    ModPowEven(2, 8958, n, 167655482, 28108360, 391677084);
    ModPowOdd(2, 8959, n, 391677084, 0, 783354168);
    ModPowEven(2, 17918, n, 783354168, 613643747, 178501);
    ModPowEven(2, 35836, n, 178501, 31, 862606722);
    ModPowOdd(2, 35837, n, 862606722, 1, 725213435);
    ModPowEven(2, 71674, n, 725213435, 525934521, 571088536);
    ModPowEven(2, 143348, n, 571088536, 326142113, 15344279);
    ModPowEven(2, 286696, n, 15344279, 235446, 895910827);
    ModPowOdd(2, 286697, n, 895910827, 1, 791821645);
    ModPowEven(2, 573394, n, 791821645, 626981511, 847672426);
    ModPowEven(2, 1146788, n, 847672426, 718548535, 333788661);
    ModPowOdd(2, 1146789, n, 333788661, 0, 667577322);
    ModPowEven(2, 2293578, n, 667577322, 445659476, 837756400);
    ModPowEven(2, 4587156, n, 837756400, 701835779, 424437989);
    ModPowEven(2, 9174312, n, 424437989, 180147604, 885035685);
  }

  lemma Prime1000000009Factor109(n: nat)
    requires n == 1000000009 && IsPrime(109)
    ensures FactorsAbove(n, Pow(109, 2))
  {
    Prime1000000009Witness2(n);
    Prime1000000009Power109(n);
    Prime1000000009Coprime109(n);
    DivModUnique(885035685 + n - 1, n, 1, 885035684);
    DivModUnique(n - 1, 109, 9174312, 0);
    assert Pow(109, 2) == 11881;
    DivModUnique(n - 1, 11881, 84168, 0);
    PocklingtonPower(n, 109, 2, 2, 9174312, 885035685);
  }

  lemma Prime1000000009Coprime167(n: nat)
    requires n == 1000000009
    ensures Euclides(n, 455178671) == 1
  {
    EuclidesUnfold(2, 1, 0, 1);
    EuclidesUnfold(25, 2, 1, 1);
    EuclidesUnfold(27, 25, 2, 1);
    EuclidesUnfold(52, 27, 25, 1);
    EuclidesUnfold(79, 52, 27, 1);
    EuclidesUnfold(2422, 79, 52, 1);
    EuclidesUnfold(2501, 2422, 79, 1);
    EuclidesUnfold(4923, 2501, 2422, 1);
    EuclidesUnfold(36962, 4923, 2501, 1);
    EuclidesUnfold(41885, 36962, 4923, 1);
    EuclidesUnfold(288272, 41885, 36962, 1);
    EuclidesUnfold(618429, 288272, 41885, 1);
    EuclidesUnfold(906701, 618429, 288272, 1);
    EuclidesUnfold(6058635, 906701, 618429, 1);
    EuclidesUnfold(6965336, 6058635, 906701, 1);
    EuclidesUnfold(89642667, 6965336, 6058635, 1);
    EuclidesUnfold(455178671, 89642667, 6965336, 1);
    EuclidesUnfold(n, 455178671, 89642667, 1);
  }

  lemma Prime1000000009Power167(n: nat)
    requires n == 1000000009
    ensures ModPow(2, 5988024, n) == 455178672
  {
    assert ModPow(2, 0, n) == 1;
    ModPowOdd(2, 1, n, 1, 0, 2);
    ModPowEven(2, 2, n, 2, 0, 4);
    ModPowEven(2, 4, n, 4, 0, 16);
    ModPowOdd(2, 5, n, 16, 0, 32);
    ModPowEven(2, 10, n, 32, 0, 1024);
    ModPowOdd(2, 11, n, 1024, 0, 2048);
    ModPowEven(2, 22, n, 2048, 0, 4194304);
    ModPowEven(2, 44, n, 4194304, 17592, 185886088);
    ModPowOdd(2, 45, n, 185886088, 0, 371772176);
    ModPowEven(2, 90, n, 371772176, 138214549, 603844035);
    ModPowOdd(2, 91, n, 603844035, 1, 207688061);
    ModPowEven(2, 182, n, 207688061, 43134330, 293730751);
    ModPowEven(2, 364, n, 293730751, 86277753, 306524224);
    ModPowOdd(2, 365, n, 306524224, 0, 613048448);
    ModPowEven(2, 730, n, 613048448, 375828396, 212753140);
    ModPowEven(2, 1460, n, 212753140, 45263898, 172484518);
    ModPowOdd(2, 1461, n, 172484518, 0, 344969036);
    ModPowEven(2, 2922, n, 344969036, 119003634, 727736590);
    ModPowOdd(2, 2923, n, 727736590, 1, 455473171);
    ModPowEven(2, 5846, n, 455473171, 207455807, 633692978);
    ModPowOdd(2, 5847, n, 633692978, 1, 267385947);
    ModPowEven(2, 11694, n, 267385947, 71495244, 9629613);
    ModPowOdd(2, 11695, n, 9629613, 0, 19259226);
    ModPowEven(2, 23390, n, 19259226, 370917, 782780823);
    ModPowEven(2, 46780, n, 782780823, 612745811, 341845030);
    ModPowOdd(2, 46781, n, 341845030, 0, 683690060);
    ModPowEven(2, 93562, n, 683690060, 467432093, 935914763);
    ModPowEven(2, 187124, n, 935914763, 875936435, 717918254);
    ModPowOdd(2, 187125, n, 717918254, 1, 435836499);
    ModPowEven(2, 374250, n, 435836499, 189953452, 150995933);
    ModPowOdd(2, 374251, n, 150995933, 0, 301991866);
    ModPowEven(2, 748502, n, 301991866, 91199086, 309370182);
    ModPowOdd(2, 748503, n, 309370182, 0, 618740364);
    ModPowEven(2, 1497006, n, 618740364, 382839634, 597295790);
    ModPowEven(2, 2994012, n, 597295790, 356762257, 540863787);
    ModPowEven(2, 5988024, n, 540863787, 292533633, 455178672);
  }

  lemma Prime1000000009Factor167(n: nat)
    requires n == 1000000009 && IsPrime(167)
    ensures FactorsAbove(n, Pow(167, 1))
  {
    Prime1000000009Witness2(n);
    Prime1000000009Power167(n);
    Prime1000000009Coprime167(n);
    DivModUnique(455178672 + n - 1, n, 1, 455178671);
    DivModUnique(n - 1, 167, 5988024, 0);
    PocklingtonPower(n, 167, 1, 2, 5988024, 455178672);
  }

  lemma Prime1000000009()
    ensures IsPrime(1000000009)
  {
    Prime109();
    Prime167();
    Prime1000000009Factor109(1000000009);
    assert Pow(109, 2) == 11881;
    Prime1000000009Factor167(1000000009);
    FactorsCombine(1000000009, 11881, 167);
    PrimeFromFactors(1000000009, 1984127);
  }
}
