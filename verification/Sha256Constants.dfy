/** What the constants of SHA-256 are: the first 32 bits of the fractional parts of the cube roots of the
    first 64 primes, and of the square roots of the first 8 (sections 4.2.2 and 5.3.3 of FIPS 180-4). */
module Sha256Constants {
  import opened Crc32
  import opened Sha256Spec

  // ---------------------------------------------------------------- primes

  ghost predicate Factors(a: nat, b: nat, n: nat) {
    a >= 2 && b >= 2 && a * b == n
  }

  ghost predicate IsPrime(n: nat) {
    n >= 2 && forall a, b :: !Factors(a, b, n)
  }

  predicate Small(e: nat) {
    e == 2 || e == 3 || e == 5 || e == 7 || e == 11 || e == 13 || e == 17
  }

  /** No prime below 19 divides `n`, unless `n` is that prime. */
  predicate Sieved(n: nat) {
    || Small(n)
    || (n > 1 && n % 2 != 0 && n % 3 != 0 && n % 5 != 0 && n % 7 != 0 && n % 11 != 0 && n % 13 != 0 && n % 17 != 0)
  }

  predicate SmallDivides(e: nat, n: nat) {
    || (e == 2 && n % 2 == 0) || (e == 3 && n % 3 == 0) || (e == 5 && n % 5 == 0) || (e == 7 && n % 7 == 0)
    || (e == 11 && n % 11 == 0) || (e == 13 && n % 13 == 0) || (e == 17 && n % 17 == 0)
  }

  lemma MultipleOf2(m: nat)
    ensures (2 * m) % 2 == 0
  {
  }

  lemma MultipleOf3(m: nat)
    ensures (3 * m) % 3 == 0
  {
  }

  lemma MultipleOf5(m: nat)
    ensures (5 * m) % 5 == 0
  {
  }

  lemma MultipleOf7(m: nat)
    ensures (7 * m) % 7 == 0
  {
  }

  lemma MultipleOf11(m: nat)
    ensures (11 * m) % 11 == 0
  {
  }

  lemma MultipleOf13(m: nat)
    ensures (13 * m) % 13 == 0
  {
  }

  lemma MultipleOf17(m: nat)
    ensures (17 * m) % 17 == 0
  {
  }

  lemma MultipleDivides(e: nat, m: nat)
    requires Small(e)
    ensures SmallDivides(e, e * m)
  {
    MultipleOf2(m);
    MultipleOf3(m);
    MultipleOf5(m);
    MultipleOf7(m);
    MultipleOf11(m);
    MultipleOf13(m);
    MultipleOf17(m);
  }

  lemma Reassociate(e: nat, k: nat, b: nat)
    ensures (e * k) * b == e * (k * b)
  {
  }

  lemma Less(a: nat, b: nat)
    requires a >= 2 && b >= 2
    ensures a < a * b
  {
  }

  function SmallFactorOf(a: nat): nat {
    if a % 2 == 0 then 2 else if a % 3 == 0 then 3 else if a % 5 == 0 then 5 else a
  }

  lemma SmallFactorDivides(a: nat)
    requires 2 <= a <= 18
    ensures var e := SmallFactorOf(a); Small(e) && e <= a && a == e * (a / e)
  {
  }

  /** A number with a factor up to 18 has a small prime factor. */
  lemma SmallFactor(a: nat, b: nat, n: nat) returns (e: nat)
    requires Factors(a, b, n) && a <= 18
    ensures e < n && SmallDivides(e, n)
  {
    hide SmallFactorOf, Small, SmallDivides;
    e := SmallFactorOf(a);
    SmallFactorDivides(a);
    Reassociate(e, a / e, b);
    MultipleDivides(e, a / e * b);
    Less(a, b);
  }

  lemma LargeFactors(a: nat, b: nat)
    requires a >= 19 && b >= 19
    ensures a * b >= 361
  {
    assert (a - 19) * (b - 19) >= 0;
  }

  lemma SmallApart(n: nat, e: nat)
    requires Small(n) && e < n
    ensures !SmallDivides(e, n)
  {
  }

  lemma Halves(n: nat, e: nat)
    requires n > e && SmallDivides(e, n)
    ensures exists b :: Factors(e, b, n)
  {
    var b := if e == 2 then n / 2 else if e == 3 then n / 3 else if e == 5 then n / 5
             else if e == 7 then n / 7 else if e == 11 then n / 11 else if e == 13 then n / 13 else n / 17;
    assert Factors(e, b, n);
  }

  lemma FactorFound(n: nat) returns (e: nat)
    requires n >= 2 && !Sieved(n)
    ensures n > e && SmallDivides(e, n)
  {
    e := if n % 2 == 0 then 2 else if n % 3 == 0 then 3 else if n % 5 == 0 then 5
         else if n % 7 == 0 then 7 else if n % 11 == 0 then 11 else if n % 13 == 0 then 13 else 17;
  }

  /** Below 19 * 19 the sieve leaves exactly the primes. */
  lemma SievedExactly(n: nat)
    requires n < 361
    ensures Sieved(n) <==> IsPrime(n)
  {
    if a, b :| Factors(a, b, n) {
      if a >= 19 && b >= 19 {
        LargeFactors(a, b);
      }
      var e: nat;
      if a <= 18 {
        e := SmallFactor(a, b, n);
      } else {
        e := SmallFactor(b, a, n);
      }
      if Small(n) {
        SmallApart(n, e);
      }
    } else if n >= 2 && !Sieved(n) {
      var e := FactorFound(n);
      Halves(n, e);
    }
  }

  /** The first odd number from `n` on that passes the sieve. */
  function OddPrimeFrom(n: nat): nat
    decreases 311 - n
  {
    if n >= 311 || Sieved(n) then n else OddPrimeFrom(n + 2)
  }

  /** The `t`-th prime, counted from 0; computed right for the first 64. */
  function Prime(t: nat): nat {
    if t == 0 then 2 else if t == 1 then 3 else OddPrimeFrom(Prime(t - 1) + 2)
  }

  lemma PrimeStep(t: nat)
    requires t >= 2
    ensures Prime(t) == OddPrimeFrom(Prime(t - 1) + 2)
  {
  }

  lemma FirstPrimes()
    ensures Prime(0) == 2 && Prime(1) == 3
  {
  }

  lemma Gaps0()
    ensures OddPrimeFrom(5) == 5 && OddPrimeFrom(7) == 7 && OddPrimeFrom(9) == 11 && OddPrimeFrom(13) == 13
    ensures OddPrimeFrom(15) == 17 && OddPrimeFrom(19) == 19
  {
  }

  lemma Primes0()
    ensures Prime(0) == 2 && Prime(1) == 3 && Prime(2) == 5 && Prime(3) == 7
    ensures Prime(4) == 11 && Prime(5) == 13 && Prime(6) == 17 && Prime(7) == 19
  {
    hide Prime, OddPrimeFrom;
    FirstPrimes();
    Gaps0();
    PrimeStep(2);
    PrimeStep(3);
    PrimeStep(4);
    PrimeStep(5);
    PrimeStep(6);
    PrimeStep(7);
  }

  lemma Gaps1()
    ensures OddPrimeFrom(21) == 23 && OddPrimeFrom(25) == 29 && OddPrimeFrom(31) == 31 && OddPrimeFrom(33) == 37
    ensures OddPrimeFrom(39) == 41 && OddPrimeFrom(43) == 43 && OddPrimeFrom(45) == 47 && OddPrimeFrom(49) == 53
  {
  }

  lemma Primes1()
    ensures Prime(8) == 23 && Prime(9) == 29 && Prime(10) == 31 && Prime(11) == 37
    ensures Prime(12) == 41 && Prime(13) == 43 && Prime(14) == 47 && Prime(15) == 53
  {
    hide Prime, OddPrimeFrom;
    Primes0();
    Gaps1();
    PrimeStep(8);
    PrimeStep(9);
    PrimeStep(10);
    PrimeStep(11);
    PrimeStep(12);
    PrimeStep(13);
    PrimeStep(14);
    PrimeStep(15);
  }

  lemma Gaps2()
    ensures OddPrimeFrom(55) == 59 && OddPrimeFrom(61) == 61 && OddPrimeFrom(63) == 67 && OddPrimeFrom(69) == 71
    ensures OddPrimeFrom(73) == 73 && OddPrimeFrom(75) == 79 && OddPrimeFrom(81) == 83 && OddPrimeFrom(85) == 89
  {
  }

  lemma Primes2()
    ensures Prime(16) == 59 && Prime(17) == 61 && Prime(18) == 67 && Prime(19) == 71
    ensures Prime(20) == 73 && Prime(21) == 79 && Prime(22) == 83 && Prime(23) == 89
  {
    hide Prime, OddPrimeFrom;
    Primes1();
    Gaps2();
    PrimeStep(16);
    PrimeStep(17);
    PrimeStep(18);
    PrimeStep(19);
    PrimeStep(20);
    PrimeStep(21);
    PrimeStep(22);
    PrimeStep(23);
  }

  lemma Gaps3()
    ensures OddPrimeFrom(91) == 97 && OddPrimeFrom(99) == 101 && OddPrimeFrom(103) == 103 && OddPrimeFrom(105) == 107
    ensures OddPrimeFrom(109) == 109 && OddPrimeFrom(111) == 113 && OddPrimeFrom(115) == 127 && OddPrimeFrom(129) == 131
  {
  }

  lemma Primes3()
    ensures Prime(24) == 97 && Prime(25) == 101 && Prime(26) == 103 && Prime(27) == 107
    ensures Prime(28) == 109 && Prime(29) == 113 && Prime(30) == 127 && Prime(31) == 131
  {
    hide Prime, OddPrimeFrom;
    Primes2();
    Gaps3();
    PrimeStep(24);
    PrimeStep(25);
    PrimeStep(26);
    PrimeStep(27);
    PrimeStep(28);
    PrimeStep(29);
    PrimeStep(30);
    PrimeStep(31);
  }

  lemma Gaps4()
    ensures OddPrimeFrom(133) == 137 && OddPrimeFrom(139) == 139 && OddPrimeFrom(141) == 149 && OddPrimeFrom(151) == 151
    ensures OddPrimeFrom(153) == 157 && OddPrimeFrom(159) == 163 && OddPrimeFrom(165) == 167 && OddPrimeFrom(169) == 173
  {
  }

  lemma Primes4()
    ensures Prime(32) == 137 && Prime(33) == 139 && Prime(34) == 149 && Prime(35) == 151
    ensures Prime(36) == 157 && Prime(37) == 163 && Prime(38) == 167 && Prime(39) == 173
  {
    hide Prime, OddPrimeFrom;
    Primes3();
    Gaps4();
    PrimeStep(32);
    PrimeStep(33);
    PrimeStep(34);
    PrimeStep(35);
    PrimeStep(36);
    PrimeStep(37);
    PrimeStep(38);
    PrimeStep(39);
  }

  lemma Gaps5()
    ensures OddPrimeFrom(175) == 179 && OddPrimeFrom(181) == 181 && OddPrimeFrom(183) == 191 && OddPrimeFrom(193) == 193
    ensures OddPrimeFrom(195) == 197 && OddPrimeFrom(199) == 199 && OddPrimeFrom(201) == 211 && OddPrimeFrom(213) == 223
  {
  }

  lemma Primes5()
    ensures Prime(40) == 179 && Prime(41) == 181 && Prime(42) == 191 && Prime(43) == 193
    ensures Prime(44) == 197 && Prime(45) == 199 && Prime(46) == 211 && Prime(47) == 223
  {
    hide Prime, OddPrimeFrom;
    Primes4();
    Gaps5();
    PrimeStep(40);
    PrimeStep(41);
    PrimeStep(42);
    PrimeStep(43);
    PrimeStep(44);
    PrimeStep(45);
    PrimeStep(46);
    PrimeStep(47);
  }

  lemma Gaps6()
    ensures OddPrimeFrom(225) == 227 && OddPrimeFrom(229) == 229 && OddPrimeFrom(231) == 233 && OddPrimeFrom(235) == 239
    ensures OddPrimeFrom(241) == 241 && OddPrimeFrom(243) == 251 && OddPrimeFrom(253) == 257 && OddPrimeFrom(259) == 263
  {
  }

  lemma Primes6()
    ensures Prime(48) == 227 && Prime(49) == 229 && Prime(50) == 233 && Prime(51) == 239
    ensures Prime(52) == 241 && Prime(53) == 251 && Prime(54) == 257 && Prime(55) == 263
  {
    hide Prime, OddPrimeFrom;
    Primes5();
    Gaps6();
    PrimeStep(48);
    PrimeStep(49);
    PrimeStep(50);
    PrimeStep(51);
    PrimeStep(52);
    PrimeStep(53);
    PrimeStep(54);
    PrimeStep(55);
  }

  lemma Gaps7()
    ensures OddPrimeFrom(265) == 269 && OddPrimeFrom(271) == 271 && OddPrimeFrom(273) == 277 && OddPrimeFrom(279) == 281
    ensures OddPrimeFrom(283) == 283 && OddPrimeFrom(285) == 293 && OddPrimeFrom(295) == 307 && OddPrimeFrom(309) == 311
  {
  }

  lemma Primes7()
    ensures Prime(56) == 269 && Prime(57) == 271 && Prime(58) == 277 && Prime(59) == 281
    ensures Prime(60) == 283 && Prime(61) == 293 && Prime(62) == 307 && Prime(63) == 311
  {
    hide Prime, OddPrimeFrom;
    Primes6();
    Gaps7();
    PrimeStep(56);
    PrimeStep(57);
    PrimeStep(58);
    PrimeStep(59);
    PrimeStep(60);
    PrimeStep(61);
    PrimeStep(62);
    PrimeStep(63);
  }

  lemma EvenIsSieved(m: nat)
    requires m > 2 && m % 2 == 0
    ensures !Sieved(m)
  {
  }

  lemma LastIsLeft()
    ensures Sieved(311)
  {
  }

  /** The next odd number that passes the sieve is the next prime. */
  lemma {:induction false} OddPrimeFromIsNext(n: nat)
    requires 3 <= n <= 311 && n % 2 == 1
    ensures var p := OddPrimeFrom(n);
            n <= p <= 311 && IsPrime(p) && forall m :: n <= m < p ==> !IsPrime(m)
    decreases 311 - n
  {
    hide IsPrime, Sieved;
    SievedExactly(n);
    LastIsLeft();
    if n < 311 && !Sieved(n) {
      OddPrimeFromIsNext(n + 2);
      EvenIsSieved(n + 1);
      SievedExactly(n + 1);
    }
  }

  lemma PrimesUpTo(t: nat)
    requires t < 63
    ensures Prime(t) <= 307 && (t >= 1 ==> Prime(t) >= 3 && Prime(t) % 2 == 1)
  {
    hide Prime, OddPrimeFrom, Sieved;
    if t < 8 {
      Primes0();
    } else if t < 16 {
      Primes1();
    } else if t < 24 {
      Primes2();
    } else if t < 32 {
      Primes3();
    } else {
      PrimesBeyond(t);
    }
  }

  lemma PrimesBeyond(t: nat)
    requires 32 <= t < 63
    ensures 3 <= Prime(t) <= 307 && Prime(t) % 2 == 1
  {
    hide Prime, OddPrimeFrom, Sieved;
    if t < 40 {
      Primes4();
    } else if t < 48 {
      Primes5();
    } else if t < 56 {
      Primes6();
    } else {
      Primes7();
    }
  }

  /** `Prime` lists the primes in order and leaves none out. */
  lemma PrimesInOrder(t: nat)
    requires t < 64
    ensures IsPrime(Prime(t)) && (t == 0 ==> Prime(t) == 2)
    ensures t > 0 ==> Prime(t - 1) < Prime(t) && forall m :: Prime(t - 1) < m < Prime(t) ==> !IsPrime(m)
  {
    hide IsPrime, OddPrimeFrom, Prime;
    FirstPrimes();
    if t < 2 {
      SievedExactly(t + 2);
    } else {
      PrimeStep(t);
      PrimesUpTo(t - 1);
      OddPrimeFromIsNext(Prime(t - 1) + 2);
      EvenIsSieved(Prime(t - 1) + 1);
      SievedExactly(Prime(t - 1) + 1);
    }
  }

  // ---------------------------------------------------------------- roots

  const B: nat := 0x1_0000_0000

  /** `q` and the 32 binary places `k` are the cube root of `p`, rounded down. */
  predicate CubeRootDown(k: Word, p: nat, q: nat) {
    var c := q * B + k as nat;
    c * c * c <= p * B * B * B < (c + 1) * (c + 1) * (c + 1)
  }

  predicate SquareRootDown(h: Word, p: nat, q: nat) {
    var c := q * B + h as nat;
    c * c <= p * B * B < (c + 1) * (c + 1)
  }

  /** The first 32 binary places of the fractional part of the cube root of `p`. */
  ghost predicate CubeRootPlaces(k: Word, p: nat) {
    exists q :: CubeRootDown(k, p, q)
  }

  ghost predicate SquareRootPlaces(h: Word, p: nat) {
    exists q :: SquareRootDown(h, p, q)
  }

  lemma Row0()
    ensures K()[0] == 0x428a2f98 && K()[1] == 0x71374491 && K()[2] == 0xb5c0fbcf && K()[3] == 0xe9b5dba5
    ensures K()[4] == 0x3956c25b && K()[5] == 0x59f111f1 && K()[6] == 0x923f82a4 && K()[7] == 0xab1c5ed5
  {
  }

  lemma Cubes0()
    ensures CubeRootDown(0x428a2f98, 2, 1) && CubeRootDown(0x71374491, 3, 1)
    ensures CubeRootDown(0xb5c0fbcf, 5, 1) && CubeRootDown(0xe9b5dba5, 7, 1)
    ensures CubeRootDown(0x3956c25b, 11, 2) && CubeRootDown(0x59f111f1, 13, 2)
    ensures CubeRootDown(0x923f82a4, 17, 2) && CubeRootDown(0xab1c5ed5, 19, 2)
  {
  }

  lemma Row1()
    ensures K()[8] == 0xd807aa98 && K()[9] == 0x12835b01 && K()[10] == 0x243185be && K()[11] == 0x550c7dc3
    ensures K()[12] == 0x72be5d74 && K()[13] == 0x80deb1fe && K()[14] == 0x9bdc06a7 && K()[15] == 0xc19bf174
  {
  }

  lemma Cubes1()
    ensures CubeRootDown(0xd807aa98, 23, 2) && CubeRootDown(0x12835b01, 29, 3)
    ensures CubeRootDown(0x243185be, 31, 3) && CubeRootDown(0x550c7dc3, 37, 3)
    ensures CubeRootDown(0x72be5d74, 41, 3) && CubeRootDown(0x80deb1fe, 43, 3)
    ensures CubeRootDown(0x9bdc06a7, 47, 3) && CubeRootDown(0xc19bf174, 53, 3)
  {
  }

  lemma Row2()
    ensures K()[16] == 0xe49b69c1 && K()[17] == 0xefbe4786 && K()[18] == 0x0fc19dc6 && K()[19] == 0x240ca1cc
    ensures K()[20] == 0x2de92c6f && K()[21] == 0x4a7484aa && K()[22] == 0x5cb0a9dc && K()[23] == 0x76f988da
  {
  }

  lemma Cubes2()
    ensures CubeRootDown(0xe49b69c1, 59, 3) && CubeRootDown(0xefbe4786, 61, 3)
    ensures CubeRootDown(0x0fc19dc6, 67, 4) && CubeRootDown(0x240ca1cc, 71, 4)
    ensures CubeRootDown(0x2de92c6f, 73, 4) && CubeRootDown(0x4a7484aa, 79, 4)
    ensures CubeRootDown(0x5cb0a9dc, 83, 4) && CubeRootDown(0x76f988da, 89, 4)
  {
  }

  lemma Row3()
    ensures K()[24] == 0x983e5152 && K()[25] == 0xa831c66d && K()[26] == 0xb00327c8 && K()[27] == 0xbf597fc7
    ensures K()[28] == 0xc6e00bf3 && K()[29] == 0xd5a79147 && K()[30] == 0x06ca6351 && K()[31] == 0x14292967
  {
  }

  lemma Cubes3()
    ensures CubeRootDown(0x983e5152, 97, 4) && CubeRootDown(0xa831c66d, 101, 4)
    ensures CubeRootDown(0xb00327c8, 103, 4) && CubeRootDown(0xbf597fc7, 107, 4)
    ensures CubeRootDown(0xc6e00bf3, 109, 4) && CubeRootDown(0xd5a79147, 113, 4)
    ensures CubeRootDown(0x06ca6351, 127, 5) && CubeRootDown(0x14292967, 131, 5)
  {
  }

  lemma Row4()
    ensures K()[32] == 0x27b70a85 && K()[33] == 0x2e1b2138 && K()[34] == 0x4d2c6dfc && K()[35] == 0x53380d13
    ensures K()[36] == 0x650a7354 && K()[37] == 0x766a0abb && K()[38] == 0x81c2c92e && K()[39] == 0x92722c85
  {
  }

  lemma Cubes4()
    ensures CubeRootDown(0x27b70a85, 137, 5) && CubeRootDown(0x2e1b2138, 139, 5)
    ensures CubeRootDown(0x4d2c6dfc, 149, 5) && CubeRootDown(0x53380d13, 151, 5)
    ensures CubeRootDown(0x650a7354, 157, 5) && CubeRootDown(0x766a0abb, 163, 5)
    ensures CubeRootDown(0x81c2c92e, 167, 5) && CubeRootDown(0x92722c85, 173, 5)
  {
  }

  lemma Row5()
    ensures K()[40] == 0xa2bfe8a1 && K()[41] == 0xa81a664b && K()[42] == 0xc24b8b70 && K()[43] == 0xc76c51a3
    ensures K()[44] == 0xd192e819 && K()[45] == 0xd6990624 && K()[46] == 0xf40e3585 && K()[47] == 0x106aa070
  {
  }

  lemma Cubes5()
    ensures CubeRootDown(0xa2bfe8a1, 179, 5) && CubeRootDown(0xa81a664b, 181, 5)
    ensures CubeRootDown(0xc24b8b70, 191, 5) && CubeRootDown(0xc76c51a3, 193, 5)
    ensures CubeRootDown(0xd192e819, 197, 5) && CubeRootDown(0xd6990624, 199, 5)
    ensures CubeRootDown(0xf40e3585, 211, 5) && CubeRootDown(0x106aa070, 223, 6)
  {
  }

  lemma Row6()
    ensures K()[48] == 0x19a4c116 && K()[49] == 0x1e376c08 && K()[50] == 0x2748774c && K()[51] == 0x34b0bcb5
    ensures K()[52] == 0x391c0cb3 && K()[53] == 0x4ed8aa4a && K()[54] == 0x5b9cca4f && K()[55] == 0x682e6ff3
  {
  }

  lemma Cubes6()
    ensures CubeRootDown(0x19a4c116, 227, 6) && CubeRootDown(0x1e376c08, 229, 6)
    ensures CubeRootDown(0x2748774c, 233, 6) && CubeRootDown(0x34b0bcb5, 239, 6)
    ensures CubeRootDown(0x391c0cb3, 241, 6) && CubeRootDown(0x4ed8aa4a, 251, 6)
    ensures CubeRootDown(0x5b9cca4f, 257, 6) && CubeRootDown(0x682e6ff3, 263, 6)
  {
  }

  lemma Row7()
    ensures K()[56] == 0x748f82ee && K()[57] == 0x78a5636f && K()[58] == 0x84c87814 && K()[59] == 0x8cc70208
    ensures K()[60] == 0x90befffa && K()[61] == 0xa4506ceb && K()[62] == 0xbef9a3f7 && K()[63] == 0xc67178f2
  {
  }

  lemma Cubes7()
    ensures CubeRootDown(0x748f82ee, 269, 6) && CubeRootDown(0x78a5636f, 271, 6)
    ensures CubeRootDown(0x84c87814, 277, 6) && CubeRootDown(0x8cc70208, 281, 6)
    ensures CubeRootDown(0x90befffa, 283, 6) && CubeRootDown(0xa4506ceb, 293, 6)
    ensures CubeRootDown(0xbef9a3f7, 307, 6) && CubeRootDown(0xc67178f2, 311, 6)
  {
  }

  lemma SquareRoots()
    ensures SquareRootDown(0x6a09e667, 2, 1) && SquareRootDown(0xbb67ae85, 3, 1)
    ensures SquareRootDown(0x3c6ef372, 5, 2) && SquareRootDown(0xa54ff53a, 7, 2)
    ensures SquareRootDown(0x510e527f, 11, 3) && SquareRootDown(0x9b05688c, 13, 3)
    ensures SquareRootDown(0x1f83d9ab, 17, 4) && SquareRootDown(0x5be0cd19, 19, 4)
  {
  }

  lemma CubeRoots0(t: nat)
    requires 0 <= t < 8
    ensures CubeRootPlaces(K()[t], Prime(t))
  {
    hide K, Prime, CubeRootDown;
    Row0();
    Cubes0();
    Primes0();
  }

  lemma CubeRoots1(t: nat)
    requires 8 <= t < 16
    ensures CubeRootPlaces(K()[t], Prime(t))
  {
    hide K, Prime, CubeRootDown;
    Row1();
    Cubes1();
    Primes1();
  }

  lemma CubeRoots2(t: nat)
    requires 16 <= t < 24
    ensures CubeRootPlaces(K()[t], Prime(t))
  {
    hide K, Prime, CubeRootDown;
    Row2();
    Cubes2();
    Primes2();
  }

  lemma CubeRoots3(t: nat)
    requires 24 <= t < 32
    ensures CubeRootPlaces(K()[t], Prime(t))
  {
    hide K, Prime, CubeRootDown;
    Row3();
    Cubes3();
    Primes3();
  }

  lemma CubeRoots4(t: nat)
    requires 32 <= t < 40
    ensures CubeRootPlaces(K()[t], Prime(t))
  {
    hide K, Prime, CubeRootDown;
    Row4();
    Cubes4();
    Primes4();
  }

  lemma CubeRoots5(t: nat)
    requires 40 <= t < 48
    ensures CubeRootPlaces(K()[t], Prime(t))
  {
    hide K, Prime, CubeRootDown;
    Row5();
    Cubes5();
    Primes5();
  }

  lemma CubeRoots6(t: nat)
    requires 48 <= t < 56
    ensures CubeRootPlaces(K()[t], Prime(t))
  {
    hide K, Prime, CubeRootDown;
    Row6();
    Cubes6();
    Primes6();
  }

  lemma CubeRoots7(t: nat)
    requires 56 <= t < 64
    ensures CubeRootPlaces(K()[t], Prime(t))
  {
    hide K, Prime, CubeRootDown;
    Row7();
    Cubes7();
    Primes7();
  }

  /** The round constants and the first hash value are what the standard says they are. */
  lemma ConstantsAreRoots(t: nat)
    requires t < 64
    ensures CubeRootPlaces(K()[t], Prime(t))
    ensures t < 8 ==> SquareRootPlaces(H0()[t], Prime(t))
  {
    hide K, Prime, CubeRootDown, SquareRootDown;
    if t < 8 {
      Primes0();
      SquareRoots();
      CubeRoots0(t);
    } else if t < 16 {
      CubeRoots1(t);
    } else if t < 24 {
      CubeRoots2(t);
    } else if t < 32 {
      CubeRoots3(t);
    } else if t < 40 {
      CubeRoots4(t);
    } else if t < 48 {
      CubeRoots5(t);
    } else if t < 56 {
      CubeRoots6(t);
    } else {
      CubeRoots7(t);
    }
  }
}
