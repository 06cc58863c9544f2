/** The constants of SHA-256 are what sections 4.2.2 and 5.3.3 of FIPS 180-4 say they are: the first
    32 bits of the fractional parts of the cube roots and square roots of the first primes.
 */
module Roots {
  import opened Bytes
  import opened Fips180

  predicate IsPrime(n: nat) {
    n >= 2 && forall d: nat :: 2 <= d < n ==> n % d != 0
  }

  const PRIMES: seq<nat> :=
    [2, 3, 5, 7, 11, 13, 17, 19, 23, 29, 31, 37, 41, 43, 47, 53] +
    [59, 61, 67, 71, 73, 79, 83, 89, 97, 101, 103, 107, 109, 113, 127, 131] +
    [137, 139, 149, 151, 157, 163, 167, 173, 179, 181, 191, 193, 197, 199, 211, 223] +
    [227, 229, 233, 239, 241, 251, 257, 263, 269, 271, 277, 281, 283, 293, 307, 311]

  // The integer part of the cube root of p < 343, and of the square root of p < 25.
  function WholeCube(p: nat): nat {
    if p < 8 then 1 else if p < 27 then 2 else if p < 64 then 3 else if p < 125 then 4 else if p < 216 then 5 else 6
  }

  function WholeSquare(p: nat): nat {
    if p < 4 then 1 else if p < 9 then 2 else if p < 16 then 3 else 4
  }

  // w + part / 2^32 is the cube root of p, cut off after 32 bits of the fraction.
  predicate IsCubeRoot(p: nat, part: word) {
    var c := WholeCube(p) * 0x1_0000_0000 + part as nat;
    c * c * c <= p * 0x1_0000_0000_0000_0000_0000_0000 < (c + 1) * (c + 1) * (c + 1)
  }

  predicate IsSquareRoot(p: nat, part: word) {
    var c := WholeSquare(p) * 0x1_0000_0000 + part as nat;
    c * c <= p * 0x1_0000_0000_0000_0000 < (c + 1) * (c + 1)
  }

  lemma CubeRows0()
    ensures IsCubeRoot(2, 0x428a2f98) && IsCubeRoot(3, 0x71374491) && IsCubeRoot(5, 0xb5c0fbcf) &&
            IsCubeRoot(7, 0xe9b5dba5) && IsCubeRoot(11, 0x3956c25b) && IsCubeRoot(13, 0x59f111f1) &&
            IsCubeRoot(17, 0x923f82a4) && IsCubeRoot(19, 0xab1c5ed5)
  {
  }

  lemma CubeRows1()
    ensures IsCubeRoot(23, 0xd807aa98) && IsCubeRoot(29, 0x12835b01) && IsCubeRoot(31, 0x243185be) &&
            IsCubeRoot(37, 0x550c7dc3) && IsCubeRoot(41, 0x72be5d74) && IsCubeRoot(43, 0x80deb1fe) &&
            IsCubeRoot(47, 0x9bdc06a7) && IsCubeRoot(53, 0xc19bf174)
  {
  }

  lemma CubeRows2()
    ensures IsCubeRoot(59, 0xe49b69c1) && IsCubeRoot(61, 0xefbe4786) && IsCubeRoot(67, 0x0fc19dc6) &&
            IsCubeRoot(71, 0x240ca1cc) && IsCubeRoot(73, 0x2de92c6f) && IsCubeRoot(79, 0x4a7484aa) &&
            IsCubeRoot(83, 0x5cb0a9dc) && IsCubeRoot(89, 0x76f988da)
  {
  }

  lemma CubeRows3()
    ensures IsCubeRoot(97, 0x983e5152) && IsCubeRoot(101, 0xa831c66d) && IsCubeRoot(103, 0xb00327c8) &&
            IsCubeRoot(107, 0xbf597fc7) && IsCubeRoot(109, 0xc6e00bf3) && IsCubeRoot(113, 0xd5a79147) &&
            IsCubeRoot(127, 0x06ca6351) && IsCubeRoot(131, 0x14292967)
  {
  }

  lemma CubeRows4()
    ensures IsCubeRoot(137, 0x27b70a85) && IsCubeRoot(139, 0x2e1b2138) && IsCubeRoot(149, 0x4d2c6dfc) &&
            IsCubeRoot(151, 0x53380d13) && IsCubeRoot(157, 0x650a7354) && IsCubeRoot(163, 0x766a0abb) &&
            IsCubeRoot(167, 0x81c2c92e) && IsCubeRoot(173, 0x92722c85)
  {
  }

  lemma CubeRows5()
    ensures IsCubeRoot(179, 0xa2bfe8a1) && IsCubeRoot(181, 0xa81a664b) && IsCubeRoot(191, 0xc24b8b70) &&
            IsCubeRoot(193, 0xc76c51a3) && IsCubeRoot(197, 0xd192e819) && IsCubeRoot(199, 0xd6990624) &&
            IsCubeRoot(211, 0xf40e3585) && IsCubeRoot(223, 0x106aa070)
  {
  }

  lemma CubeRows6()
    ensures IsCubeRoot(227, 0x19a4c116) && IsCubeRoot(229, 0x1e376c08) && IsCubeRoot(233, 0x2748774c) &&
            IsCubeRoot(239, 0x34b0bcb5) && IsCubeRoot(241, 0x391c0cb3) && IsCubeRoot(251, 0x4ed8aa4a) &&
            IsCubeRoot(257, 0x5b9cca4f) && IsCubeRoot(263, 0x682e6ff3)
  {
  }

  lemma CubeRows7()
    ensures IsCubeRoot(269, 0x748f82ee) && IsCubeRoot(271, 0x78a5636f) && IsCubeRoot(277, 0x84c87814) &&
            IsCubeRoot(281, 0x8cc70208) && IsCubeRoot(283, 0x90befffa) && IsCubeRoot(293, 0xa4506ceb) &&
            IsCubeRoot(307, 0xbef9a3f7) && IsCubeRoot(311, 0xc67178f2)
  {
  }

  predicate IsIndex(t: nat) {
    t == 0 || t == 1 || t == 2 || t == 3 || t == 4 || t == 5 || t == 6 || t == 7 ||
    t == 8 || t == 9 || t == 10 || t == 11 || t == 12 || t == 13 || t == 14 || t == 15 ||
    t == 16 || t == 17 || t == 18 || t == 19 || t == 20 || t == 21 || t == 22 || t == 23 ||
    t == 24 || t == 25 || t == 26 || t == 27 || t == 28 || t == 29 || t == 30 || t == 31 ||
    t == 32 || t == 33 || t == 34 || t == 35 || t == 36 || t == 37 || t == 38 || t == 39 ||
    t == 40 || t == 41 || t == 42 || t == 43 || t == 44 || t == 45 || t == 46 || t == 47 ||
    t == 48 || t == 49 || t == 50 || t == 51 || t == 52 || t == 53 || t == 54 || t == 55 ||
    t == 56 || t == 57 || t == 58 || t == 59 || t == 60 || t == 61 || t == 62 || t == 63
  }

  /** The constants K are the fractions of the cube roots of the primes. */
  lemma CubeRoots(t: nat)
    requires t < 64
    ensures IsCubeRoot(PRIMES[t], K[t])
  {
    hide IsCubeRoot;
    assert IsIndex(t);
    if t < 8 {
      CubeRows0();
    } else if t < 16 {
      CubeRows1();
    } else if t < 24 {
      CubeRows2();
    } else if t < 32 {
      CubeRows3();
    } else if t < 40 {
      CubeRows4();
    } else if t < 48 {
      CubeRows5();
    } else if t < 56 {
      CubeRows6();
    } else {
      CubeRows7();
    }
  }

  /** The initial hash value is the fractions of the square roots of the first eight primes. */
  lemma SquareRoots()
    ensures IsSquareRoot(PRIMES[0], H0.a) && IsSquareRoot(PRIMES[1], H0.b) &&
            IsSquareRoot(PRIMES[2], H0.c) && IsSquareRoot(PRIMES[3], H0.d) &&
            IsSquareRoot(PRIMES[4], H0.e) && IsSquareRoot(PRIMES[5], H0.f) &&
            IsSquareRoot(PRIMES[6], H0.g) && IsSquareRoot(PRIMES[7], H0.h)
  {
  }

  predicate NoSmallFactor(n: nat) {
    && (n % 2 != 0 || n == 2) && (n % 3 != 0 || n == 3) && (n % 5 != 0 || n == 5) && (n % 7 != 0 || n == 7)
    && (n % 11 != 0 || n == 11) && (n % 13 != 0 || n == 13) && (n % 17 != 0 || n == 17)
  }

  lemma Sieve0(n: nat)
    requires 2 <= n <= 41
    ensures NoSmallFactor(n) <==> (n == 2 || n == 3 || n == 5 || n == 7 || n == 11 || n == 13 || n == 17 ||
                               n == 19 || n == 23 || n == 29 || n == 31 || n == 37 || n == 41)
  {
  }

  lemma Sieve1(n: nat)
    requires 42 <= n <= 81
    ensures NoSmallFactor(n) <==> (n == 43 || n == 47 || n == 53 || n == 59 || n == 61 || n == 67 || n == 71 ||
                               n == 73 || n == 79)
  {
  }

  lemma Sieve2(n: nat)
    requires 82 <= n <= 121
    ensures NoSmallFactor(n) <==> (n == 83 || n == 89 || n == 97 || n == 101 || n == 103 || n == 107 || n == 109 ||
                               n == 113)
  {
  }

  lemma Sieve3(n: nat)
    requires 122 <= n <= 161
    ensures NoSmallFactor(n) <==> (n == 127 || n == 131 || n == 137 || n == 139 || n == 149 || n == 151 || n == 157)
  {
  }

  lemma Sieve4(n: nat)
    requires 162 <= n <= 201
    ensures NoSmallFactor(n) <==> (n == 163 || n == 167 || n == 173 || n == 179 || n == 181 || n == 191 || n == 193 ||
                               n == 197 || n == 199)
  {
  }

  lemma Sieve5(n: nat)
    requires 202 <= n <= 241
    ensures NoSmallFactor(n) <==> (n == 211 || n == 223 || n == 227 || n == 229 || n == 233 || n == 239 || n == 241)
  {
  }

  lemma Sieve6(n: nat)
    requires 242 <= n <= 281
    ensures NoSmallFactor(n) <==> (n == 251 || n == 257 || n == 263 || n == 269 || n == 271 || n == 277 || n == 281)
  {
  }

  lemma Sieve7(n: nat)
    requires 282 <= n <= 311
    ensures NoSmallFactor(n) <==> (n == 283 || n == 293 || n == 307 || n == 311)
  {
  }

  lemma Inherits(n: nat, d: nat, e: nat, p: nat)
    requires p > 0 && n == d * e && d % p == 0
    ensures n % p == 0
  {
    var q := d / p;
    assert d == p * q;
    assert d * e == p * (q * e);
    ProductIsMultiple(p, q * e);
  }

  lemma SmallFactor(n: nat, d: nat, e: nat)
    requires n == d * e && 2 <= d < 18 && d < n
    ensures !NoSmallFactor(n)
  {
    var p := if d % 2 == 0 then 2 else if d % 3 == 0 then 3 else d;
    Inherits(n, d, e, p);
  }

  // One of the two factors of a number below 18 * 18 is below 18.
  lemma HasSmallFactor(n: nat, d: nat, e: nat)
    requires n < 324 && n == d * e && 2 <= d < n
    ensures !NoSmallFactor(n)
  {
    assert 2 <= e < n by {
      if e >= n {
        ProductAtLeast2(e, d);
      }
    }
    if d < 18 {
      SmallFactor(n, d, e);
    } else {
      assert e < 18 by {
        if e >= 18 {
          ProductAtLeast18(d, e);
        }
      }
      SmallFactor(n, e, d);
    }
  }

  lemma ProductAtLeast2(e: nat, d: nat)
    requires d >= 2 && e >= 1
    ensures d * e > e
  {
  }

  lemma ProductAtLeast18(d: nat, e: nat)
    requires d >= 18 && e >= 18
    ensures d * e >= 324
  {
  }

  lemma TrialDivision(n: nat)
    requires 2 <= n < 324
    ensures IsPrime(n) <==> NoSmallFactor(n)
  {
    if NoSmallFactor(n) {
      forall d: nat | 2 <= d < n
        ensures n % d != 0
      {
        if n % d == 0 {
          HasSmallFactor(n, d, n / d);
        }
      }
    } else {
      var p := if n % 2 == 0 then 2 else if n % 3 == 0 then 3 else if n % 5 == 0 then 5 else if n % 7 == 0 then 7
               else if n % 11 == 0 then 11 else if n % 13 == 0 then 13 else 17;
      assert n % p == 0 && p < n;
    }
  }

  lemma TooSmall(n: nat)
    requires n < 2
    ensures !IsPrime(n) && n !in PRIMES
  {
    hide IsPrime;
    NoPrime(n);
  }

  lemma NoPrime(n: nat)
    requires n < 2
    ensures !IsPrime(n)
  {
  }

  lemma PrimesAscend(t: nat)
    requires t < 63
    ensures PRIMES[t] < PRIMES[t + 1]
  {
    assert IsIndex(t);
  }

  lemma ListedTo121(n: nat)
    requires 2 <= n <= 121
    ensures NoSmallFactor(n) <==> n in PRIMES
  {
    hide NoSmallFactor;
    if n <= 41 {
      Sieve0(n);
    } else if n <= 81 {
      Sieve1(n);
    } else {
      Sieve2(n);
    }
  }

  lemma ListedTo201(n: nat)
    requires 121 < n <= 201
    ensures NoSmallFactor(n) <==> n in PRIMES
  {
    hide NoSmallFactor;
    if n <= 161 {
      Sieve3(n);
    } else {
      Sieve4(n);
    }
  }

  lemma ListedTo311(n: nat)
    requires 201 < n <= 311
    ensures NoSmallFactor(n) <==> n in PRIMES
  {
    hide NoSmallFactor;
    if n <= 241 {
      Sieve5(n);
    } else if n <= 281 {
      Sieve6(n);
    } else {
      Sieve7(n);
    }
  }

  /** The list holds the primes up to 311, and no other number. */
  lemma FirstPrimes(n: nat)
    requires n <= 311
    ensures IsPrime(n) <==> n in PRIMES
  {
    hide NoSmallFactor, IsPrime, PRIMES;
    if n < 2 {
      TooSmall(n);
    } else {
      TrialDivision(n);
      if n <= 121 {
        ListedTo121(n);
      } else if n <= 201 {
        ListedTo201(n);
      } else {
        ListedTo311(n);
      }
    }
  }
}
