/** Where the constants of SHA-256 come from. */
module HashConstants {
  import opened Sha256
  import Division

  /* ---------- the first 64 primes ---------- */

  function Prime(t: nat): nat
    requires t < 64
  {
    match t
    case 0 => 2 case 1 => 3 case 2 => 5 case 3 => 7 case 4 => 11 case 5 => 13 case 6 => 17 case 7 => 19
    case 8 => 23 case 9 => 29 case 10 => 31 case 11 => 37 case 12 => 41 case 13 => 43 case 14 => 47
    case 15 => 53 case 16 => 59 case 17 => 61 case 18 => 67 case 19 => 71 case 20 => 73 case 21 => 79
    case 22 => 83 case 23 => 89 case 24 => 97 case 25 => 101 case 26 => 103 case 27 => 107 case 28 => 109
    case 29 => 113 case 30 => 127 case 31 => 131 case 32 => 137 case 33 => 139 case 34 => 149 case 35 => 151
    case 36 => 157 case 37 => 163 case 38 => 167 case 39 => 173 case 40 => 179 case 41 => 181 case 42 => 191
    case 43 => 193 case 44 => 197 case 45 => 199 case 46 => 211 case 47 => 223 case 48 => 227 case 49 => 229
    case 50 => 233 case 51 => 239 case 52 => 241 case 53 => 251 case 54 => 257 case 55 => 263 case 56 => 269
    case 57 => 271 case 58 => 277 case 59 => 281 case 60 => 283 case 61 => 293 case 62 => 307 case _ => 311
  }

  ghost predicate IsPrime(n: nat) {
    n >= 2 && forall d :: 2 <= d < n ==> n % d != 0
  }

  // No proper divisor up to 17.
  predicate Sieved(n: nat) {
    && n >= 2 && (n % 2 != 0 || n == 2) && (n % 3 != 0 || n == 3) && (n % 5 != 0 || n == 5) && (n % 7 != 0 || n == 7)
    && (n % 11 != 0 || n == 11) && (n % 13 != 0 || n == 13) && (n % 17 != 0 || n == 17)
  }

  // The sieve is enough for numbers below 19 * 19.
  lemma SievedExactly(n: nat)
    requires n < 361
    ensures Sieved(n) <==> IsPrime(n)
  {
    if Sieved(n) {
      forall d | 2 <= d < n
        ensures n % d != 0
      {
        if n % d == 0 {
          var e := n / d;
          Cofactor(n, d);
          SmallDivisor(n, if d < 19 then d else e);
          assert false;
        }
      }
    }
  }

  // A divisor comes with another one, and one of the two is small.
  lemma Cofactor(n: nat, d: nat)
    requires 2 <= d < n < 361 && n % d == 0
    ensures 2 <= n / d < n && n % (n / d) == 0 && (d < 19 || n / d < 19)
  {
    CofactorOf(n, d, n / d);
  }

  lemma CofactorOf(n: nat, d: nat, e: nat)
    requires 2 <= d < n < 361 && n == d * e
    ensures 2 <= e < n && n % e == 0 && (d < 19 || e < 19)
  {
    Division.SmallerFactor(d, 1, e);
    Division.Divided(n, e, d, 0);
    Division.Larger(e, 2, d);
    if d >= 19 && e >= 19 {
      BothLarge(d, e);
    }
  }

  lemma BothLarge(d: nat, e: nat)
    requires d >= 19 && e >= 19
    ensures d * e >= 361
  {
    assert d * e >= 19 * e;
  }

  lemma SmallDivisor(n: nat, d: nat)
    requires 2 <= d < 19 && d < n && n % d == 0
    ensures !Sieved(n)
  {
    if d % 2 == 0 {
      Through(n, d, 2);
    } else if d % 3 == 0 {
      Through(n, d, 3);
    } else {
      assert d == 5 || d == 7 || d == 11 || d == 13 || d == 17;
    }
  }

  // Dividing is transitive.
  lemma Through(n: nat, d: nat, q: nat)
    requires d > 0 && q > 0 && n % d == 0 && d % q == 0
    ensures n % q == 0
  {
    var e, f := n / d, d / q;
    assert n == d * e == q * f * e == q * (f * e);
    Division.Divided(n, q, f * e, 0);
  }

  // Nothing from a up to b passes the sieve.
  predicate Skips(a: nat, b: nat)
    decreases b - a
  {
    a >= b || (!Sieved(a) && Skips(a + 1, b))
  }

  lemma {:induction false} SkipsMeans(a: nat, b: nat)
    requires Skips(a, b)
    ensures forall n :: a <= n < b ==> !Sieved(n)
    decreases b - a
  {
    if a < b {
      SkipsMeans(a + 1, b);
    }
  }

  // Entry t is the next number after the entry before it that passes the sieve.
  predicate NextSieved(t: nat)
    requires 0 < t < 64
  {
    Prime(t - 1) < Prime(t) < 361 && Sieved(Prime(t)) && Skips(Prime(t - 1) + 1, Prime(t))
  }

  lemma Gaps1()
    ensures Skips(3, 3) && Sieved(3) && Skips(4, 5) && Sieved(5) && Skips(6, 7) && Sieved(7)
    ensures Skips(8, 11) && Sieved(11) && Skips(12, 13) && Sieved(13) && Skips(14, 17) && Sieved(17)
    ensures Skips(18, 19) && Sieved(19) && Skips(20, 23) && Sieved(23) && Skips(24, 29) && Sieved(29)
    ensures Skips(30, 31) && Sieved(31) && Skips(32, 37) && Sieved(37) && Skips(38, 41) && Sieved(41)
    ensures Skips(42, 43) && Sieved(43) && Skips(44, 47) && Sieved(47) && Skips(48, 53) && Sieved(53)
  {
  }

  lemma Gaps2()
    ensures Skips(54, 59) && Sieved(59) && Skips(60, 61) && Sieved(61) && Skips(62, 67) && Sieved(67)
    ensures Skips(68, 71) && Sieved(71) && Skips(72, 73) && Sieved(73) && Skips(74, 79) && Sieved(79)
    ensures Skips(80, 83) && Sieved(83) && Skips(84, 89) && Sieved(89) && Skips(90, 97) && Sieved(97)
    ensures Skips(98, 101) && Sieved(101) && Skips(102, 103) && Sieved(103) && Skips(104, 107) && Sieved(107)
    ensures Skips(108, 109) && Sieved(109) && Skips(110, 113) && Sieved(113) && Skips(114, 127) && Sieved(127)
    ensures Skips(128, 131) && Sieved(131)
  {
  }

  lemma Gaps3()
    ensures Skips(132, 137) && Sieved(137) && Skips(138, 139) && Sieved(139) && Skips(140, 149) && Sieved(149)
    ensures Skips(150, 151) && Sieved(151) && Skips(152, 157) && Sieved(157) && Skips(158, 163) && Sieved(163)
    ensures Skips(164, 167) && Sieved(167) && Skips(168, 173) && Sieved(173) && Skips(174, 179) && Sieved(179)
    ensures Skips(180, 181) && Sieved(181) && Skips(182, 191) && Sieved(191) && Skips(192, 193) && Sieved(193)
    ensures Skips(194, 197) && Sieved(197) && Skips(198, 199) && Sieved(199) && Skips(200, 211) && Sieved(211)
    ensures Skips(212, 223) && Sieved(223)
  {
  }

  lemma Gaps4()
    ensures Skips(224, 227) && Sieved(227) && Skips(228, 229) && Sieved(229) && Skips(230, 233) && Sieved(233)
    ensures Skips(234, 239) && Sieved(239) && Skips(240, 241) && Sieved(241) && Skips(242, 251) && Sieved(251)
    ensures Skips(252, 257) && Sieved(257) && Skips(258, 263) && Sieved(263) && Skips(264, 269) && Sieved(269)
    ensures Skips(270, 271) && Sieved(271) && Skips(272, 277) && Sieved(277) && Skips(278, 281) && Sieved(281)
    ensures Skips(282, 283) && Sieved(283) && Skips(284, 293) && Sieved(293) && Skips(294, 307) && Sieved(307)
    ensures Skips(308, 311) && Sieved(311)
  {
  }

  lemma NextSieved1(t: nat)
    requires 1 <= t < 16
    ensures NextSieved(t)
  {
    Gaps1();
  }

  lemma NextSieved2(t: nat)
    requires 16 <= t < 32
    ensures NextSieved(t)
  {
    Gaps2();
  }

  lemma NextSieved3(t: nat)
    requires 32 <= t < 48
    ensures NextSieved(t)
  {
    Gaps3();
  }

  lemma NextSieved4(t: nat)
    requires 48 <= t < 64
    ensures NextSieved(t)
  {
    Gaps4();
  }

  lemma TableIsSieved(t: nat)
    requires 0 < t < 64
    ensures NextSieved(t)
  {
    if t < 16 {
      NextSieved1(t);
    } else if t < 32 {
      NextSieved2(t);
    } else if t < 48 {
      NextSieved3(t);
    } else {
      NextSieved4(t);
    }
  }

  // n is one of the first t entries.
  ghost predicate Earlier(t: nat, n: nat)
    requires t <= 64
  {
    exists s: nat :: s < t && Prime(s) == n
  }

  /** The table holds the first 64 primes: each entry is a prime, and the smaller
      primes are exactly the entries before it. */
  lemma {:induction false} FirstPrimes(t: nat)
    requires t < 64
    ensures IsPrime(Prime(t)) && forall n: nat :: IsPrime(n) && n < Prime(t) <==> Earlier(t, n)
  {
    if t == 0 {
      assert Prime(0) == 2;
    } else {
      TableIsSieved(t);
      SievedExactly(Prime(t));
      FirstPrimes(t - 1);
      forall n: nat
        ensures IsPrime(n) && n < Prime(t) <==> Earlier(t, n)
      {
        assert IsPrime(n) && n < Prime(t - 1) <==> Earlier(t - 1, n);
        OneMoreEntry(t, n);
        NextPrime(Prime(t - 1), Prime(t), n);
      }
    }
  }

  lemma OneMoreEntry(t: nat, n: nat)
    requires 0 < t < 64
    ensures Earlier(t, n) <==> n == Prime(t - 1) || Earlier(t - 1, n)
  {
  }

  lemma NextPrime(p: nat, q: nat, n: nat)
    requires IsPrime(p) && p < q < 361 && Skips(p + 1, q)
    ensures IsPrime(n) && n < q <==> n == p || (IsPrime(n) && n < p)
  {
    SkipsMeans(p + 1, q);
    if p < n < q {
      SievedExactly(n);
    }
  }

  /* ---------- roots of primes ---------- */

  // k holds the first 32 bits of the fractional part of the cube root of p.
  ghost predicate CubeRootFraction(p: nat, k: nat) {
    exists m: nat :: CubeRootAt(p, m, k)
  }

  predicate CubeRootAt(p: nat, m: nat, k: nat) {
    var r := m * 0x1_0000_0000 + k;
    k < 0x1_0000_0000 && r * r * r <= p * 0x1_0000_0000_0000_0000_0000_0000 < (r + 1) * (r + 1) * (r + 1)
  }

  // The same for square roots.
  ghost predicate SquareRootFraction(p: nat, k: nat) {
    exists m: nat :: SquareRootAt(p, m, k)
  }

  predicate SquareRootAt(p: nat, m: nat, k: nat) {
    var r := m * 0x1_0000_0000 + k;
    k < 0x1_0000_0000 && r * r <= p * 0x1_0000_0000_0000_0000 < (r + 1) * (r + 1)
  }

  function CubeFloor(p: nat): nat {
    if p < 8 then 1 else if p < 27 then 2 else if p < 64 then 3 else if p < 125 then 4 else if p < 216 then 5 else 6
  }

  lemma CubeRoots1(t: nat)
    requires 0 <= t < 16
    ensures CubeRootAt(Prime(t), CubeFloor(Prime(t)), Constant(t) as nat)
  {
  }

  lemma CubeRoots2(t: nat)
    requires 16 <= t < 32
    ensures CubeRootAt(Prime(t), CubeFloor(Prime(t)), Constant(t) as nat)
  {
  }

  lemma CubeRoots3(t: nat)
    requires 32 <= t < 48
    ensures CubeRootAt(Prime(t), CubeFloor(Prime(t)), Constant(t) as nat)
  {
  }

  lemma CubeRoots4(t: nat)
    requires 48 <= t < 56
    ensures CubeRootAt(Prime(t), CubeFloor(Prime(t)), Constant(t) as nat)
  {
  }

  lemma CubeRoots5(t: nat)
    requires 56 <= t < 64
    ensures CubeRootAt(Prime(t), CubeFloor(Prime(t)), Constant(t) as nat)
  {
  }

  /** Round constant t holds the first 32 bits of the fractional part of the cube
      root of the t-th prime (section 4.2.2 of FIPS 180-4). */
  lemma ConstantsAreCubeRoots(t: nat)
    requires t < 64
    ensures CubeRootFraction(Prime(t), Constant(t) as nat)
  {
    if t < 16 {
      CubeRoots1(t);
    } else if t < 32 {
      CubeRoots2(t);
    } else if t < 48 {
      CubeRoots3(t);
    } else if t < 56 {
      CubeRoots4(t);
    } else {
      CubeRoots5(t);
    }
  }

  /** The initial state holds those of the square roots of the first eight primes
      (section 5.3.3 of FIPS 180-4). */
  lemma InitialStateIsSquareRoots()
    ensures SquareRootFraction(Prime(0), INITIAL.a as nat) && SquareRootFraction(Prime(1), INITIAL.b as nat)
    ensures SquareRootFraction(Prime(2), INITIAL.c as nat) && SquareRootFraction(Prime(3), INITIAL.d as nat)
    ensures SquareRootFraction(Prime(4), INITIAL.e as nat) && SquareRootFraction(Prime(5), INITIAL.f as nat)
    ensures SquareRootFraction(Prime(6), INITIAL.g as nat) && SquareRootFraction(Prime(7), INITIAL.h as nat)
  {
    assert SquareRootAt(Prime(0), 1, INITIAL.a as nat) && SquareRootAt(Prime(1), 1, INITIAL.b as nat);
    assert SquareRootAt(Prime(2), 2, INITIAL.c as nat) && SquareRootAt(Prime(3), 2, INITIAL.d as nat);
    assert SquareRootAt(Prime(4), 3, INITIAL.e as nat) && SquareRootAt(Prime(5), 3, INITIAL.f as nat);
    assert SquareRootAt(Prime(6), 4, INITIAL.g as nat) && SquareRootAt(Prime(7), 4, INITIAL.h as nat);
  }
}
