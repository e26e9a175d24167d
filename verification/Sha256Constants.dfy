/** Where the constants of src/strict_privacy.c's SHA-256 come from (section 4.2.2 and section 5.3.3 of
    FIPS 180-4): the first 32 bits of the fractions of roots of the first primes. */
module Sha256Constants {
  import opened Sha256

  // ----- The first 64 primes -----

  function PrimeRow(i: nat): (row: seq<nat>)
    requires i < 8
    ensures |row| == 8
  {
    match i
    case 0 => [2, 3, 5, 7, 11, 13, 17, 19]
    case 1 => [23, 29, 31, 37, 41, 43, 47, 53]
    case 2 => [59, 61, 67, 71, 73, 79, 83, 89]
    case 3 => [97, 101, 103, 107, 109, 113, 127, 131]
    case 4 => [137, 139, 149, 151, 157, 163, 167, 173]
    case 5 => [179, 181, 191, 193, 197, 199, 211, 223]
    case 6 => [227, 229, 233, 239, 241, 251, 257, 263]
    case 7 => [269, 271, 277, 281, 283, 293, 307, 311]
  }

  function Prime(t: nat): nat
    requires t < 64
  {
    PrimeRow(t / 8)[t % 8]
  }

  /** Not the product of two factors that are both larger than one. */
  ghost predicate IsPrime(n: nat) { n >= 2 && forall a: nat, b: nat :: a >= 2 && b >= 2 ==> a * b != n }

  /** n is a multiple of one of the primes up to 17, and not that prime. */
  predicate HasSmallFactor(n: nat) {
    || (n % 2 == 0 && n > 2) || (n % 3 == 0 && n > 3) || (n % 5 == 0 && n > 5) || (n % 7 == 0 && n > 7)
    || (n % 11 == 0 && n > 11) || (n % 13 == 0 && n > 13) || (n % 17 == 0 && n > 17)
  }

  lemma FactorMeansComposite(n: nat)
    requires HasSmallFactor(n)
    ensures !IsPrime(n)
  {
    var p := if n % 2 == 0 && n > 2 then 2 else if n % 3 == 0 && n > 3 then 3 else if n % 5 == 0 && n > 5 then 5
             else if n % 7 == 0 && n > 7 then 7 else if n % 11 == 0 && n > 11 then 11
             else if n % 13 == 0 && n > 13 then 13 else 17;
    assert p * (n / p) == n && n / p >= 2;
  }

  lemma Multiples(k: nat)
    ensures (2 * k) % 2 == 0 && (3 * k) % 3 == 0 && (5 * k) % 5 == 0 && (7 * k) % 7 == 0
    ensures (11 * k) % 11 == 0 && (13 * k) % 13 == 0 && (17 * k) % 17 == 0
  {
  }

  /** A small factor has a small prime factor. */
  lemma SmallFactor(n: nat, a: nat, b: nat)
    requires 2 <= a < 18 && b >= 2 && n == a * b
    ensures HasSmallFactor(n)
  {
    match a
    case 2 => Multiples(b);
    case 3 => Multiples(b);
    case 4 => Multiples(2 * b);
    case 5 => Multiples(b);
    case 6 => Multiples(3 * b);
    case 7 => Multiples(b);
    case 8 => Multiples(4 * b);
    case 9 => Multiples(3 * b);
    case 10 => Multiples(5 * b);
    case 11 => Multiples(b);
    case 12 => Multiples(6 * b);
    case 13 => Multiples(b);
    case 14 => Multiples(7 * b);
    case 15 => Multiples(5 * b);
    case 16 => Multiples(8 * b);
    case 17 => Multiples(b);
  }

  /** Below 18 times 18 one of two factors is small. */
  lemma NoFactorMeansPrime(n: nat)
    requires 2 <= n < 324 && !HasSmallFactor(n)
    ensures IsPrime(n)
  {
    forall a: nat, b: nat | a >= 2 && b >= 2 ensures a * b != n {
      if a * b == n {
        if a < 18 {
          SmallFactor(n, a, b);
        } else {
          OneIsSmall(a, b);
          SmallFactor(n, b, a);
        }
      }
    }
  }

  lemma OneIsSmall(a: nat, b: nat)
    requires a >= 18 && a * b < 324
    ensures b < 18
  {
    if b >= 18 { Larger(a, b); }
  }

  lemma Larger(a: nat, b: nat)
    requires a >= 18 && b >= 18
    ensures a * b >= 324
  {
    assert a * b == 18 * b + (a - 18) * b;
  }

  /** All from a up to b have a small factor. */
  predicate NoneBetween(a: nat, b: nat)
    decreases b - a
  {
    a >= b || (HasSmallFactor(a) && NoneBetween(a + 1, b))
  }

  lemma {:induction false} BetweenIsComposite(a: nat, b: nat, n: nat)
    requires NoneBetween(a, b) && a <= n < b
    ensures HasSmallFactor(n)
    decreases b - a
  {
    if n > a { BetweenIsComposite(a + 1, b, n); }
  }

  /** p is prime, q is larger, and no prime is between. */
  predicate Follows(p: nat, q: nat) { 2 <= p < 324 && !HasSmallFactor(p) && p < q && NoneBetween(p + 1, q) }

  lemma Gaps0()
    ensures Follows(2, 3) && Follows(3, 5)
    ensures Follows(5, 7) && Follows(7, 11)
    ensures Follows(11, 13) && Follows(13, 17)
    ensures Follows(17, 19) && Follows(19, 23)
  {
  }

  lemma Row0(t: nat)
    requires 0 <= t < 8
    ensures Follows(Prime(t), Prime(t + 1))
  {
    hide Follows;
    Gaps0();
    match t
    case 0 => assert Prime(0) == 2 && Prime(1) == 3;
    case 1 => assert Prime(1) == 3 && Prime(2) == 5;
    case 2 => assert Prime(2) == 5 && Prime(3) == 7;
    case 3 => assert Prime(3) == 7 && Prime(4) == 11;
    case 4 => assert Prime(4) == 11 && Prime(5) == 13;
    case 5 => assert Prime(5) == 13 && Prime(6) == 17;
    case 6 => assert Prime(6) == 17 && Prime(7) == 19;
    case 7 => assert Prime(7) == 19 && Prime(8) == 23;
  }

  lemma Gaps1()
    ensures Follows(23, 29) && Follows(29, 31)
    ensures Follows(31, 37) && Follows(37, 41)
    ensures Follows(41, 43) && Follows(43, 47)
    ensures Follows(47, 53) && Follows(53, 59)
  {
  }

  lemma Row1(t: nat)
    requires 8 <= t < 16
    ensures Follows(Prime(t), Prime(t + 1))
  {
    hide Follows;
    Gaps1();
    match t
    case 8 => assert Prime(8) == 23 && Prime(9) == 29;
    case 9 => assert Prime(9) == 29 && Prime(10) == 31;
    case 10 => assert Prime(10) == 31 && Prime(11) == 37;
    case 11 => assert Prime(11) == 37 && Prime(12) == 41;
    case 12 => assert Prime(12) == 41 && Prime(13) == 43;
    case 13 => assert Prime(13) == 43 && Prime(14) == 47;
    case 14 => assert Prime(14) == 47 && Prime(15) == 53;
    case 15 => assert Prime(15) == 53 && Prime(16) == 59;
  }

  lemma Gaps2()
    ensures Follows(59, 61) && Follows(61, 67)
    ensures Follows(67, 71) && Follows(71, 73)
    ensures Follows(73, 79) && Follows(79, 83)
    ensures Follows(83, 89) && Follows(89, 97)
  {
  }

  lemma Row2(t: nat)
    requires 16 <= t < 24
    ensures Follows(Prime(t), Prime(t + 1))
  {
    hide Follows;
    Gaps2();
    match t
    case 16 => assert Prime(16) == 59 && Prime(17) == 61;
    case 17 => assert Prime(17) == 61 && Prime(18) == 67;
    case 18 => assert Prime(18) == 67 && Prime(19) == 71;
    case 19 => assert Prime(19) == 71 && Prime(20) == 73;
    case 20 => assert Prime(20) == 73 && Prime(21) == 79;
    case 21 => assert Prime(21) == 79 && Prime(22) == 83;
    case 22 => assert Prime(22) == 83 && Prime(23) == 89;
    case 23 => assert Prime(23) == 89 && Prime(24) == 97;
  }

  lemma Gaps3()
    ensures Follows(97, 101) && Follows(101, 103)
    ensures Follows(103, 107) && Follows(107, 109)
    ensures Follows(109, 113) && Follows(113, 127)
    ensures Follows(127, 131) && Follows(131, 137)
  {
  }

  lemma Row3(t: nat)
    requires 24 <= t < 32
    ensures Follows(Prime(t), Prime(t + 1))
  {
    hide Follows;
    Gaps3();
    match t
    case 24 => assert Prime(24) == 97 && Prime(25) == 101;
    case 25 => assert Prime(25) == 101 && Prime(26) == 103;
    case 26 => assert Prime(26) == 103 && Prime(27) == 107;
    case 27 => assert Prime(27) == 107 && Prime(28) == 109;
    case 28 => assert Prime(28) == 109 && Prime(29) == 113;
    case 29 => assert Prime(29) == 113 && Prime(30) == 127;
    case 30 => assert Prime(30) == 127 && Prime(31) == 131;
    case 31 => assert Prime(31) == 131 && Prime(32) == 137;
  }

  lemma Gaps4()
    ensures Follows(137, 139) && Follows(139, 149)
    ensures Follows(149, 151) && Follows(151, 157)
    ensures Follows(157, 163) && Follows(163, 167)
    ensures Follows(167, 173) && Follows(173, 179)
  {
  }

  lemma Row4(t: nat)
    requires 32 <= t < 40
    ensures Follows(Prime(t), Prime(t + 1))
  {
    hide Follows;
    Gaps4();
    match t
    case 32 => assert Prime(32) == 137 && Prime(33) == 139;
    case 33 => assert Prime(33) == 139 && Prime(34) == 149;
    case 34 => assert Prime(34) == 149 && Prime(35) == 151;
    case 35 => assert Prime(35) == 151 && Prime(36) == 157;
    case 36 => assert Prime(36) == 157 && Prime(37) == 163;
    case 37 => assert Prime(37) == 163 && Prime(38) == 167;
    case 38 => assert Prime(38) == 167 && Prime(39) == 173;
    case 39 => assert Prime(39) == 173 && Prime(40) == 179;
  }

  lemma Gaps5()
    ensures Follows(179, 181) && Follows(181, 191)
    ensures Follows(191, 193) && Follows(193, 197)
    ensures Follows(197, 199) && Follows(199, 211)
    ensures Follows(211, 223) && Follows(223, 227)
  {
  }

  lemma Row5(t: nat)
    requires 40 <= t < 48
    ensures Follows(Prime(t), Prime(t + 1))
  {
    hide Follows;
    Gaps5();
    match t
    case 40 => assert Prime(40) == 179 && Prime(41) == 181;
    case 41 => assert Prime(41) == 181 && Prime(42) == 191;
    case 42 => assert Prime(42) == 191 && Prime(43) == 193;
    case 43 => assert Prime(43) == 193 && Prime(44) == 197;
    case 44 => assert Prime(44) == 197 && Prime(45) == 199;
    case 45 => assert Prime(45) == 199 && Prime(46) == 211;
    case 46 => assert Prime(46) == 211 && Prime(47) == 223;
    case 47 => assert Prime(47) == 223 && Prime(48) == 227;
  }

  lemma Gaps6()
    ensures Follows(227, 229) && Follows(229, 233)
    ensures Follows(233, 239) && Follows(239, 241)
    ensures Follows(241, 251) && Follows(251, 257)
    ensures Follows(257, 263) && Follows(263, 269)
  {
  }

  lemma Row6(t: nat)
    requires 48 <= t < 56
    ensures Follows(Prime(t), Prime(t + 1))
  {
    hide Follows;
    Gaps6();
    match t
    case 48 => assert Prime(48) == 227 && Prime(49) == 229;
    case 49 => assert Prime(49) == 229 && Prime(50) == 233;
    case 50 => assert Prime(50) == 233 && Prime(51) == 239;
    case 51 => assert Prime(51) == 239 && Prime(52) == 241;
    case 52 => assert Prime(52) == 241 && Prime(53) == 251;
    case 53 => assert Prime(53) == 251 && Prime(54) == 257;
    case 54 => assert Prime(54) == 257 && Prime(55) == 263;
    case 55 => assert Prime(55) == 263 && Prime(56) == 269;
  }

  lemma Gaps7()
    ensures Follows(269, 271) && Follows(271, 277)
    ensures Follows(277, 281) && Follows(281, 283)
    ensures Follows(283, 293) && Follows(293, 307)
    ensures Follows(307, 311) && Follows(311, 313)
  {
  }

  lemma Row7(t: nat)
    requires 56 <= t < 64
    ensures Follows(Prime(t), if t == 63 then 313 else Prime(t + 1))
  {
    hide Follows;
    Gaps7();
    match t
    case 56 => assert Prime(56) == 269 && Prime(57) == 271;
    case 57 => assert Prime(57) == 271 && Prime(58) == 277;
    case 58 => assert Prime(58) == 277 && Prime(59) == 281;
    case 59 => assert Prime(59) == 281 && Prime(60) == 283;
    case 60 => assert Prime(60) == 283 && Prime(61) == 293;
    case 61 => assert Prime(61) == 293 && Prime(62) == 307;
    case 62 => assert Prime(62) == 307 && Prime(63) == 311;
    case 63 => assert Prime(63) == 311;
  }

  lemma AllFollow(t: nat)
    requires t < 64
    ensures Follows(Prime(t), if t == 63 then 313 else Prime(t + 1))
  {
    hide Follows, Prime;
    if t < 8 { Row0(t); } else if t < 16 { Row1(t); } else if t < 24 { Row2(t); } else if t < 32 { Row3(t); }
    else if t < 40 { Row4(t); } else if t < 48 { Row5(t); } else if t < 56 { Row6(t); } else { Row7(t); }
  }

  /** They are the primes, in order, none left out. */
  lemma PrimesInOrder(t: nat)
    requires t < 64
    ensures IsPrime(Prime(t)) && (t == 0 ==> Prime(t) == 2)
    ensures t < 63 ==> Prime(t) < Prime(t + 1) && forall n: nat :: Prime(t) < n < Prime(t + 1) ==> !IsPrime(n)
  {
    assert Prime(0) == 2;
    hide Prime, IsPrime, HasSmallFactor, NoneBetween;
    AllFollow(t);
    NoFactorMeansPrime(Prime(t));
    if t < 63 {
      forall n: nat | Prime(t) < n < Prime(t + 1) ensures !IsPrime(n) {
        BetweenIsComposite(Prime(t) + 1, Prime(t + 1), n);
        FactorMeansComposite(n);
      }
    }
  }

  // ----- The roots -----

  const TWO_32: nat := 0x1_0000_0000

  /** x is the cube root of p, times 2^32, without its fraction. */
  predicate IsCubeRoot(x: nat, p: nat) {
    x * x * x <= p * 0x1_0000_0000_0000_0000_0000_0000 < (x + 1) * (x + 1) * (x + 1)
  }

  predicate IsSquareRoot(x: nat, p: nat) { x * x <= p * 0x1_0000_0000_0000_0000 < (x + 1) * (x + 1) }

  /** The whole part of the cube root of the primes used. */
  function Whole(t: nat): nat {
    if t < 4 then 1 else if t < 9 then 2 else if t < 18 then 3 else if t < 30 then 4 else if t < 47 then 5 else 6
  }

  ghost predicate FromCubeRoot(t: nat)
    requires t < 64
  {
    IsCubeRoot(TWO_32 * Whole(t) + RoundConstant(t) as int, Prime(t))
  }

  lemma Cube0()
    ensures FromCubeRoot(0) && FromCubeRoot(1) && FromCubeRoot(2) && FromCubeRoot(3)
  {
  }

  lemma Cube4()
    ensures FromCubeRoot(4) && FromCubeRoot(5) && FromCubeRoot(6) && FromCubeRoot(7)
  {
  }

  lemma Cube8()
    ensures FromCubeRoot(8) && FromCubeRoot(9) && FromCubeRoot(10) && FromCubeRoot(11)
  {
  }

  lemma Cube12()
    ensures FromCubeRoot(12) && FromCubeRoot(13) && FromCubeRoot(14) && FromCubeRoot(15)
  {
  }

  lemma Cube16()
    ensures FromCubeRoot(16) && FromCubeRoot(17) && FromCubeRoot(18) && FromCubeRoot(19)
  {
  }

  lemma Cube20()
    ensures FromCubeRoot(20) && FromCubeRoot(21) && FromCubeRoot(22) && FromCubeRoot(23)
  {
  }

  lemma Cube24()
    ensures FromCubeRoot(24) && FromCubeRoot(25) && FromCubeRoot(26) && FromCubeRoot(27)
  {
  }

  lemma Cube28()
    ensures FromCubeRoot(28) && FromCubeRoot(29) && FromCubeRoot(30) && FromCubeRoot(31)
  {
  }

  lemma Cube32()
    ensures FromCubeRoot(32) && FromCubeRoot(33) && FromCubeRoot(34) && FromCubeRoot(35)
  {
  }

  lemma Cube36()
    ensures FromCubeRoot(36) && FromCubeRoot(37) && FromCubeRoot(38) && FromCubeRoot(39)
  {
  }

  lemma Cube40()
    ensures FromCubeRoot(40) && FromCubeRoot(41) && FromCubeRoot(42) && FromCubeRoot(43)
  {
  }

  lemma Cube44()
    ensures FromCubeRoot(44) && FromCubeRoot(45) && FromCubeRoot(46) && FromCubeRoot(47)
  {
  }

  lemma Cube48()
    ensures FromCubeRoot(48) && FromCubeRoot(49) && FromCubeRoot(50) && FromCubeRoot(51)
  {
  }

  lemma Cube52()
    ensures FromCubeRoot(52) && FromCubeRoot(53) && FromCubeRoot(54) && FromCubeRoot(55)
  {
  }

  lemma Cube56()
    ensures FromCubeRoot(56) && FromCubeRoot(57) && FromCubeRoot(58) && FromCubeRoot(59)
  {
  }

  lemma Cube60()
    ensures FromCubeRoot(60) && FromCubeRoot(61) && FromCubeRoot(62) && FromCubeRoot(63)
  {
  }

  /** Each round constant is the first 32 bits of the fraction of the cube root of its prime. */
  lemma RoundConstantsAreCubeRoots(t: nat)
    requires t < 64
    ensures FromCubeRoot(t)
  {
    hide FromCubeRoot;
    if t < 4 { Cube0(); }
    else if t < 8 { Cube4(); }
    else if t < 12 { Cube8(); }
    else if t < 16 { Cube12(); }
    else if t < 20 { Cube16(); }
    else if t < 24 { Cube20(); }
    else if t < 28 { Cube24(); }
    else if t < 32 { Cube28(); }
    else if t < 36 { Cube32(); }
    else if t < 40 { Cube36(); }
    else if t < 44 { Cube40(); }
    else if t < 48 { Cube44(); }
    else if t < 52 { Cube48(); }
    else if t < 56 { Cube52(); }
    else if t < 60 { Cube56(); }
    else if t < 64 { Cube60(); }
  }

  /** And each word of the initial value that of the square root of one of the first eight. */
  lemma InitialValueIsSquareRoots(i: nat)
    requires i < 8
    ensures |H0| == 8
    ensures exists c: nat :: IsSquareRoot(TWO_32 * c + H0[i] as int, Prime(i))
  {
    match i
    case 0 => assert H0[0] == 0x6a09e667 && IsSquareRoot(TWO_32 * 1 + H0[0] as int, Prime(0));
    case 1 => assert H0[1] == 0xbb67ae85 && IsSquareRoot(TWO_32 * 1 + H0[1] as int, Prime(1));
    case 2 => assert H0[2] == 0x3c6ef372 && IsSquareRoot(TWO_32 * 2 + H0[2] as int, Prime(2));
    case 3 => assert H0[3] == 0xa54ff53a && IsSquareRoot(TWO_32 * 2 + H0[3] as int, Prime(3));
    case 4 => assert H0[4] == 0x510e527f && IsSquareRoot(TWO_32 * 3 + H0[4] as int, Prime(4));
    case 5 => assert H0[5] == 0x9b05688c && IsSquareRoot(TWO_32 * 3 + H0[5] as int, Prime(5));
    case 6 => assert H0[6] == 0x1f83d9ab && IsSquareRoot(TWO_32 * 4 + H0[6] as int, Prime(6));
    case 7 => assert H0[7] == 0x5be0cd19 && IsSquareRoot(TWO_32 * 4 + H0[7] as int, Prime(7));
  }
}
