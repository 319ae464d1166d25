/**
 * Where the constants of SHA-256 come from: sections 4.2.2 and 5.3.3 of FIPS 180-4 take them from the cube roots of
 * the first sixty-four and the square roots of the first eight prime numbers.
 */
module Sha256Constants {
  import opened Sha256Spec

  ghost predicate IsPrime(n: nat) {
    n >= 2 && forall d: nat | 2 <= d < n :: n % d != 0
  }

  const P0: seq<nat> := [2, 3, 5, 7, 11, 13, 17, 19]
  const P1: seq<nat> := [23, 29, 31, 37, 41, 43, 47, 53]
  const P2: seq<nat> := [59, 61, 67, 71, 73, 79, 83, 89]
  const P3: seq<nat> := [97, 101, 103, 107, 109, 113, 127, 131]
  const P4: seq<nat> := [137, 139, 149, 151, 157, 163, 167, 173]
  const P5: seq<nat> := [179, 181, 191, 193, 197, 199, 211, 223]
  const P6: seq<nat> := [227, 229, 233, 239, 241, 251, 257, 263]
  const P7: seq<nat> := [269, 271, 277, 281, 283, 293, 307, 311]

  /** The prime numbers in order, eight in a row. */
  function Prime(i: nat): nat
    requires i < 64
  {
    [P0, P1, P2, P3, P4, P5, P6, P7][i / 8][i % 8]
  }

  /** `n` is no proper multiple of a prime number below eighteen. */
  predicate Sieved(n: nat) {
    n >= 2
    && (n == 2 || n % 2 != 0) && (n == 3 || n % 3 != 0) && (n == 5 || n % 5 != 0) && (n == 7 || n % 7 != 0)
    && (n == 11 || n % 11 != 0) && (n == 13 || n % 13 != 0) && (n == 17 || n % 17 != 0)
  }

  lemma SmallFactor(n: nat, d: nat) returns (a: nat)
    requires 2 <= d < n < 324 && n % d == 0
    ensures 2 <= a < 18 && a < n && n % a == 0
  {
    var e := n / d;
    assert n == d * e;
    if d < 18 {
      a := d;
    } else {
      Cofactor(n, d, e);
      a := e;
    }
  }

  lemma Cofactor(n: nat, d: nat, e: nat)
    requires n == d * e && 18 <= d < n < 324
    ensures 2 <= e < 18 && n % e == 0
  {
    if e >= 18 {
      Product(d, e, 18, 18);
    }
    if e < 2 {
      Product(d, 1, d, e);
    }
    Multiple(n, e, d);
  }

  lemma Product(a: nat, b: nat, c: nat, d: nat)
    requires a >= c && b >= d
    ensures a * b >= c * d
  {
    assert a * b >= a * d;
  }

  lemma Multiple(n: nat, e: nat, d: nat)
    requires n == d * e && e > 0
    ensures n % e == 0
  {
    MultipleOf(n, e, d, n / e, n % e);
  }

  lemma MultipleOf(n: int, e: int, d: int, q: int, r: int)
    requires n == d * e == q * e + r && 0 <= r < e
    ensures r == 0
  {
    Between(d - q, e);
  }

  lemma Between(k: int, e: int)
    requires e > 0
    ensures 0 <= k * e < e ==> k == 0
  {
    if k >= 1 {
      Product(k, e, 1, e);
    } else if k <= -1 {
      Product(-k, e, 1, e);
    }
  }

  lemma FactorOfFactor(n: nat, a: nat, s: nat)
    requires a > 0 && s > 0 && n % a == 0 && a % s == 0
    ensures n % s == 0
  {
    var x, y := n / a, a / s;
    assert n == a * x && a == s * y;
    assert n == (y * x) * s;
    Multiple(n, s, y * x);
  }

  lemma SmallHasPrime(a: nat) returns (s: nat)
    requires 2 <= a < 18
    ensures (s == 2 || s == 3 || s == 5 || s == 7 || s == 11 || s == 13 || s == 17) && s <= a && a % s == 0
  {
    s := if a % 2 == 0 then 2 else if a % 3 == 0 then 3 else if a % 5 == 0 then 5 else a;
  }

  /** Below 324 the sieve finds exactly the prime numbers. */
  lemma SievedIsPrime(n: nat)
    requires n < 324
    ensures Sieved(n) <==> IsPrime(n)
  {
    if Sieved(n) {
      forall d: nat | 2 <= d < n ensures n % d != 0 {
        if n % d == 0 {
          var a := SmallFactor(n, d);
          var s := SmallHasPrime(a);
          FactorOfFactor(n, a, s);
          assert false;
        }
      }
    }
  }

  /** Two prime numbers with none between them. */
  ghost predicate Neighbours(p: nat, q: nat) {
    p < q && IsPrime(p) && IsPrime(q) && forall n: nat | p < n < q :: !IsPrime(n)
  }

  /** None of the `count` numbers from `p` on passes the sieve. */
  predicate NoneSieved(p: nat, count: nat)
    decreases count
  {
    count == 0 || (!Sieved(p) && NoneSieved(p + 1, count - 1))
  }

  lemma {:induction false} NoneSievedAt(p: nat, count: nat, n: nat)
    requires NoneSieved(p, count) && p <= n < p + count
    ensures !Sieved(n)
    decreases count
  {
    if p < n {
      NoneSievedAt(p + 1, count - 1, n);
    }
  }

  lemma Neighbouring(p: nat, gap: nat)
    requires p + 1 + gap < 324 && Sieved(p) && Sieved(p + 1 + gap) && NoneSieved(p + 1, gap)
    ensures Neighbours(p, p + 1 + gap)
  {
    var q := p + 1 + gap;
    hide Sieved, NoneSieved, IsPrime;
    SievedIsPrime(p);
    SievedIsPrime(q);
    forall n: nat | p < n < q ensures !IsPrime(n) {
      NoneSievedAt(p + 1, gap, n);
      SievedIsPrime(n);
    }
  }

  lemma Gaps0()
    ensures Neighbours(2, 3) && Neighbours(3, 5)
    ensures Neighbours(5, 7) && Neighbours(7, 11)
    ensures Neighbours(11, 13) && Neighbours(13, 17)
    ensures Neighbours(17, 19) && Neighbours(19, 23)
  {
    hide Neighbours;
    Neighbouring(2, 0);
    Neighbouring(3, 1);
    Neighbouring(5, 1);
    Neighbouring(7, 3);
    Neighbouring(11, 1);
    Neighbouring(13, 3);
    Neighbouring(17, 1);
    Neighbouring(19, 3);
  }

  lemma Gaps1()
    ensures Neighbours(23, 29) && Neighbours(29, 31)
    ensures Neighbours(31, 37) && Neighbours(37, 41)
    ensures Neighbours(41, 43) && Neighbours(43, 47)
    ensures Neighbours(47, 53) && Neighbours(53, 59)
  {
    hide Neighbours;
    Neighbouring(23, 5);
    Neighbouring(29, 1);
    Neighbouring(31, 5);
    Neighbouring(37, 3);
    Neighbouring(41, 1);
    Neighbouring(43, 3);
    Neighbouring(47, 5);
    Neighbouring(53, 5);
  }

  lemma Gaps2()
    ensures Neighbours(59, 61) && Neighbours(61, 67)
    ensures Neighbours(67, 71) && Neighbours(71, 73)
    ensures Neighbours(73, 79) && Neighbours(79, 83)
    ensures Neighbours(83, 89) && Neighbours(89, 97)
  {
    hide Neighbours;
    Neighbouring(59, 1);
    Neighbouring(61, 5);
    Neighbouring(67, 3);
    Neighbouring(71, 1);
    Neighbouring(73, 5);
    Neighbouring(79, 3);
    Neighbouring(83, 5);
    assert NoneSieved(95, 2);
    Neighbouring(89, 7);
  }

  lemma Gaps3()
    ensures Neighbours(97, 101) && Neighbours(101, 103)
    ensures Neighbours(103, 107) && Neighbours(107, 109)
    ensures Neighbours(109, 113) && Neighbours(113, 127)
    ensures Neighbours(127, 131) && Neighbours(131, 137)
  {
    hide Neighbours;
    Neighbouring(97, 3);
    Neighbouring(101, 1);
    Neighbouring(103, 3);
    Neighbouring(107, 1);
    Neighbouring(109, 3);
    assert NoneSieved(119, 8);
    Neighbouring(113, 13);
    Neighbouring(127, 3);
    Neighbouring(131, 5);
  }

  lemma Gaps4()
    ensures Neighbours(137, 139) && Neighbours(139, 149)
    ensures Neighbours(149, 151) && Neighbours(151, 157)
    ensures Neighbours(157, 163) && Neighbours(163, 167)
    ensures Neighbours(167, 173) && Neighbours(173, 179)
  {
    hide Neighbours;
    Neighbouring(137, 1);
    assert NoneSieved(145, 4);
    Neighbouring(139, 9);
    Neighbouring(149, 1);
    Neighbouring(151, 5);
    Neighbouring(157, 5);
    Neighbouring(163, 3);
    Neighbouring(167, 5);
    Neighbouring(173, 5);
  }

  lemma Gaps5()
    ensures Neighbours(179, 181) && Neighbours(181, 191)
    ensures Neighbours(191, 193) && Neighbours(193, 197)
    ensures Neighbours(197, 199) && Neighbours(199, 211)
    ensures Neighbours(211, 223) && Neighbours(223, 227)
  {
    hide Neighbours;
    Neighbouring(179, 1);
    assert NoneSieved(187, 4);
    Neighbouring(181, 9);
    Neighbouring(191, 1);
    Neighbouring(193, 3);
    Neighbouring(197, 1);
    assert NoneSieved(205, 6);
    Neighbouring(199, 11);
    assert NoneSieved(217, 6);
    Neighbouring(211, 11);
    Neighbouring(223, 3);
  }

  lemma Gaps6()
    ensures Neighbours(227, 229) && Neighbours(229, 233)
    ensures Neighbours(233, 239) && Neighbours(239, 241)
    ensures Neighbours(241, 251) && Neighbours(251, 257)
    ensures Neighbours(257, 263) && Neighbours(263, 269)
  {
    hide Neighbours;
    Neighbouring(227, 1);
    Neighbouring(229, 3);
    Neighbouring(233, 5);
    Neighbouring(239, 1);
    assert NoneSieved(247, 4);
    Neighbouring(241, 9);
    Neighbouring(251, 5);
    Neighbouring(257, 5);
    Neighbouring(263, 5);
  }

  lemma Gaps7()
    ensures Neighbours(269, 271) && Neighbours(271, 277)
    ensures Neighbours(277, 281) && Neighbours(281, 283)
    ensures Neighbours(283, 293) && Neighbours(293, 307)
    ensures Neighbours(307, 311)
  {
    hide Neighbours;
    Neighbouring(269, 1);
    Neighbouring(271, 5);
    Neighbouring(277, 3);
    Neighbouring(281, 1);
    assert NoneSieved(289, 4);
    Neighbouring(283, 9);
    assert NoneSieved(299, 8);
    Neighbouring(293, 13);
    Neighbouring(307, 3);
  }

  /** The list holds the first sixty-four prime numbers in order. */
  lemma PrimesAreFirst(i: nat)
    requires i < 63
    ensures Prime(0) == 2 && Neighbours(Prime(i), Prime(i + 1))
  {
    hide Neighbours;
    if i < 8 {
      Gaps0();
    } else if i < 16 {
      Gaps1();
    } else if i < 24 {
      Gaps2();
    } else if i < 32 {
      Gaps3();
    } else if i < 40 {
      Gaps4();
    } else if i < 48 {
      Gaps5();
    } else if i < 56 {
      Gaps6();
    } else {
      Gaps7();
    }
  }

  const TWO_32: nat := 0x1_0000_0000

  /** `w` is the first thirty-two bits of the fractional part of the square root of `p`, whose whole part is `whole`. */
  predicate SquareRoot(w: Word, whole: nat, p: nat) {
    var r := whole * TWO_32 + w as nat;
    r * r <= p * (TWO_32 * TWO_32) < (r + 1) * (r + 1)
  }

  /** The same for the cube root. */
  predicate CubeRoot(w: Word, whole: nat, p: nat) {
    var r := whole * TWO_32 + w as nat;
    r * r * r <= p * (TWO_32 * TWO_32 * TWO_32) < (r + 1) * (r + 1) * (r + 1)
  }

  ghost predicate FromSquareRoot(w: Word, p: nat) {
    exists whole: nat :: SquareRoot(w, whole, p)
  }

  ghost predicate FromCubeRoot(w: Word, p: nat) {
    exists whole: nat :: CubeRoot(w, whole, p)
  }

  lemma Roots0()
    ensures FromCubeRoot(0x428a2f98, 2) && FromCubeRoot(0x71374491, 3)
    ensures FromCubeRoot(0xb5c0fbcf, 5) && FromCubeRoot(0xe9b5dba5, 7)
    ensures FromCubeRoot(0x3956c25b, 11) && FromCubeRoot(0x59f111f1, 13)
    ensures FromCubeRoot(0x923f82a4, 17) && FromCubeRoot(0xab1c5ed5, 19)
  {
    assert CubeRoot(0x428a2f98, 1, 2);
    assert CubeRoot(0x71374491, 1, 3);
    assert CubeRoot(0xb5c0fbcf, 1, 5);
    assert CubeRoot(0xe9b5dba5, 1, 7);
    assert CubeRoot(0x3956c25b, 2, 11);
    assert CubeRoot(0x59f111f1, 2, 13);
    assert CubeRoot(0x923f82a4, 2, 17);
    assert CubeRoot(0xab1c5ed5, 2, 19);
  }

  lemma Roots1()
    ensures FromCubeRoot(0xd807aa98, 23) && FromCubeRoot(0x12835b01, 29)
    ensures FromCubeRoot(0x243185be, 31) && FromCubeRoot(0x550c7dc3, 37)
    ensures FromCubeRoot(0x72be5d74, 41) && FromCubeRoot(0x80deb1fe, 43)
    ensures FromCubeRoot(0x9bdc06a7, 47) && FromCubeRoot(0xc19bf174, 53)
  {
    assert CubeRoot(0xd807aa98, 2, 23);
    assert CubeRoot(0x12835b01, 3, 29);
    assert CubeRoot(0x243185be, 3, 31);
    assert CubeRoot(0x550c7dc3, 3, 37);
    assert CubeRoot(0x72be5d74, 3, 41);
    assert CubeRoot(0x80deb1fe, 3, 43);
    assert CubeRoot(0x9bdc06a7, 3, 47);
    assert CubeRoot(0xc19bf174, 3, 53);
  }

  lemma Roots2()
    ensures FromCubeRoot(0xe49b69c1, 59) && FromCubeRoot(0xefbe4786, 61)
    ensures FromCubeRoot(0x0fc19dc6, 67) && FromCubeRoot(0x240ca1cc, 71)
    ensures FromCubeRoot(0x2de92c6f, 73) && FromCubeRoot(0x4a7484aa, 79)
    ensures FromCubeRoot(0x5cb0a9dc, 83) && FromCubeRoot(0x76f988da, 89)
  {
    assert CubeRoot(0xe49b69c1, 3, 59);
    assert CubeRoot(0xefbe4786, 3, 61);
    assert CubeRoot(0x0fc19dc6, 4, 67);
    assert CubeRoot(0x240ca1cc, 4, 71);
    assert CubeRoot(0x2de92c6f, 4, 73);
    assert CubeRoot(0x4a7484aa, 4, 79);
    assert CubeRoot(0x5cb0a9dc, 4, 83);
    assert CubeRoot(0x76f988da, 4, 89);
  }

  lemma Roots3()
    ensures FromCubeRoot(0x983e5152, 97) && FromCubeRoot(0xa831c66d, 101)
    ensures FromCubeRoot(0xb00327c8, 103) && FromCubeRoot(0xbf597fc7, 107)
    ensures FromCubeRoot(0xc6e00bf3, 109) && FromCubeRoot(0xd5a79147, 113)
    ensures FromCubeRoot(0x06ca6351, 127) && FromCubeRoot(0x14292967, 131)
  {
    assert CubeRoot(0x983e5152, 4, 97);
    assert CubeRoot(0xa831c66d, 4, 101);
    assert CubeRoot(0xb00327c8, 4, 103);
    assert CubeRoot(0xbf597fc7, 4, 107);
    assert CubeRoot(0xc6e00bf3, 4, 109);
    assert CubeRoot(0xd5a79147, 4, 113);
    assert CubeRoot(0x06ca6351, 5, 127);
    assert CubeRoot(0x14292967, 5, 131);
  }

  lemma Roots4()
    ensures FromCubeRoot(0x27b70a85, 137) && FromCubeRoot(0x2e1b2138, 139)
    ensures FromCubeRoot(0x4d2c6dfc, 149) && FromCubeRoot(0x53380d13, 151)
    ensures FromCubeRoot(0x650a7354, 157) && FromCubeRoot(0x766a0abb, 163)
    ensures FromCubeRoot(0x81c2c92e, 167) && FromCubeRoot(0x92722c85, 173)
  {
    assert CubeRoot(0x27b70a85, 5, 137);
    assert CubeRoot(0x2e1b2138, 5, 139);
    assert CubeRoot(0x4d2c6dfc, 5, 149);
    assert CubeRoot(0x53380d13, 5, 151);
    assert CubeRoot(0x650a7354, 5, 157);
    assert CubeRoot(0x766a0abb, 5, 163);
    assert CubeRoot(0x81c2c92e, 5, 167);
    assert CubeRoot(0x92722c85, 5, 173);
  }

  lemma Roots5()
    ensures FromCubeRoot(0xa2bfe8a1, 179) && FromCubeRoot(0xa81a664b, 181)
    ensures FromCubeRoot(0xc24b8b70, 191) && FromCubeRoot(0xc76c51a3, 193)
    ensures FromCubeRoot(0xd192e819, 197) && FromCubeRoot(0xd6990624, 199)
    ensures FromCubeRoot(0xf40e3585, 211) && FromCubeRoot(0x106aa070, 223)
  {
    assert CubeRoot(0xa2bfe8a1, 5, 179);
    assert CubeRoot(0xa81a664b, 5, 181);
    assert CubeRoot(0xc24b8b70, 5, 191);
    assert CubeRoot(0xc76c51a3, 5, 193);
    assert CubeRoot(0xd192e819, 5, 197);
    assert CubeRoot(0xd6990624, 5, 199);
    assert CubeRoot(0xf40e3585, 5, 211);
    assert CubeRoot(0x106aa070, 6, 223);
  }

  lemma Roots6()
    ensures FromCubeRoot(0x19a4c116, 227) && FromCubeRoot(0x1e376c08, 229)
    ensures FromCubeRoot(0x2748774c, 233) && FromCubeRoot(0x34b0bcb5, 239)
    ensures FromCubeRoot(0x391c0cb3, 241) && FromCubeRoot(0x4ed8aa4a, 251)
    ensures FromCubeRoot(0x5b9cca4f, 257) && FromCubeRoot(0x682e6ff3, 263)
  {
    assert CubeRoot(0x19a4c116, 6, 227);
    assert CubeRoot(0x1e376c08, 6, 229);
    assert CubeRoot(0x2748774c, 6, 233);
    assert CubeRoot(0x34b0bcb5, 6, 239);
    assert CubeRoot(0x391c0cb3, 6, 241);
    assert CubeRoot(0x4ed8aa4a, 6, 251);
    assert CubeRoot(0x5b9cca4f, 6, 257);
    assert CubeRoot(0x682e6ff3, 6, 263);
  }

  lemma Roots7()
    ensures FromCubeRoot(0x748f82ee, 269) && FromCubeRoot(0x78a5636f, 271)
    ensures FromCubeRoot(0x84c87814, 277) && FromCubeRoot(0x8cc70208, 281)
    ensures FromCubeRoot(0x90befffa, 283) && FromCubeRoot(0xa4506ceb, 293)
    ensures FromCubeRoot(0xbef9a3f7, 307) && FromCubeRoot(0xc67178f2, 311)
  {
    assert CubeRoot(0x748f82ee, 6, 269);
    assert CubeRoot(0x78a5636f, 6, 271);
    assert CubeRoot(0x84c87814, 6, 277);
    assert CubeRoot(0x8cc70208, 6, 281);
    assert CubeRoot(0x90befffa, 6, 283);
    assert CubeRoot(0xa4506ceb, 6, 293);
    assert CubeRoot(0xbef9a3f7, 6, 307);
    assert CubeRoot(0xc67178f2, 6, 311);
  }

  /** Section 4.2.2: the round constants come from the cube roots of the first sixty-four prime numbers. */
  lemma RoundConstants(i: nat)
    requires i < 64
    ensures FromCubeRoot(K(i), Prime(i))
  {
    hide FromCubeRoot;
    if i < 8 {
      Roots0();
    } else if i < 16 {
      Roots1();
    } else if i < 24 {
      Roots2();
    } else if i < 32 {
      Roots3();
    } else if i < 40 {
      Roots4();
    } else if i < 48 {
      Roots5();
    } else if i < 56 {
      Roots6();
    } else {
      Roots7();
    }
  }

  /** Section 5.3.3: the initial hash value comes from the square roots of the first eight prime numbers. */
  lemma InitialHash()
    ensures FromSquareRoot(H0.a, Prime(0)) && FromSquareRoot(H0.b, Prime(1))
    ensures FromSquareRoot(H0.c, Prime(2)) && FromSquareRoot(H0.d, Prime(3))
    ensures FromSquareRoot(H0.e, Prime(4)) && FromSquareRoot(H0.f, Prime(5))
    ensures FromSquareRoot(H0.g, Prime(6)) && FromSquareRoot(H0.h, Prime(7))
  {
    assert SquareRoot(0x6a09e667, 1, 2);
    assert SquareRoot(0xbb67ae85, 1, 3);
    assert SquareRoot(0x3c6ef372, 2, 5);
    assert SquareRoot(0xa54ff53a, 2, 7);
    assert SquareRoot(0x510e527f, 3, 11);
    assert SquareRoot(0x9b05688c, 3, 13);
    assert SquareRoot(0x1f83d9ab, 4, 17);
    assert SquareRoot(0x5be0cd19, 4, 19);
  }
}
