/**
 * The constants of SHA-256 from the primes (FIPS 180-4, sections 4.2.2 and 5.3.3): the fractional parts of the cube
 * roots of the first sixty-four of them, and of the square roots of the first eight, as bounds on integers.
 */
module Fips180Constants {
  import opened Fips180
  import Limbs

  ghost predicate Prime(n: nat) {
    n >= 2 && forall d :: 2 <= d < n ==> n % d != 0
  }

  /** The prime number t, counted from 0. */
  function PrimeAt(t: nat): (p: nat)
    requires t < 64
  {
    match t
    case 0 => 2
    case 1 => 3
    case 2 => 5
    case 3 => 7
    case 4 => 11
    case 5 => 13
    case 6 => 17
    case 7 => 19
    case 8 => 23
    case 9 => 29
    case 10 => 31
    case 11 => 37
    case 12 => 41
    case 13 => 43
    case 14 => 47
    case 15 => 53
    case 16 => 59
    case 17 => 61
    case 18 => 67
    case 19 => 71
    case 20 => 73
    case 21 => 79
    case 22 => 83
    case 23 => 89
    case 24 => 97
    case 25 => 101
    case 26 => 103
    case 27 => 107
    case 28 => 109
    case 29 => 113
    case 30 => 127
    case 31 => 131
    case 32 => 137
    case 33 => 139
    case 34 => 149
    case 35 => 151
    case 36 => 157
    case 37 => 163
    case 38 => 167
    case 39 => 173
    case 40 => 179
    case 41 => 181
    case 42 => 191
    case 43 => 193
    case 44 => 197
    case 45 => 199
    case 46 => 211
    case 47 => 223
    case 48 => 227
    case 49 => 229
    case 50 => 233
    case 51 => 239
    case 52 => 241
    case 53 => 251
    case 54 => 257
    case 55 => 263
    case 56 => 269
    case 57 => 271
    case 58 => 277
    case 59 => 281
    case 60 => 283
    case 61 => 293
    case 62 => 307
    case _ => 311
  }

  // ---------------------------------------------------------------- that these are the primes, in order

  /** Divisible by no smaller prime below 18. */
  predicate Sifted(n: nat) {
    && n >= 2 && (n % 2 != 0 || n == 2) && (n % 3 != 0 || n == 3) && (n % 5 != 0 || n == 5) && (n % 7 != 0 || n == 7)
    && (n % 11 != 0 || n == 11) && (n % 13 != 0 || n == 13) && (n % 17 != 0 || n == 17)
  }

  lemma SiftedIsPrime(n: nat)
    requires n < 324
    ensures Sifted(n) <==> Prime(n)
  {
    if Sifted(n) {
      forall d | 2 <= d < n ensures n % d != 0 {
        if n % d == 0 { Factor(n, d); }
      }
    }
  }

  /** A composite number below 18 * 18 has a prime factor below 18. */
  lemma Factor(n: nat, d: nat)
    requires 2 <= d < n < 324 && n % d == 0
    ensures !Sifted(n)
  {
    if d >= 18 {
      var e := n / d;
      assert n == d * e;
      if e >= 18 { Limbs.MulNonNeg(d - 18, e - 18); }
      Limbs.RemainderIs(n, e, d, 0);
      SmallFactor(n, e);
    } else {
      SmallFactor(n, d);
    }
  }

  lemma SmallFactor(n: nat, d: nat)
    requires 2 <= d < 18 && d < n && n % d == 0
    ensures !Sifted(n)
  {
    if d % 2 == 0 {
      Transitive(n, d, 2);
    } else if d % 3 == 0 {
      Transitive(n, d, 3);
    } else {
      assert d == 5 || d == 7 || d == 11 || d == 13 || d == 17;
    }
  }

  lemma Transitive(n: nat, d: nat, p: nat)
    requires d > 0 && p > 0 && n % d == 0 && d % p == 0
    ensures n % p == 0
  {
    var k, l := n / d, d / p;
    assert n == d * k && d == p * l;
    Limbs.Assoc(p, l, k);
    Limbs.RemainderIs(n, p, l * k, 0);
  }

  /** No prime lies from a up to, and without, b. */
  predicate NoneWithin(a: nat, b: nat)
    decreases b - a
  {
    a >= b || (!Sifted(a) && NoneWithin(a + 1, b))
  }

  lemma {:induction false} NoneWithinIs(a: nat, b: nat, n: nat)
    requires NoneWithin(a, b) && a <= n < b
    ensures !Sifted(n)
    decreases b - a
  {
    if a < n { NoneWithinIs(a + 1, b, n); }
  }

  /** A prime, with no prime between it and the one before; the first one is 2. */
  predicate InOrder(t: nat)
    requires t < 64
  {
    && PrimeAt(t) < 324 && Sifted(PrimeAt(t))
    && if t == 0 then PrimeAt(t) == 2
       else PrimeAt(t - 1) < PrimeAt(t) && NoneWithin(PrimeAt(t - 1) + 1, PrimeAt(t))
  }

  /** The numbers used are the primes from 2 on, in ascending order and without a gap. */
  lemma PrimesInOrder(t: nat)
    requires t < 64
    ensures Prime(PrimeAt(t)) && (t == 0 ==> PrimeAt(t) == 2)
    ensures t > 0 ==> PrimeAt(t - 1) < PrimeAt(t) && forall n :: PrimeAt(t - 1) < n < PrimeAt(t) ==> !Prime(n)
  {
    InOrderAt(t);
    SiftedIsPrime(PrimeAt(t));
    if t > 0 {
      hide Prime, Sifted, PrimeAt;
      forall n | PrimeAt(t - 1) < n < PrimeAt(t) ensures !Prime(n) {
        NoneWithinIs(PrimeAt(t - 1) + 1, PrimeAt(t), n);
        SiftedIsPrime(n);
      }
    }
  }

  lemma InOrderAt(t: nat)
    requires t < 64
    ensures InOrder(t)
  {
    hide InOrder;
    match t / 8
    case 0 => Order0(t);
    case 1 => Order1(t);
    case 2 => Order2(t);
    case 3 => Order3(t);
    case 4 => Order4(t);
    case 5 => Order5(t);
    case 6 => Order6(t);
    case _ => Order7(t);
  }

  lemma Order0(t: nat)
    requires 0 <= t < 8
    ensures InOrder(t)
  {
    match t
    case 0 =>
    case 1 => assert NoneWithin(3, 3);
    case 2 => assert NoneWithin(4, 5);
    case 3 => assert NoneWithin(6, 7);
    case 4 => assert NoneWithin(8, 11);
    case 5 => assert NoneWithin(12, 13);
    case 6 => assert NoneWithin(14, 17);
    case 7 => assert NoneWithin(18, 19);
  }

  lemma Order1(t: nat)
    requires 8 <= t < 16
    ensures InOrder(t)
  {
    match t
    case 8 => assert NoneWithin(20, 23);
    case 9 => assert NoneWithin(24, 29);
    case 10 => assert NoneWithin(30, 31);
    case 11 => assert NoneWithin(32, 37);
    case 12 => assert NoneWithin(38, 41);
    case 13 => assert NoneWithin(42, 43);
    case 14 => assert NoneWithin(44, 47);
    case 15 => assert NoneWithin(48, 53);
  }

  lemma Order2(t: nat)
    requires 16 <= t < 24
    ensures InOrder(t)
  {
    match t
    case 16 => assert NoneWithin(54, 59);
    case 17 => assert NoneWithin(60, 61);
    case 18 => assert NoneWithin(62, 67);
    case 19 => assert NoneWithin(68, 71);
    case 20 => assert NoneWithin(72, 73);
    case 21 => assert NoneWithin(74, 79);
    case 22 => assert NoneWithin(80, 83);
    case 23 => assert NoneWithin(84, 89);
  }

  lemma Order3(t: nat)
    requires 24 <= t < 32
    ensures InOrder(t)
  {
    match t
    case 24 => assert NoneWithin(90, 97);
    case 25 => assert NoneWithin(98, 101);
    case 26 => assert NoneWithin(102, 103);
    case 27 => assert NoneWithin(104, 107);
    case 28 => assert NoneWithin(108, 109);
    case 29 => assert NoneWithin(110, 113);
    case 30 => assert NoneWithin(114, 127);
    case 31 => assert NoneWithin(128, 131);
  }

  lemma Order4(t: nat)
    requires 32 <= t < 40
    ensures InOrder(t)
  {
    match t
    case 32 => assert NoneWithin(132, 137);
    case 33 => assert NoneWithin(138, 139);
    case 34 => assert NoneWithin(140, 149);
    case 35 => assert NoneWithin(150, 151);
    case 36 => assert NoneWithin(152, 157);
    case 37 => assert NoneWithin(158, 163);
    case 38 => assert NoneWithin(164, 167);
    case 39 => assert NoneWithin(168, 173);
  }

  lemma Order5(t: nat)
    requires 40 <= t < 48
    ensures InOrder(t)
  {
    match t
    case 40 => assert NoneWithin(174, 179);
    case 41 => assert NoneWithin(180, 181);
    case 42 => assert NoneWithin(182, 191);
    case 43 => assert NoneWithin(192, 193);
    case 44 => assert NoneWithin(194, 197);
    case 45 => assert NoneWithin(198, 199);
    case 46 => assert NoneWithin(200, 211);
    case 47 => assert NoneWithin(212, 223);
  }

  lemma Order6(t: nat)
    requires 48 <= t < 56
    ensures InOrder(t)
  {
    match t
    case 48 => assert NoneWithin(224, 227);
    case 49 => assert NoneWithin(228, 229);
    case 50 => assert NoneWithin(230, 233);
    case 51 => assert NoneWithin(234, 239);
    case 52 => assert NoneWithin(240, 241);
    case 53 => assert NoneWithin(242, 251);
    case 54 => assert NoneWithin(252, 257);
    case 55 => assert NoneWithin(258, 263);
  }

  lemma Order7(t: nat)
    requires 56 <= t < 64
    ensures InOrder(t)
  {
    match t
    case 56 => assert NoneWithin(264, 269);
    case 57 => assert NoneWithin(270, 271);
    case 58 => assert NoneWithin(272, 277);
    case 59 => assert NoneWithin(278, 281);
    case 60 => assert NoneWithin(282, 283);
    case 61 => assert NoneWithin(284, 293);
    case 62 => assert NoneWithin(294, 307);
    case 63 => assert NoneWithin(308, 311);
  }

  // ---------------------------------------------------------------- the roots

  function Cube(x: int): int { x * x * x }

  function CubeFloor(n: nat): (c: int)
    requires 1 <= n < 343
    ensures Cube(c) <= n < Cube(c + 1)
  {
    if n < 8 then 1 else if n < 27 then 2 else if n < 64 then 3 else if n < 125 then 4 else if n < 216 then 5 else 6
  }

  function Number(k: word): int { k as int }

  /** k is the first 32 bits of the fraction of the cube root of p. */
  predicate IsCubeRoot(p: nat, k: word) {
    && 1 <= p < 343
    && var x := CubeFloor(p) * 0x1_0000_0000 + Number(k);
      Cube(x) <= p * 0x1_0000_0000_0000_0000_0000_0000 < Cube(x + 1)
  }

  /** Constant t is the first 32 bits of the fractional part of the cube root of prime number t. */
  lemma CubeRoots(t: nat)
    requires t < 64
    ensures 1 <= PrimeAt(t) < 343
    ensures var c := CubeFloor(PrimeAt(t));
      && Cube(c * 0x1_0000_0000 + K256()[t] as int) <= PrimeAt(t) * 0x1_0000_0000_0000_0000_0000_0000
      && PrimeAt(t) * 0x1_0000_0000_0000_0000_0000_0000 < Cube(c * 0x1_0000_0000 + K256()[t] as int + 1)
  {
    hide PrimeAt, K256, Cube, CubeFloor;
    RootAt(t);
  }

  lemma RootAt(t: nat)
    requires t < 64
    ensures IsCubeRoot(PrimeAt(t), K256()[t])
  {
    hide IsCubeRoot, PrimeAt, K256;
    match t / 4
    case 0 => Roots0(t);
    case 1 => Roots1(t);
    case 2 => Roots2(t);
    case 3 => Roots3(t);
    case 4 => Roots4(t);
    case 5 => Roots5(t);
    case 6 => Roots6(t);
    case 7 => Roots7(t);
    case 8 => Roots8(t);
    case 9 => Roots9(t);
    case 10 => Roots10(t);
    case 11 => Roots11(t);
    case 12 => Roots12(t);
    case 13 => Roots13(t);
    case 14 => Roots14(t);
    case _ => Roots15(t);
  }

  lemma Roots0(t: nat)
    requires 0 <= t < 4
    ensures IsCubeRoot(PrimeAt(t), K256()[t])
  {
    match t
    case 0 => case 1 => case 2 => case 3 =>
  }

  lemma Roots1(t: nat)
    requires 4 <= t < 8
    ensures IsCubeRoot(PrimeAt(t), K256()[t])
  {
    match t
    case 4 => case 5 => case 6 => case 7 =>
  }

  lemma Roots2(t: nat)
    requires 8 <= t < 12
    ensures IsCubeRoot(PrimeAt(t), K256()[t])
  {
    match t
    case 8 => case 9 => case 10 => case 11 =>
  }

  lemma Roots3(t: nat)
    requires 12 <= t < 16
    ensures IsCubeRoot(PrimeAt(t), K256()[t])
  {
    match t
    case 12 => case 13 => case 14 => case 15 =>
  }

  lemma Roots4(t: nat)
    requires 16 <= t < 20
    ensures IsCubeRoot(PrimeAt(t), K256()[t])
  {
    match t
    case 16 => case 17 => case 18 => case 19 =>
  }

  lemma Roots5(t: nat)
    requires 20 <= t < 24
    ensures IsCubeRoot(PrimeAt(t), K256()[t])
  {
    match t
    case 20 => case 21 => case 22 => case 23 =>
  }

  lemma Roots6(t: nat)
    requires 24 <= t < 28
    ensures IsCubeRoot(PrimeAt(t), K256()[t])
  {
    match t
    case 24 => case 25 => case 26 => case 27 =>
  }

  lemma Roots7(t: nat)
    requires 28 <= t < 32
    ensures IsCubeRoot(PrimeAt(t), K256()[t])
  {
    match t
    case 28 => case 29 => case 30 => case 31 =>
  }

  lemma Roots8(t: nat)
    requires 32 <= t < 36
    ensures IsCubeRoot(PrimeAt(t), K256()[t])
  {
    match t
    case 32 => case 33 => case 34 => case 35 =>
  }

  lemma Roots9(t: nat)
    requires 36 <= t < 40
    ensures IsCubeRoot(PrimeAt(t), K256()[t])
  {
    match t
    case 36 => case 37 => case 38 => case 39 =>
  }

  lemma Roots10(t: nat)
    requires 40 <= t < 44
    ensures IsCubeRoot(PrimeAt(t), K256()[t])
  {
    match t
    case 40 => case 41 => case 42 => case 43 =>
  }

  lemma Roots11(t: nat)
    requires 44 <= t < 48
    ensures IsCubeRoot(PrimeAt(t), K256()[t])
  {
    match t
    case 44 => case 45 => case 46 => case 47 =>
  }

  lemma Roots12(t: nat)
    requires 48 <= t < 52
    ensures IsCubeRoot(PrimeAt(t), K256()[t])
  {
    match t
    case 48 => case 49 => case 50 => case 51 =>
  }

  lemma Roots13(t: nat)
    requires 52 <= t < 56
    ensures IsCubeRoot(PrimeAt(t), K256()[t])
  {
    match t
    case 52 => case 53 => case 54 => case 55 =>
  }

  lemma Roots14(t: nat)
    requires 56 <= t < 60
    ensures IsCubeRoot(PrimeAt(t), K256()[t])
  {
    match t
    case 56 => case 57 => case 58 => case 59 =>
  }

  lemma Roots15(t: nat)
    requires 60 <= t < 64
    ensures IsCubeRoot(PrimeAt(t), K256()[t])
  {
    match t
    case 60 => case 61 => case 62 => case 63 =>
  }

  function Square(x: int): int { x * x }

  function SquareFloor(n: nat): (c: int)
    requires 1 <= n < 25
    ensures Square(c) <= n < Square(c + 1)
  {
    if n < 4 then 1 else if n < 9 then 2 else if n < 16 then 3 else 4
  }

  /** Initial hash word t is the first 32 bits of the fractional part of the square root of prime number t. */
  lemma SquareRoots(t: nat)
    requires t < 8
    ensures 1 <= PrimeAt(t) < 25
    ensures var c := SquareFloor(PrimeAt(t));
      && Square(c * 0x1_0000_0000 + IV()[t] as int) <= PrimeAt(t) * 0x1_0000_0000_0000_0000
      && PrimeAt(t) * 0x1_0000_0000_0000_0000 < Square(c * 0x1_0000_0000 + IV()[t] as int + 1)
  {
    match t
    case 0 => case 1 => case 2 => case 3 => case 4 => case 5 => case 6 => case 7 =>
  }
}
