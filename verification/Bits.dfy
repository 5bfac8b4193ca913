/**
 * Bitwise operations on integers of any sign in two's complement, as C applies them to signed and unsigned words.
 * Each operation is defined by halving, so that its value does not depend on a word size; a mask of low bits is a
 * remainder, and exchanging two numbers under an all-ones or all-zeros mask is a conditional swap.
 */
module Bits {

  function Abs(x: int): nat { if x < 0 then -x else x }

  /** Exclusive or; the sign bits extend without end. */
  function Xor(x: int, y: int): int
    decreases Abs(x) + Abs(y)
  {
    if (x == 0 || x == -1) && (y == 0 || y == -1) then (if x == y then 0 else -1)
    else 2 * Xor(x / 2, y / 2) + (x % 2 + y % 2) % 2
  }

  function And(x: int, y: int): int
    decreases Abs(x) + Abs(y)
  {
    if (x == 0 || x == -1) && (y == 0 || y == -1) then (if x == -1 && y == -1 then -1 else 0)
    else 2 * And(x / 2, y / 2) + (x % 2) * (y % 2)
  }

  function Or(x: int, y: int): int { x + y - And(x, y) }

  function Pow2(k: nat): (p: nat)
    ensures p >= 1
  {
    if k == 0 then 1 else 2 * Pow2(k - 1)
  }

  lemma {:induction false} XorTwice(x: int, y: int)
    ensures Xor(x, Xor(x, y)) == y
    decreases Abs(x) + Abs(y)
  {
    if !((x == 0 || x == -1) && (y == 0 || y == -1)) {
      hide Xor;
      Halved(x);
      Halved(y);
      hide Abs;
      XorTwice(x / 2, y / 2);
      var z, b := Xor(x / 2, y / 2), (x % 2 + y % 2) % 2;
      XorStep(x, y);
      var w := 2 * z + b;
      Halves(z, b);
      XorStep(x, w);
      BitTwice(x % 2, y % 2);
    }
  }

  lemma Halved(x: int)
    ensures Abs(x / 2) <= Abs(x) && (x != 0 && x != -1 ==> Abs(x / 2) < Abs(x))
  {
  }

  lemma Halves(z: int, b: int)
    requires b == 0 || b == 1
    ensures (2 * z + b) / 2 == z && (2 * z + b) % 2 == b
  {
  }

  lemma BitTwice(a: int, b: int)
    requires (a == 0 || a == 1) && (b == 0 || b == 1)
    ensures (a + (a + b) % 2) % 2 == b
  {
  }

  lemma XorStep(x: int, y: int)
    ensures Xor(x, y) == 2 * Xor(x / 2, y / 2) + (x % 2 + y % 2) % 2
  {
  }

  lemma AndStep(x: int, y: int)
    ensures And(x, y) == 2 * And(x / 2, y / 2) + (x % 2) * (y % 2)
  {
  }

  lemma {:induction false} XorSymmetric(x: int, y: int)
    ensures Xor(x, y) == Xor(y, x)
    decreases Abs(x) + Abs(y)
  {
    if !((x == 0 || x == -1) && (y == 0 || y == -1)) {
      XorSymmetric(x / 2, y / 2);
    }
  }

  lemma {:induction false} XorZero(x: int)
    ensures Xor(x, 0) == x
    decreases Abs(x)
  {
    if x != 0 && x != -1 { XorZero(x / 2); }
  }

  lemma {:induction false} XorBounds(x: int, y: int, k: nat)
    requires 0 <= x < Pow2(k) && 0 <= y < Pow2(k)
    ensures 0 <= Xor(x, y) < Pow2(k)
    decreases k
  {
    if k > 0 {
      hide Xor;
      XorBounds(x / 2, y / 2, k - 1);
      XorStep(x, y);
    }
  }

  lemma {:induction false} OrBounds(x: int, y: int, k: nat)
    requires 0 <= x < Pow2(k) && 0 <= y < Pow2(k)
    ensures x <= Or(x, y) < Pow2(k) && y <= Or(x, y)
    decreases k
  {
    if k > 0 {
      hide And;
      OrBounds(x / 2, y / 2, k - 1);
      AndStep(x, y);
      BitOr(x % 2, y % 2);
    }
  }

  lemma BitOr(a: int, b: int)
    requires (a == 0 || a == 1) && (b == 0 || b == 1)
    ensures a <= a + b - a * b <= 1 && b <= a + b - a * b
  {
  }

  /** The masks 0 and -1 select nothing and everything. */
  lemma {:induction false} AndMask(x: int)
    ensures And(0, x) == 0 && And(-1, x) == x
    decreases Abs(x)
  {
    if x != 0 && x != -1 {
      AndMask(x / 2);
      AndStep(0, x);
      AndStep(-1, x);
    }
  }

  /** Masking with 2^k - 1 is reduction modulo 2^k, for every sign. */
  lemma {:induction false} MaskIsMod(x: int, k: nat)
    ensures And(x, Pow2(k) - 1) == x % Pow2(k)
    decreases k
  {
    if k == 0 {
      AndZero(x);
    } else {
      var m := Pow2(k - 1);
      hide And;
      MaskIsMod(x / 2, k - 1);
      AndStep(x, 2 * m - 1);
      assert (2 * m - 1) / 2 == m - 1 && (2 * m - 1) % 2 == 1;
      ModDouble(x, m);
    }
  }

  lemma ModDouble(x: int, m: nat)
    requires m >= 1
    ensures x % (2 * m) == 2 * ((x / 2) % m) + x % 2
  {
    var q, r := (x / 2) / m, (x / 2) % m;
    assert x == (2 * m) * q + (2 * r + x % 2);
    ModUnique(x, 2 * m, q, 2 * r + x % 2);
  }

  lemma AtLeastOnce(d: int, k: int)
    requires d > 0 && k >= 1
    ensures d * k >= d
  {
  }

  /** The quotient and remainder of a division are the only ones. */
  lemma ModUnique(x: int, d: int, q: int, r: int)
    requires d > 0 && x == d * q + r && 0 <= r < d
    ensures x % d == r && x / d == q
  {
    QuotientsEqual(d, q, r, x / d, x % d);
  }

  lemma QuotientsEqual(d: int, q: int, r: int, q0: int, r0: int)
    requires d > 0 && d * q + r == d * q0 + r0 && 0 <= r < d && 0 <= r0 < d
    ensures q == q0 && r == r0
  {
    if q > q0 {
      AtLeastOnce(d, q - q0);
    } else if q < q0 {
      AtLeastOnce(d, q0 - q);
    }
  }

  lemma {:induction false} AndZero(x: int)
    ensures And(x, 0) == 0
    decreases Abs(x)
  {
    if x != 0 && x != -1 {
      AndZero(x / 2);
      AndStep(x, 0);
    }
  }

  /** The branch-free exchange t = c & (p ^ q); p ^= t; q ^= t does nothing for c = 0 and swaps for c = -1. */
  lemma MaskedSwap(p: int, q: int)
    ensures Xor(p, And(0, Xor(p, q))) == p && Xor(q, And(0, Xor(p, q))) == q
    ensures Xor(p, And(-1, Xor(p, q))) == q && Xor(q, And(-1, Xor(p, q))) == p
  {
    AndMask(Xor(p, q));
    XorZero(p);
    XorZero(q);
    XorTwice(p, q);
    XorSymmetric(p, q);
    XorTwice(q, p);
  }

  lemma {:induction false} Pow2Add(m: nat, n: nat)
    ensures Pow2(m + n) == Pow2(m) * Pow2(n)
  {
    if n > 0 {
      Pow2Add(m, n - 1);
      assert Pow2(m) * (2 * Pow2(n - 1)) == 2 * (Pow2(m) * Pow2(n - 1));
    }
  }
}
