/**
 * Little-endian numbers in limbs of radix R, the way TweetNaCl stores them; limbs need not be reduced.
 * The value of limbs under concatenation, update and linear combination, the uniqueness of reduced limbs, and
 * congruence modulo a number, with the few laws of multiplication that the solver is not left to find by itself.
 */
module Limbs {
  import Bits

  function Pow(b: nat, n: nat): nat {
    if n == 0 then 1 else b * Pow(b, n - 1)
  }

  /** The number the limbs stand for. */
  function Val(s: seq<int>, R: nat): int {
    if s == [] then 0 else Val(s[..|s| - 1], R) + s[|s| - 1] * Pow(R, |s| - 1)
  }

  predicate Digits(s: seq<int>, R: nat) {
    forall i :: 0 <= i < |s| ==> 0 <= s[i] < R
  }

  lemma PowPositive(b: nat, n: nat)
    requires b > 0
    ensures Pow(b, n) > 0
  {
    if n > 0 { PowPositive(b, n - 1); }
  }

  lemma {:induction false} PowAdd(b: nat, m: nat, n: nat)
    ensures Pow(b, m + n) == Pow(b, m) * Pow(b, n)
  {
    if m > 0 {
      PowAdd(b, m - 1, n);
      Assoc(b, Pow(b, m - 1), Pow(b, n));
    }
  }

  lemma {:induction false} PowIsPow2(n: nat)
    ensures Pow(256, n) == Bits.Pow2(8 * n)
  {
    if n > 0 {
      PowIsPow2(n - 1);
      Bits.Pow2Add(8 * n - 8, 8);
      assert Bits.Pow2(8) == 256;
    }
  }

  lemma Assoc(a: int, b: int, c: int)
    ensures a * (b * c) == (a * b) * c
  {
  }

  lemma MulNonNeg(a: int, b: int)
    requires a >= 0 && b >= 0
    ensures a * b >= 0
  {
  }

  lemma MulAtLeast(a: int, b: int)
    requires a >= 1 && b >= 0
    ensures a * b >= b
  {
    MulNonNeg(a - 1, b);
    Distribute(a, 1, b);
  }

  lemma Distribute(a: int, b: int, c: int)
    ensures (a + b) * c == a * c + b * c
    ensures (a - b) * c == a * c - b * c
  {
  }

  lemma ValSnoc(s: seq<int>, x: int, R: nat)
    ensures Val(s + [x], R) == Val(s, R) + x * Pow(R, |s|)
  {
    assert (s + [x])[..|s|] == s;
  }

  /** The number of a longer prefix. */
  lemma ValPrefix(s: seq<int>, i: nat, R: nat)
    requires i < |s|
    ensures Val(s[..i + 1], R) == Val(s[..i], R) + s[i] * Pow(R, i)
  {
    assert s[..i + 1] == s[..i] + [s[i]];
    ValSnoc(s[..i], s[i], R);
  }

  lemma {:induction false} ValUpdate(s: seq<int>, i: nat, x: int, R: nat)
    requires i < |s|
    ensures Val(s[i := x], R) == Val(s, R) + (x - s[i]) * Pow(R, i)
    decreases |s|
  {
    var n := |s| - 1;
    var t := s[i := x];
    if i == n {
      assert t[..n] == s[..n];
      Distribute(x, s[i], Pow(R, i));
    } else {
      ValUpdate(s[..n], i, x, R);
      assert t[..n] == s[..n][i := x];
    }
  }

  lemma {:induction false} ValConcat(a: seq<int>, b: seq<int>, R: nat)
    ensures Val(a + b, R) == Val(a, R) + Pow(R, |a|) * Val(b, R)
    decreases |b|
  {
    if b == [] {
      assert a + b == a;
    } else {
      var n := |b| - 1;
      ValConcat(a, b[..n], R);
      assert a + b == (a + b[..n]) + [b[n]];
      ValSnoc(a + b[..n], b[n], R);
      PowAdd(R, |a|, n);
      TermShift(Pow(R, |a|), Val(b[..n], R), b[n], Pow(R, n));
    }
  }

  lemma TermShift(p: int, v: int, x: int, q: int)
    ensures p * v + x * (p * q) == p * (v + x * q)
  {
    assert x * (p * q) == p * (x * q);
  }

  lemma {:induction false} ValBounds(s: seq<int>, R: nat)
    requires Digits(s, R)
    ensures 0 <= Val(s, R) < Pow(R, |s|)
    decreases |s|
  {
    if s != [] {
      var n := |s| - 1;
      ValBounds(s[..n], R);
      TopDigit(s[n], R, Pow(R, n));
    }
  }

  lemma TopDigit(x: int, R: nat, p: nat)
    requires 0 <= x < R
    ensures 0 <= x * p && x * p + p <= R * p
  {
    MulNonNeg(x, p);
    MulNonNeg(R - 1 - x, p);
    Distribute(R, 1 + x, p);
    Distribute(1, x, p);
  }

  /** Reduced limbs are unique for a number and a length. */
  lemma {:induction false} DigitsUnique(a: seq<int>, b: seq<int>, R: nat)
    requires |a| == |b| && Digits(a, R) && Digits(b, R) && Val(a, R) == Val(b, R)
    ensures a == b
    decreases |a|
  {
    if a != [] {
      var n := |a| - 1;
      ValBounds(a[..n], R);
      ValBounds(b[..n], R);
      TopEqual(Pow(R, n), a[n], Val(a[..n], R), b[n], Val(b[..n], R));
      DigitsUnique(a[..n], b[..n], R);
      assert a == a[..n] + [a[n]] && b == b[..n] + [b[n]];
    }
  }

  lemma TopEqual(p: int, x: int, u: int, y: int, v: int)
    requires 0 <= u < p && 0 <= v < p && u + x * p == v + y * p
    ensures x == y && u == v
  {
    Distribute(x, y, p);
    Distribute(y, x, p);
    if x > y {
      MulAtLeast(x - y, p);
    } else if x < y {
      MulAtLeast(y - x, p);
    }
  }

  /** Limbwise sums and multiples. */
  lemma {:induction false} ValLinear(a: seq<int>, b: seq<int>, c: seq<int>, k: int, R: nat)
    requires |a| == |b| == |c| && forall i :: 0 <= i < |a| ==> c[i] == a[i] + k * b[i]
    ensures Val(c, R) == Val(a, R) + k * Val(b, R)
    decreases |a|
  {
    if a != [] {
      var n := |a| - 1;
      ValLinear(a[..n], b[..n], c[..n], k, R);
      LinearTerm(a[n], k, b[n], Pow(R, n), Val(b[..n], R));
    }
  }

  lemma LinearTerm(x: int, k: int, y: int, p: int, v: int)
    ensures (x + k * y) * p + k * v == x * p + k * (v + y * p)
  {
    assert (k * y) * p == k * (y * p);
  }

  lemma {:induction false} ValZero(s: seq<int>, R: nat)
    requires forall i :: 0 <= i < |s| ==> s[i] == 0
    ensures Val(s, R) == 0
    decreases |s|
  {
    if s != [] { ValZero(s[..|s| - 1], R); }
  }

  // ---------------------------------------------------------------- congruence

  /** a and b differ by a multiple of m. */
  predicate Cong(a: int, b: int, m: nat)
    requires m > 0
  {
    a % m == b % m
  }

  lemma AddMultiple(a: int, k: int, m: nat)
    requires m > 0
    ensures Cong(a + k * m, a, m)
  {
    var q := a / m;
    assert a + k * m == (q + k) * m + a % m;
    RemainderIs(a + k * m, m, q + k, a % m);
  }

  lemma RemainderIs(x: int, m: nat, q: int, r: int)
    requires m > 0 && x == q * m + r && 0 <= r < m
    ensures x % m == r && x / m == q
  {
    var q0 := x / m;
    assert x == q0 * m + x % m;
    TopEqual(m, q, r, q0, x % m);
  }

  lemma CongMultiple(a: int, b: int, m: nat) returns (k: int)
    requires m > 0 && Cong(a, b, m)
    ensures a == b + k * m
  {
    k := a / m - b / m;
    Distribute(a / m, b / m, m);
  }

  lemma CongAdd(a: int, b: int, c: int, d: int, m: nat)
    requires m > 0 && Cong(a, b, m) && Cong(c, d, m)
    ensures Cong(a + c, b + d, m) && Cong(a - c, b - d, m)
  {
    var k := CongMultiple(a, b, m);
    var l := CongMultiple(c, d, m);
    hide Cong;
    Distribute(k, l, m);
    AddMultiple(b + d, k + l, m);
    AddMultiple(b - d, k - l, m);
  }

  lemma CongMul(a: int, b: int, c: int, d: int, m: nat)
    requires m > 0 && Cong(a, b, m) && Cong(c, d, m)
    ensures Cong(a * c, b * d, m)
  {
    var k := CongMultiple(a, b, m);
    var l := CongMultiple(c, d, m);
    hide Cong;
    MulOut(b, k, d, l, m);
    AddMultiple(b * d, b * l + k * d + k * l * m, m);
  }

  lemma MulOut(b: int, k: int, d: int, l: int, m: int)
    ensures (b + k * m) * (d + l * m) == b * d + (b * l + k * d + k * l * m) * m
  {
    var x := k * m;
    assert (b + x) * (d + l * m) == b * d + b * (l * m) + x * d + x * (l * m);
    assert b * (l * m) == (b * l) * m;
    assert x * d == (k * d) * m;
    assert x * (l * m) == (k * l * m) * m;
  }

  lemma CongMod(a: int, m: nat)
    requires m > 0
    ensures Cong(a % m, a, m)
  {
    RemainderIs(a % m, m, 0, a % m);
  }

  lemma SelfCong(a: int, m: nat)
    requires m > 0
    ensures Cong(a, a, m)
  {
  }

  lemma CongTrans(a: int, b: int, c: int, m: nat)
    requires m > 0 && Cong(b, c, m)
    ensures Cong(a, b, m) ==> Cong(a, c, m)
  {
  }

  lemma FourBytes(a: int, b: int, c: int, d: int)
    ensures Val([a, b, c, d], 256) == a + 256 * b + 65536 * c + 16777216 * d
  {
    hide Val;
    var none: seq<int> := [];
    ValZero(none, 256);
    assert [a, b, c, d] == [a, b, c] + [d] && [a, b, c] == [a, b] + [c] && [a, b] == [a] + [b] && [a] == none + [a];
    ValSnoc(none, a, 256);
    ValSnoc([a], b, 256);
    ValSnoc([a, b], c, 256);
    ValSnoc([a, b, c], d, 256);
    assert Pow(256, 0) == 1 && Pow(256, 1) == 256 && Pow(256, 2) == 65536 && Pow(256, 3) == 16777216;
  }
}
