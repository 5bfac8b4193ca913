/** Poly1305 as tweetnacl.c computes it. */
module Poly1305 {
  // Over 17 limbs of radix 256 in 32-bit words, against section 2.5 of RFC 8439.

  import opened Limbs
  import Bits

  const P: nat := 0x3_ffffffff_ffffffff_ffffffff_fffffffb
  const TWO128: nat := 0x1_00000000_00000000_00000000_00000000
  const TWO130: nat := 0x4_00000000_00000000_00000000_00000000
  const TWO136: nat := 0x100_00000000_00000000_00000000_00000000
  const CLAMP: nat := 0x0ffffffc_0ffffffc_0ffffffc_0fffffff

  /** Unsigned 32-bit words wrap; the proofs below show that none here does. */
  function U32(x: int): int { x % 0x1_0000_0000 }

  lemma U32Fits(x: int)
    requires 0 <= x < 0x1_0000_0000
    ensures U32(x) == x
  {
  }

  lemma DigitsSnoc(s: seq<int>, x: int)
    requires Digits(s, 256) && 0 <= x < 256
    ensures Digits(s + [x], 256)
  {
  }

  lemma Powers()
    ensures Pow(256, 0) == 1 && Pow(256, 16) == TWO128 && Pow(256, 17) == TWO136
    ensures Bits.Pow2(8) == 256 && Bits.Pow2(32) == 0x1_0000_0000
  {
    assert Pow(256, 4) == 0x1_0000_0000;
    PowAdd(256, 4, 4);
    PowAdd(256, 8, 8);
    assert Pow(256, 17) == 256 * Pow(256, 16);
    assert Bits.Pow2(8) == 256;
    assert Bits.Pow2(8 + 8) == 0x1_0000;
    assert Bits.Pow2(24) == 0x100_0000;
    assert Bits.Pow2(32) == 0x1_0000_0000;
  }

  // ---------------------------------------------------------------- what RFC 8439 computes

  /** How long the last block of a message of n bytes is. */
  function LastLen(n: nat): (l: nat)
    ensures n > 0 ==> 1 <= l <= 16 && l <= n && (n - l) % 16 == 0
  {
    if n == 0 then 0 else if n % 16 == 0 then 16 else n % 16
  }

  /** A block read as a little-endian number with a 1 byte after its last byte. */
  function BlockNumber(b: seq<int>): int { Val(b + [1], 256) }

  /** The accumulator after the whole message. */
  function Accumulate(m: seq<int>, r: int): int
    decreases |m|
  {
    if m == [] then 0
    else
      var cut := |m| - LastLen(|m|);
      ((Accumulate(m[..cut], r) + BlockNumber(m[cut..])) * r) % P
  }

  function Tag(m: seq<int>, k: seq<int>): int
    requires |k| == 32
  {
    (Accumulate(m, Bits.And(Val(k[..16], 256), CLAMP)) + Val(k[16..], 256)) % TWO128
  }

  function BlockNumbers(m: seq<int>): seq<int>
    decreases |m|
  {
    if m == [] then []
    else
      var cut := |m| - LastLen(|m|);
      BlockNumbers(m[..cut]) + [BlockNumber(m[cut..])]
  }

  function PowerTerm(bs: seq<int>, r: nat, i: nat): int
    requires i < |bs|
  {
    bs[i] * Pow(r, |bs| - i)
  }

  /** The first q terms of b0 * r^n + b1 * r^(n-1) + ... + b(n-1) * r, for n blocks. */
  function TermSum(bs: seq<int>, r: nat, q: nat): int
    requires q <= |bs|
  {
    if q == 0 then 0 else TermSum(bs, r, q - 1) + PowerTerm(bs, r, q - 1)
  }

  /** The accumulator is the sum of the blocks times descending powers of r, modulo P. */
  lemma {:induction false} AccumulateIsPowerSum(m: seq<int>, r: nat)
    ensures Accumulate(m, r) == TermSum(BlockNumbers(m), r, |BlockNumbers(m)|) % P
    decreases |m|
  {
    if m != [] {
      var cut := |m| - LastLen(|m|);
      var bs, b := BlockNumbers(m[..cut]), BlockNumber(m[cut..]);
      AccumulateIsPowerSum(m[..cut], r);
      var sum := TermSum(bs, r, |bs|);
      assert BlockNumbers(m) == bs + [b];
      TermsOfLonger(bs, b, r, |bs|);
      assert TermSum(bs + [b], r, |bs| + 1) == sum * r + b * Pow(r, 1);
      Distribute(sum, b, r);
      CongMod(sum, P);
      CongAdd(sum % P, sum, b, b, P);
      CongMul(sum % P + b, sum + b, r, r, P);
    }
  }

  lemma {:induction false} TermsOfLonger(bs: seq<int>, b: int, r: nat, q: nat)
    requires q <= |bs|
    ensures TermSum(bs + [b], r, q) == TermSum(bs, r, q) * r
  {
    if q > 0 {
      TermsOfLonger(bs, b, r, q - 1);
      var e := |bs| - (q - 1);
      assert (bs + [b])[q - 1] == bs[q - 1];
      assert Pow(r, e + 1) == r * Pow(r, e);
      Assoc(bs[q - 1], r, Pow(r, e));
      Distribute(TermSum(bs, r, q - 1), bs[q - 1] * Pow(r, e), r);
      Assoc(bs[q - 1], Pow(r, e), r);
    }
  }

  // ---------------------------------------------------------------- addition

  /** One limb of a carry chain. */
  lemma CarryOne(acc: int, u: int, x: int, p: int, lhs: int)
    requires acc + u * p == lhs
    ensures acc + ((u + x) % 256) * p + ((u + x) / 256) * (256 * p) == lhs + x * p
  {
    var t := u + x;
    assert t == 256 * (t / 256) + t % 256;
    Distribute(u, x, p);
    Distribute(256 * (t / 256), t % 256, p);
    assert (256 * (t / 256)) * p == (t / 256) * (256 * p);
  }

  /** A carry chain after one more limb: the limbs done and the carry stand for everything added so far. */
  lemma CarryStep(low: seq<int>, u: int, x: int, sum: int)
    requires Val(low, 256) + u * Pow(256, |low|) == sum
    ensures Val(low + [(u + x) % 256], 256) + ((u + x) / 256) * Pow(256, |low| + 1) == sum + x * Pow(256, |low|)
  {
    CarryOne(Val(low, 256), u, x, Pow(256, |low|), sum);
    ValSnoc(low, (u + x) % 256, 256);
    assert Pow(256, |low| + 1) == 256 * Pow(256, |low|);
  }

  lemma AddStep(h0: seq<int>, c: seq<int>, low: seq<int>, u: int, j: nat)
    requires |h0| == |c| == 17 && j < 17 && |low| == j
    requires Val(low, 256) + u * Pow(256, j) == Val(h0[..j], 256) + Val(c[..j], 256)
    ensures var t := u + (h0[j] + c[j]);
            Val(low + [t % 256], 256) + (t / 256) * Pow(256, j + 1) == Val(h0[..j + 1], 256) + Val(c[..j + 1], 256)
  {
    hide Val, Pow;
    CarryStep(low, u, h0[j] + c[j], Val(h0[..j], 256) + Val(c[..j], 256));
    ValPrefix(h0, j, 256);
    ValPrefix(c, j, 256);
    Distribute(h0[j], c[j], Pow(256, j));
  }

  method Add1305(h: array<int>, c: array<int>)
    requires h.Length == 17 && c.Length == 17 && h != c
    requires forall j :: 0 <= j < 17 ==> 0 <= h[j] < 0x4000_0000 && 0 <= c[j] < 0x4000_0000
    modifies h
    ensures Digits(h[..], 256)
    ensures Val(h[..], 256) == (Val(old(h[..]), 256) + Val(c[..], 256)) % TWO136
  {
    hide Val, Pow, U32, Digits;
    ghost var h0, c0 := h[..], c[..];
    var u := 0;
    EmptyVal(h0, c0);
    for j := 0 to 17
      invariant 0 <= u < 0x100_0000
      invariant Digits(h[..j], 256) && forall k :: j <= k < 17 ==> h[k] == h0[k]
      invariant Val(h[..j], 256) + u * Pow(256, j) == Val(h0[..j], 256) + Val(c0[..j], 256)
    {
      ghost var low := h[..j];
      AddStep(h0, c0, low, u, j);
      U32Fits(h[j] + c[j]);
      U32Fits(u + (h[j] + c[j]));
      u := U32(u + U32(h[j] + c[j]));
      h[j] := u % 256;
      assert h[..j + 1] == low + [u % 256];
      DigitsSnoc(low, u % 256);
      u := u / 256;
    }
    Powers();
    assert h[..] == h[..17] && h0[..17] == h0 && c0 == c0[..17];
    ValBounds(h[..], 256);
    RemainderIs(Val(h0, 256) + Val(c0, 256), TWO136, u, Val(h[..], 256));
  }

  lemma EmptyVal(a: seq<int>, b: seq<int>)
    ensures Val(a[..0], 256) == 0 && Val(b[..0], 256) == 0 && Pow(256, 0) == 1 && Digits(a[..0], 256)
  {
  }

  // ---------------------------------------------------------------- multiplication by r

  function Coef(r: seq<int>, i: nat, j: nat): int
    requires |r| == 17 && i < 17 && j < 17
  {
    if j <= i then r[i - j] else 320 * r[i + 17 - j]
  }

  function Col(h: seq<int>, r: seq<int>, i: nat, n: nat): int
    requires |h| == 17 && |r| == 17 && i < 17 && n <= 17
  {
    if n == 0 then 0 else Col(h, r, i, n - 1) + h[n - 1] * Coef(r, i, n - 1)
  }

  function Row(r: seq<int>, j: nat): (s: seq<int>)
    requires |r| == 17 && j < 17
    ensures |s| == 17
  {
    seq(17, i requires 0 <= i < 17 => Coef(r, i, j))
  }

  function Cols(h: seq<int>, r: seq<int>, n: nat): (s: seq<int>)
    requires |h| == 17 && |r| == 17 && n <= 17
    ensures |s| == 17
  {
    seq(17, i requires 0 <= i < 17 => Col(h, r, i, n))
  }

  /** Limb products are at most 255 * 320 * 255, and seventeen of them fit a word. */
  lemma {:induction false} ColBound(h: seq<int>, r: seq<int>, i: nat, n: nat)
    requires |h| == 17 && |r| == 17 && i < 17 && n <= 17 && Digits(h, 256) && Digits(r, 256)
    ensures 0 <= Col(h, r, i, n) <= n * 20808000
  {
    if n > 0 {
      ColBound(h, r, i, n - 1);
      ProductBound(h[n - 1], Coef(r, i, n - 1), 255, 81600);
    }
  }

  lemma ProductBound(x: int, y: int, a: int, b: int)
    requires 0 <= x <= a && 0 <= y <= b
    ensures 0 <= x * y <= a * b
  {
    MulNonNeg(x, y);
    MulNonNeg(a - x, b);
    MulNonNeg(x, b - y);
    Distribute(a, x, b);
    Distribute(b, y, x);
  }

  /** Row j is r shifted up by j limbs; a limb shifted out at 2^136 comes back 320 times, since 2^136 - 320 = 64 P. */
  lemma {:induction false} RowIsShift(r: seq<int>, j: nat)
    requires |r| == 17 && j < 17
    ensures Cong(Val(Row(r, j), 256), Pow(256, j) * Val(r, 256), P)
  {
    if j == 0 {
      assert Row(r, 0) == r;
    } else {
      RowIsShift(r, j - 1);
      RowNext(r, j);
      hide Cong, Val, Row;
      var v := Val(Row(r, j - 1), 256);
      AddMultiple(256 * v, -64 * r[17 - j], P);
      SelfCong(256, P);
      CongMul(256, 256, v, Pow(256, j - 1) * Val(r, 256), P);
      Assoc(256, Pow(256, j - 1), Val(r, 256));
      CongTrans(Val(Row(r, j), 256), 256 * v, 256 * (Pow(256, j - 1) * Val(r, 256)), P);
    }
  }

  lemma RowNext(r: seq<int>, j: nat)
    requires |r| == 17 && 0 < j < 17
    ensures Val(Row(r, j), 256) == 256 * Val(Row(r, j - 1), 256) + (-64 * r[17 - j]) * P
  {
    var none: seq<int> := [];
    var prev, x := Row(r, j - 1), r[17 - j];
    assert Row(r, j) == [320 * x] + prev[..16];
    assert Pow(256, 1) == 256 && Pow(256, 0) == 1 && Val(none, 256) == 0;
    Powers();
    hide Val, Row, Pow;
    ValConcat([320 * x], prev[..16], 256);
    ValSnoc(none, 320 * x, 256);
    assert none + [320 * x] == [320 * x];
    ValPrefix(prev, 16, 256);
    assert prev[..17] == prev && prev[16] == x;
    ShiftOut(Val(prev[..16], 256), x);
  }

  lemma ShiftOut(v: int, x: int)
    ensures 320 * x + 256 * v == 256 * (v + x * TWO128) + (-64 * x) * P
  {
  }

  lemma {:induction false} ColsAreProduct(h: seq<int>, r: seq<int>, n: nat)
    requires |h| == 17 && |r| == 17 && n <= 17
    ensures Cong(Val(Cols(h, r, n), 256), Val(h[..n], 256) * Val(r, 256), P)
  {
    if n == 0 {
      ValZero(Cols(h, r, 0), 256);
    } else {
      ColsAreProduct(h, r, n - 1);
      ColsStep(h, r, n - 1);
      hide Cong, Val, Pow, Cols;
      RowIsShift(r, n - 1);
      var x, p, v, w := h[n - 1], Pow(256, n - 1), Val(r, 256), Val(Row(r, n - 1), 256);
      ValPrefix(h, n - 1, 256);
      JoinProducts(Val(Cols(h, r, n - 1), 256), Val(h[..n - 1], 256), x, p, v, w);
    }
  }

  lemma JoinProducts(c: int, a: int, x: int, p: int, v: int, w: int)
    requires Cong(c, a * v, P) && Cong(w, p * v, P)
    ensures Cong(c + x * w, (a + x * p) * v, P)
  {
    SelfCong(x, P);
    CongMul(x, x, w, p * v, P);
    CongAdd(c, a * v, x * w, x * (p * v), P);
    Assoc(x, p, v);
    Distribute(a, x * p, v);
  }

  lemma ColsStep(h: seq<int>, r: seq<int>, n: nat)
    requires |h| == 17 && |r| == 17 && n < 17
    ensures Val(Cols(h, r, n + 1), 256) == Val(Cols(h, r, n), 256) + h[n] * Val(Row(r, n), 256)
  {
    hide Val;
    ValLinear(Cols(h, r, n), Row(r, n), Cols(h, r, n + 1), h[n], 256);
  }

  lemma ColStart(h: seq<int>, r: seq<int>)
    requires |h| == 17 && |r| == 17
    ensures forall i: nat :: i < 17 ==> Col(h, r, i, 0) == 0
  {
  }

  /** One more product in a column, with every word operation, does not wrap. */
  lemma ColStep(h: seq<int>, r: seq<int>, i: nat, j: nat)
    requires |h| == 17 && |r| == 17 && i < 17 && j < 17 && Digits(h, 256) && Digits(r, 256)
    ensures U32(Col(h, r, i, j) + U32(h[j] * (if j <= i then r[i - j] else U32(320 * r[i + 17 - j])))) ==
      Col(h, r, i, j + 1)
  {
    hide U32;
    ColBound(h, r, i, j);
    if j > i { U32Fits(320 * r[i + 17 - j]); }
    ProductBound(h[j], Coef(r, i, j), 255, 81600);
    U32Fits(h[j] * Coef(r, i, j));
    U32Fits(Col(h, r, i, j) + h[j] * Coef(r, i, j));
  }

  method MulR(h: array<int>, r: array<int>, x: array<int>)
    requires h.Length == 17 && r.Length == 17 && x.Length == 17 && x != h && x != r
    requires Digits(h[..], 256) && Digits(r[..], 256)
    modifies x
    ensures forall i :: 0 <= i < 17 ==> 0 <= x[i] <= 353736000
    ensures Cong(Val(x[..], 256), Val(h[..], 256) * Val(r[..], 256), P)
  {
    ghost var hs, rs := h[..], r[..];
    ColStart(hs, rs);
    hide Col, Coef, U32, Digits;
    for i := 0 to 17
      invariant forall k :: 0 <= k < i ==> x[k] == Col(hs, rs, k, 17)
    {
      x[i] := 0;
      for j := 0 to 17
        invariant x[i] == Col(hs, rs, i, j)
        invariant forall k :: 0 <= k < i ==> x[k] == Col(hs, rs, k, 17)
      {
        ColStep(hs, rs, i, j);
        x[i] := U32(x[i] + U32(h[j] * (if j <= i then r[i - j] else U32(320 * r[i + 17 - j]))));
      }
    }
    forall i | 0 <= i < 17 ensures 0 <= x[i] <= 353736000 { ColBound(hs, rs, i, 17); }
    hide Cong, Val;
    assert x[..] == Cols(hs, rs, 17);
    ColsAreProduct(hs, rs, 17);
    assert hs[..17] == hs;
  }

  // ---------------------------------------------------------------- reduction

  method CarryPass(h: array<int>, u0: int) returns (u: int)
    requires h.Length == 17 && 0 <= u0 <= 500_000_000
    requires forall j :: 0 <= j < 17 ==> 0 <= h[j] <= 353736000
    modifies h
    ensures Digits(h[..16], 256) && h[16] == old(h[16])
    ensures Val(h[..16], 256) + u * TWO128 == Val(old(h[..16]), 256) + u0
    ensures 0 <= u <= 4_000_000
  {
    hide Val, Pow;
    ghost var h0 := h[..16];
    u := u0;
    EmptyVal(h0, h0);
    for j := 0 to 16
      invariant 0 <= u && u <= if j == 0 then u0 else 4_000_000
      invariant Digits(h[..j], 256) && h[j..16] == h0[j..] && h[16] == old(h[16])
      invariant Val(h[..j], 256) + u * Pow(256, j) == Val(h0[..j], 256) + u0
    {
      assert h[j] == h0[j] && h0[j] == old(h[j]);
      ghost var low := h[..j];
      CarryStep(low, u, h0[j], Val(h0[..j], 256) + u0);
      ValPrefix(h0, j, 256);
      u := U32(u + h[j]);
      h[j] := u % 256;
      assert h[..j + 1] == low + [u % 256];
      u := u / 256;
    }
    Powers();
    assert h0[..16] == h0;
  }

  /** The number folded at bit 130: what is above counts five times. */
  function Fold(v: int): int { v % TWO130 + 5 * (v / TWO130) }

  lemma FoldCong(v: int)
    ensures Cong(Fold(v), v, P)
  {
    var q := v / TWO130;
    assert v == Fold(v) + q * P;
    AddMultiple(Fold(v), q, P);
  }

  /** The two carry passes with the fold between them. */
  method Squeeze(h: array<int>)
    requires h.Length == 17
    requires forall j :: 0 <= j < 17 ==> 0 <= h[j] <= 353736000
    modifies h
    ensures Val(h[..], 256) == Fold(Val(old(h[..]), 256))
    ensures Digits(h[..], 256) && 0 <= Val(h[..], 256) < 2 * P
  {
    hide Val, Pow, Fold, U32, Digits;
    ghost var v := Val(h[..], 256);
    SplitTop(h[..]);
    assert h[..][..16] == h[..16];
    var u := CarryPass(h, 0);
    U32Fits(u + h[16]);
    u := U32(u + h[16]);
    ghost var low, top := h[..16], u;
    LowBound(low);
    FoldSplit(v, Val(low, 256), top);
    h[16] := u % 4;
    U32Fits(5 * (u / 4));
    u := U32(5 * (u / 4));
    DigitsSmall(low, h[..], 256);
    u := CarryPass(h, u);
    LowBound(h[..16]);
    U32Fits(u + h[16]);
    u := U32(u + h[16]);
    ghost var done := h[..16];
    h[16] := u;
    assert h[..] == done + [u];
    SplitTop(h[..]);
    assert h[..][..16] == done;
    DigitsSnoc(done, u);
  }

  lemma LowBound(low: seq<int>)
    requires |low| == 16 && Digits(low, 256)
    ensures 0 <= Val(low, 256) < TWO128
  {
    hide Val, Pow;
    ValBounds(low, 256);
    Powers();
  }

  lemma DigitsSmall(low: seq<int>, h: seq<int>, R: nat)
    requires |low| == 16 && |h| == 17 && Digits(low, R) && forall j :: 0 <= j < 16 ==> h[j] == low[j]
    ensures forall j :: 0 <= j < 16 ==> 0 <= h[j] < R
    ensures h[..16] == low
  {
  }

  lemma SplitTop(s: seq<int>)
    requires |s| == 17
    ensures Val(s, 256) == Val(s[..16], 256) + s[16] * TWO128
  {
    Powers();
  }

  lemma FoldSplit(v: int, low: int, top: int)
    requires v == low + top * TWO128 && 0 <= low < TWO128 && 0 <= top < 0x8000_0000
    ensures Fold(v) == low + (top % 4) * TWO128 + 5 * (top / 4)
    ensures Fold(v) < 2 * P
  {
    RemainderIs(v, TWO130, top / 4, low + (top % 4) * TWO128);
  }
}
