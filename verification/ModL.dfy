/** modL and reduce of tweetnacl.c. */
module ModL {
  // Reduction of 64 signed byte limbs modulo the order L of the Ed25519 group.

  import opened Limbs
  import Bits

  const ELL: nat := 0x10000000_00000000_00000000_00000000_14def9de_a2f79cd6_5812631a_5cf5d3ed
  const DELTA: nat := 0x14def9de_a2f79cd6_5812631a_5cf5d3ed
  const TWO256: nat := 0x1_00000000_00000000_00000000_00000000_00000000_00000000_00000000_00000000

  /** Limbs of the input: what 32 products of bytes and a byte can add up to. */
  const INPUT: int := 0x20_0000

  function LBytes(): (s: seq<int>)
    ensures |s| == 32
  {
    [0xed, 0xd3, 0xf5, 0x5c, 0x1a, 0x63, 0x12, 0x58, 0xd6, 0x9c, 0xf7, 0xa2, 0xde, 0xf9, 0xde, 0x14,
     0, 0, 0, 0, 0, 0, 0, 0, 0, 0, 0, 0, 0, 0, 0, 0x10]
  }

  lemma Powers()
    ensures Pow(256, 4) == 0x1_0000_0000 && Pow(256, 32) == TWO256
    ensures Pow(256, 8) == 0x1_0000_0000_0000_0000 && Pow(256, 12) == 0x1_0000_0000_0000_0000_0000_0000
    ensures Pow(256, 31) == 0x1000000_00000000_00000000_00000000_00000000_00000000_00000000_00000000
    ensures 256 * Pow(256, 31) == TWO256
  {
    assert Pow(256, 4) == 0x1_0000_0000;
    assert Pow(256, 32) == 256 * Pow(256, 31);
    hide Pow;
    PowAdd(256, 4, 4);
    PowAdd(256, 8, 4);
    PowAdd(256, 8, 8);
    PowAdd(256, 16, 16);
  }

  lemma LowBytes()
    ensures Val(LBytes()[..16], 256) == DELTA
  {
    var a, b := [0xed, 0xd3, 0xf5, 0x5c], [0x1a, 0x63, 0x12, 0x58];
    var c, d := [0xd6, 0x9c, 0xf7, 0xa2], [0xde, 0xf9, 0xde, 0x14];
    FourBytes(0xed, 0xd3, 0xf5, 0x5c);
    FourBytes(0x1a, 0x63, 0x12, 0x58);
    FourBytes(0xd6, 0x9c, 0xf7, 0xa2);
    FourBytes(0xde, 0xf9, 0xde, 0x14);
    assert LBytes()[..16] == a + b + c + d;
    hide Val, Pow, LBytes;
    ValConcat(a, b, 256);
    ValConcat(a + b, c, 256);
    ValConcat(a + b + c, d, 256);
    Powers();
  }

  lemma ZerosAbove(n: nat)
    requires 16 <= n <= 31
    ensures Val(LBytes()[..n], 256) == DELTA
  {
    var zeros := LBytes()[16..n];
    assert LBytes()[..n] == LBytes()[..16] + zeros;
    assert forall i :: 0 <= i < |zeros| ==> zeros[i] == 0;
    hide Val, Pow, LBytes;
    LowBytes();
    ValZero(zeros, 256);
    ValConcat(LBytes()[..16], zeros, 256);
  }

  /** L is the order of the group of Ed25519. */
  lemma GroupOrder()
    ensures ELL == Bits.Pow2(252) + 27742317777372353535851937790883648493
  {
    hide Bits.Pow2;
    Bits.Pow2Add(16, 16);
    Bits.Pow2Add(32, 32);
    Bits.Pow2Add(64, 64);
    Bits.Pow2Add(128, 64);
    Bits.Pow2Add(192, 32);
    Bits.Pow2Add(224, 28);
    SmallPowers();
  }

  lemma SmallPowers()
    ensures Bits.Pow2(16) == 0x1_0000 && Bits.Pow2(28) == 0x1000_0000
  {
    Bits.Pow2Add(14, 14);
    assert Bits.Pow2(14) == 0x4000;
  }

  lemma LBytesAreL()
    ensures Val(LBytes(), 256) == ELL
  {
    ZerosAbove(31);
    assert LBytes() == LBytes()[..31] + [0x10];
    hide Val, Pow;
    ValSnoc(LBytes()[..31], 0x10, 256);
    Powers();
  }

  lemma LByteRange(k: nat)
    requires k < 32
    ensures 0 <= LBytes()[k] <= 255 && (16 <= k < 31 ==> LBytes()[k] == 0)
  {
  }

  // ---------------------------------------------------------------- removing one top limb

  /** How large the carry of a row can be after k limbs, on input limbs or on limbs already reduced. */
  function CarryBound(wide: bool, k: nat): int {
    if k <= 16 then 0x400_0000
    else if k == 17 then 0x8_0000
    else if k == 18 then (if wide then 11000 else 2100)
    else if k == 19 then (if wide then 9000 else 20)
    else if wide then 9000 else 1
  }

  /** One limb of a row: x plus carry minus 16 t times a byte of L, split into a limb in -128 .. 127 and a carry. */
  lemma RowLimb(wide: bool, k: nat, x: int, carry: int, t: int)
    requires k < 20 && -CarryBound(wide, k) <= carry <= CarryBound(wide, k)
    requires -2113536 <= t <= 2113536
    requires if wide || k == 0 then -INPUT <= x <= INPUT else -128 <= x <= 127
    ensures var y := x + (carry - 16 * t * LBytes()[k]);
            var c := (y + 128) / 256;
            && -128 <= y - c * 256 <= 127 && -CarryBound(wide, k + 1) <= c <= CarryBound(wide, k + 1)
            && -0x4_0000_0000 <= 16 * t * LBytes()[k] <= 0x4_0000_0000
  {
    var l := LBytes()[k];
    LByteRange(k);
    hide LBytes;
    if k >= 16 {
      assert 16 * t * l == 0;
    } else {
      TimesByte(16 * t, l, 33816576);
    }
  }

  lemma TimesByte(u: int, l: int, b: int)
    requires -b <= u <= b && 0 <= l <= 255
    ensures -(255 * b) <= u * l <= 255 * b
  {
    MulNonNeg(b - u, l);
    MulNonNeg(b + u, l);
    MulNonNeg(255 - l, b);
    Distribute(b, u, l);
    Distribute(255, l, b);
  }

  /** The row so far: limbs base .. base + k - 1 have 16 t L subtracted, up to a carry into the next. */
  predicate RowSum(x: seq<int>, x0: seq<int>, t: int, base: nat, k: nat, carry: int)
    requires k <= 32
  {
    Val(x, 256) + carry * Pow(256, base + k) == Val(x0, 256) - 16 * t * (Pow(256, base) * Val(LBytes()[..k], 256))
  }

  lemma RowSumStep(x: seq<int>, x0: seq<int>, t: int, base: nat, k: nat, carry: int, c: int)
    requires k < 32 && base + k < |x| && RowSum(x, x0, t, base, k, carry)
    ensures var y := x[base + k] + (carry - 16 * t * LBytes()[k]);
            RowSum(x[base + k := y - c * 256], x0, t, base, k + 1, c)
  {
    var j, l := base + k, LBytes()[k];
    assert LBytes()[..k + 1] == LBytes()[..k] + [l];
    assert Pow(256, j + 1) == 256 * Pow(256, j);
    hide Val, LBytes, Pow;
    var y := x[j] + (carry - 16 * t * l);
    ValUpdate(x, j, y - c * 256, 256);
    ValSnoc(LBytes()[..k], l, 256);
    PowAdd(256, base, k);
    var d := carry - 16 * t * l - c * 256;
    assert y - c * 256 - x[j] == d;
    RowJoin(Val(x, 256), Val(x[j := y - c * 256], 256), Val(x0, 256), d, carry, 16 * t, l, c,
            Pow(256, base), Pow(256, k), Val(LBytes()[..k], 256));
  }

  lemma RowJoin(v1: int, v2: int, v0: int, d: int, carry: int, t: int, l: int, c: int, p: int, q: int, v: int)
    requires d == carry - t * l - c * 256 && v2 == v1 + d * (p * q) && v1 + carry * (p * q) == v0 - t * (p * v)
    ensures v2 + c * (256 * (p * q)) == v0 - t * (p * (v + l * q))
  {
    RowTerm(carry, t, l, c, p, q, v);
  }

  lemma RowTerm(carry: int, t: int, l: int, c: int, p: int, q: int, v: int)
    ensures (carry - t * l - c * 256) * (p * q) + c * (256 * (p * q)) ==
      carry * (p * q) + t * (p * v) - t * (p * (v + l * q))
  {
    var m := p * q;
    assert (carry - t * l - c * 256) * m == carry * m - (t * l) * m - (c * 256) * m;
    assert (c * 256) * m == c * (256 * m);
    assert p * (v + l * q) == p * v + p * (l * q);
    assert p * (l * q) == l * m;
    assert t * (p * v + l * m) == t * (p * v) + t * (l * m);
    Assoc(t, l, m);
  }

  /** The limbs when rows above i are done: those below i - 31 still as in the input, twenty reduced ones,
      then ones that took a last carry, then zeros. */
  predicate Ready(x: seq<int>, i: nat) {
    && |x| == 64 && 31 <= i <= 63
    && (forall j :: 0 <= j < i - 31 ==> -INPUT <= x[j] <= INPUT)
    && (if i == 63 then forall j :: 0 <= j < 64 ==> -INPUT <= x[j] <= INPUT
        else forall j :: i - 31 <= j <= i - 12 ==> -128 <= x[j] <= 127)
    && (forall j :: i - 12 < j <= i ==> -Top(j) <= x[j] <= Top(j))
    && (forall j :: i < j < 64 ==> x[j] == 0)
  }

  function Top(j: nat): int { if j <= 50 then 129 else 2113536 }

  lemma RowEnd(x: seq<int>, x0: seq<int>, t: int, base: nat, carry: int, v: int)
    requires RowSum(x, x0, t, base, 20, carry) && |x| == 64 && base + 32 < 64 && x[base + 32] == t
    ensures Val(x[base + 20 := x[base + 20] + carry][base + 32 := 0], 256) ==
      Val(x0, 256) - 16 * t * Pow(256, base) * ELL
  {
    hide Val, Pow, LBytes;
    var x1 := x[base + 20 := x[base + 20] + carry];
    ValUpdate(x, base + 20, x[base + 20] + carry, 256);
    ValUpdate(x1, base + 32, 0, 256);
    ZerosAbove(20);
    PowAdd(256, base, 32);
    Powers();
    EndTerm(t, Pow(256, base));
  }

  lemma EndTerm(t: int, p: int)
    ensures 16 * t * (p * DELTA) + t * (p * TWO256) == 16 * t * p * ELL
  {
    var u := t * p;
    assert 16 * t * (p * DELTA) == 16 * DELTA * u;
    assert t * (p * TWO256) == TWO256 * u;
    assert 16 * t * p * ELL == 16 * ELL * u;
  }

  /** Row i: 16 x[i] L 256^(i-32) is subtracted, which clears limb i. */
  method Row(x: array<int>, i: nat)
    requires x.Length == 64 && 32 <= i <= 63 && Ready(x[..], i)
    modifies x
    ensures Ready(x[..], i - 1)
    ensures Val(x[..], 256) == Val(old(x[..]), 256) - 16 * old(x[i]) * Pow(256, i - 32) * ELL
  {
    hide Val, Pow, RowSum, LBytes, CarryBound, Ready;
    ghost var x0, t, wide, base := x[..], x[i], i == 63, i - 32;
    ReadyAt(x0, i);
    RowStart(x0, t, base);
    var carry, k := 0, 0;
    BoundPositive(wide);
    while k < 20
      invariant 0 <= k <= 20
      invariant -CarryBound(wide, k) <= carry <= CarryBound(wide, k)
      invariant forall j :: base <= j < base + k ==> -128 <= x[j] <= 127
      invariant forall j :: 0 <= j < base || base + k <= j < 64 ==> x[j] == x0[j]
      invariant RowSum(x[..], x0, t, base, k, carry)
    {
      var j := i - 32 + k;
      RowInput(x0, i, k);
      RowLimb(wide, k, x0[j], carry, t);
      ghost var xs := x[..];
      x[j] := x[j] + (carry - 16 * x[i] * LBytes()[k]);
      var c := (x[j] + 128) / 256;
      RowSumStep(xs, x0, t, base, k, carry, c);
      x[j] := x[j] - c * 256;
      assert x[..] == xs[j := xs[j] + (carry - 16 * t * LBytes()[k]) - c * 256];
      carry := c;
      k := k + 1;
    }
    ghost var xs := x[..];
    RowEnd(xs, x0, t, base, carry, 0);
    x[i - 12] := x[i - 12] + carry;
    x[i] := 0;
    assert x[..] == xs[base + 20 := xs[base + 20] + carry][base + 32 := 0];
    FinalCarry(wide, carry);
    ReadyNext(x0, xs, x[..], i, carry);
  }

  lemma RowStart(x0: seq<int>, t: int, base: nat)
    ensures RowSum(x0, x0, t, base, 0, 0)
  {
    assert LBytes()[..0] == [];
  }

  lemma BoundPositive(wide: bool)
    ensures CarryBound(wide, 0) >= 0
  {
  }

  lemma FinalCarry(wide: bool, carry: int)
    requires -CarryBound(wide, 20) <= carry <= CarryBound(wide, 20)
    ensures wide ==> -9000 <= carry <= 9000
    ensures !wide ==> -1 <= carry <= 1
  {
  }

  lemma ReadyAt(x: seq<int>, i: nat)
    requires Ready(x, i)
    ensures |x| == 64 && -2113536 <= x[i] <= 2113536
  {
  }

  lemma RowInput(x: seq<int>, i: nat, k: nat)
    requires Ready(x, i) && 32 <= i && k < 20
    ensures if i == 63 || k == 0 then -INPUT <= x[i - 32 + k] <= INPUT else -128 <= x[i - 32 + k] <= 127
  {
  }

  lemma ReadyNext(x0: seq<int>, xs: seq<int>, x: seq<int>, i: nat, carry: int)
    requires Ready(x0, i) && 32 <= i <= 63 && |xs| == |x| == 64
    requires forall j :: i - 32 <= j < i - 12 ==> -128 <= xs[j] <= 127
    requires forall j :: 0 <= j < i - 32 || i - 12 <= j < 64 ==> xs[j] == x0[j]
    requires x == xs[i - 12 := xs[i - 12] + carry][i := 0]
    requires if i == 63 then -9000 <= carry <= 9000 else -1 <= carry <= 1
    ensures Ready(x, i - 1)
  {
  }

  // ---------------------------------------------------------------- the last reduction

  /** A carry chain of bytes, with something added at every limb. */
  lemma ByteStep(low: seq<int>, y: int, k: nat, sum: int, carry: int)
    requires |low| == k && Val(low, 256) + carry * Pow(256, k) == sum
    ensures Val(low + [(y + carry) % 256], 256) + ((y + carry) / 256) * Pow(256, k + 1) == sum + y * Pow(256, k)
  {
    hide Val;
    ValSnoc(low, (y + carry) % 256, 256);
    assert Pow(256, k + 1) == 256 * Pow(256, k);
    hide Pow;
    var z, p := y + carry, Pow(256, k);
    Distribute(y, carry, p);
    Distribute(256 * (z / 256), z % 256, p);
    Assoc(z / 256, 256, p);
  }

  /** Where the number stands before the last subtraction, with q the quotient guessed from the top limb. */
  lemma GuessBounds(x: seq<int>, v: int)
    requires Ready(x, 31) && v == Val(x[..32], 256)
    ensures var q := x[31] / 16;
            -9 <= q <= 8 && 0 < v - q * ELL + ELL && v - q * ELL < ELL
  {
    hide Val, Pow;
    ValPrefix(x, 31, 256);
    LowLimbs(x[..31]);
    Powers();
  }

  lemma {:induction false} LowLimbs(x: seq<int>)
    requires forall j :: 0 <= j < |x| ==> -129 <= x[j] <= 129
    ensures -129 * Pow(256, |x|) <= 255 * Val(x, 256) <= 129 * Pow(256, |x|)
    decreases |x|
  {
    if x != [] {
      var n := |x| - 1;
      LowLimbs(x[..n]);
      PowPositive(256, n);
      assert Pow(256, n + 1) == 256 * Pow(256, n);
      hide Pow;
      LimbTerm(x[n], Pow(256, n));
    }
  }

  lemma LimbTerm(x: int, p: int)
    requires -129 <= x <= 129 && p > 0
    ensures -129 * p <= x * p <= 129 * p
  {
    MulNonNeg(129 - x, p);
    MulNonNeg(129 + x, p);
    Distribute(129, x, p);
  }

  /** First pass: subtract q L and bring the limbs into bytes; the carry out is the borrow. */
  method SubtractGuess(x: array<int>) returns (carry: int)
    requires x.Length == 64 && Ready(x[..], 31)
    modifies x
    ensures forall j :: 0 <= j < 32 ==> 0 <= x[j] < 256
    ensures Val(x[..32], 256) + carry * TWO256 == Val(old(x[..32]), 256) - old(x[31]) / 16 * ELL
  {
    hide Val, Pow, Ready, LBytes;
    ghost var x0, q := x[..32], x[31] / 16;
    TopLimb(x[..]);
    EmptyVal(x0);
    carry := 0;
    for j := 0 to 32
      modifies x
      invariant forall k :: 0 <= k < j ==> 0 <= x[k] < 256
      invariant forall k :: j <= k < 32 ==> x[k] == x0[k]
      invariant -9000 <= carry <= 9000
      invariant Val(x[..j], 256) + carry * Pow(256, j) == Val(x0[..j], 256) - q * Val(LBytes()[..j], 256)
    {
      ghost var low, carried := x[..j], carry;
      var quotient := x[31] / 16;
      assert quotient == q;
      LByteRange(j);
      GuessTerm(x0, q, j);
      SmallLimb(x0, j);
      ByteStep(low, x0[j] - q * LBytes()[j], j, Val(x0[..j], 256) - q * Val(LBytes()[..j], 256), carry);
      GuessSize(x0[j], q, LBytes()[j]);
      x[j] := x[j] + (carry - quotient * LBytes()[j]);
      carry := x[j] / 256;
      x[j] := x[j] % 256;
      assert x[..j + 1] == low + [(x0[j] - q * LBytes()[j] + carried) % 256];
    }
    Powers();
    LBytesAreL();
    assert x0[..32] == x0 && LBytes()[..32] == LBytes();
  }

  lemma TopLimb(x: seq<int>)
    requires Ready(x, 31)
    ensures |x| == 64 && -9 <= x[31] / 16 <= 8 && forall j :: 0 <= j < 32 ==> -129 <= x[..32][j] <= 129
  {
  }

  lemma EmptyVal(x: seq<int>)
    ensures Val(x[..0], 256) == 0 && Val(LBytes()[..0], 256) == 0 && Pow(256, 0) == 1
  {
  }

  lemma SmallLimb(x: seq<int>, j: nat)
    requires |x| == 32 && j < 32 && forall k :: 0 <= k < 32 ==> -129 <= x[k] <= 129
    ensures -129 <= x[j] <= 129
  {
  }

  lemma GuessTerm(x: seq<int>, q: int, j: nat)
    requires |x| == 32 && j < 32
    ensures Val(x[..j + 1], 256) - q * Val(LBytes()[..j + 1], 256) ==
            Val(x[..j], 256) - q * Val(LBytes()[..j], 256) + (x[j] - q * LBytes()[j]) * Pow(256, j)
  {
    hide Val, Pow, LBytes;
    ValPrefix(x, j, 256);
    ValPrefix(LBytes(), j, 256);
    var l, p, v := LBytes()[j], Pow(256, j), Val(LBytes()[..j], 256);
    Distribute(x[j], q * l, p);
    Assoc(q, l, p);
    assert q * (v + l * p) == q * v + q * (l * p);
  }

  lemma GuessSize(x: int, q: int, l: int)
    requires -129 <= x <= 129 && -9 <= q <= 8 && 0 <= l <= 255
    ensures -3000 <= x - q * l <= 3000
  {
    TimesByte(q, l, 9);
  }

  /** Second pass: take the borrow times L away again. */
  method AddBack(x: array<int>, carry: int)
    requires x.Length == 64 && (carry == 0 || carry == -1) && forall j :: 0 <= j < 32 ==> 0 <= x[j] < 256
    modifies x
    ensures forall j :: 0 <= j < 32 ==> 0 <= x[j] <= 510
    ensures forall j :: 32 <= j < 64 ==> x[j] == old(x[j])
    ensures Val(x[..32], 256) == Val(old(x[..32]), 256) - carry * ELL
  {
    hide Val, Pow, LBytes;
    ghost var x0, xs := x[..32], x[..];
    for j := 0 to 32
      modifies x
      invariant forall k :: 0 <= k < j ==> x[k] == x0[k] - carry * LBytes()[k]
      invariant forall k :: j <= k < 64 ==> x[k] == xs[k]
    {
      x[j] := x[j] - carry * LBytes()[j];
    }
    forall j | 0 <= j < 32 ensures 0 <= x[j] <= 510 { LByteRange(j); }
    assert forall j :: 0 <= j < 32 ==> x[..32][j] == x0[j] + (-carry) * LBytes()[j];
    ValLinear(x0, LBytes(), x[..32], -carry, 256);
    LBytesAreL();
  }

  /** Third pass: carry once more and write the bytes; what leaves the top is dropped. */
  method WriteOut(r: array<int>, x: array<int>)
    requires r.Length >= 32 && x.Length == 64 && r != x && forall j :: 0 <= j < 32 ==> 0 <= x[j] <= 510
    modifies r, x
    ensures Digits(r[..32], 256) && Val(r[..32], 256) == Val(old(x[..32]), 256) % TWO256
    ensures r[32..] == old(r[32..])
  {
    hide Val, Pow;
    ghost var y, r0 := x[..], r[..];
    ghost var c := 0;
    EmptyVal(y);
    for i := 0 to 32
      modifies r, x
      invariant x[i] == y[i] + c && 0 <= c <= 2
      invariant forall k :: i < k < 64 ==> x[k] == y[k]
      invariant forall k :: 0 <= k < i ==> 0 <= r[k] < 256
      invariant forall k :: 32 <= k < r.Length ==> r[k] == r0[k]
      invariant Val(r[..i], 256) + c * Pow(256, i) == Val(y[..i], 256)
    {
      ghost var low := r[..i];
      ValPrefix(y, i, 256);
      ByteStep(low, y[i], i, Val(y[..i], 256), c);
      x[i + 1] := x[i + 1] + x[i] / 256;
      r[i] := x[i] % 256;
      assert r[..i + 1] == low + [(y[i] + c) % 256];
      c := x[i] / 256;
    }
    Powers();
    assert y[..32] == old(x[..32]) && Digits(r[..32], 256);
    ValBounds(r[..32], 256);
    RemainderIs(Val(y[..32], 256), TWO256, c, Val(r[..32], 256));
  }

  lemma BorrowIs(w: int, z: int, carry: int)
    requires z + carry * TWO256 == w && 0 <= z < TWO256 && 0 < w + ELL && w < ELL
    ensures carry == if w < 0 then -1 else 0
  {
  }

  lemma ResidueIs(v0: int, v: int, q: int, w: int, carry: int, z: int, y: int)
    requires Cong(v, v0, ELL) && w == v - q * ELL && 0 < w + ELL && w < ELL
    requires carry == (if w < 0 then -1 else 0) && z + carry * TWO256 == w && y == z - carry * ELL
    ensures y % TWO256 == v0 % ELL
  {
    var m := w - carry * ELL;
    assert 0 <= m < ELL;
    RemainderIs(y, TWO256, -carry, m);
    RemainderIs(v, ELL, q + carry, m);
  }

  /** For every input in range, the 32 bytes of the one number in [0, L) congruent to it modulo L. */
  method Reduction(r: array<int>, x: array<int>)
    requires r.Length >= 32 && x.Length == 64 && r != x && forall j :: 0 <= j < 64 ==> -INPUT <= x[j] <= INPUT
    modifies r, x
    ensures Digits(r[..32], 256) && Val(r[..32], 256) == Val(old(x[..]), 256) % ELL
    ensures r[32..] == old(r[32..])
  {
    hide Val, Pow, Ready, Cong, Digits;
    ghost var x0 := x[..];
    ReadyStart(x0);
    SelfCong(Val(x0, 256), ELL);
    var i := 63;
    while i >= 32
      modifies x
      invariant 31 <= i <= 63 && Ready(x[..], i) && Cong(Val(x[..], 256), Val(x0, 256), ELL)
    {
      ghost var v, t := Val(x[..], 256), x[i];
      Row(x, i);
      RowCong(v, t, Pow(256, i - 32), Val(x[..], 256), Val(x0, 256));
      i := i - 1;
    }
    ghost var xs := x[..];
    UpperZero(xs);
    GuessBounds(xs, Val(xs[..32], 256));
    assert x[..32] == xs[..32] && x[31] == xs[31];
    var carry := SubtractGuess(x);
    ghost var z, w := Val(x[..32], 256), Val(xs[..32], 256) - xs[31] / 16 * ELL;
    BytesBelow(x[..32]);
    BorrowIs(w, z, carry);
    AddBack(x, carry);
    ResidueIs(Val(x0, 256), Val(xs[..32], 256), xs[31] / 16, w, carry, z, Val(x[..32], 256));
    WriteOut(r, x);
  }

  lemma ReadyStart(x: seq<int>)
    requires |x| == 64 && forall j :: 0 <= j < 64 ==> -INPUT <= x[j] <= INPUT
    ensures Ready(x, 63)
  {
  }

  lemma RowCong(v: int, t: int, p: int, v': int, v0: int)
    requires v' == v - 16 * t * p * ELL && Cong(v, v0, ELL)
    ensures Cong(v', v0, ELL)
  {
    AddMultiple(v, -(16 * t * p), ELL);
  }

  lemma UpperZero(x: seq<int>)
    requires Ready(x, 31)
    ensures |x| == 64 && Val(x, 256) == Val(x[..32], 256)
  {
    assert x == x[..32] + x[32..];
    assert forall j :: 0 <= j < 32 ==> x[32..][j] == x[32 + j];
    hide Val;
    ValZero(x[32..], 256);
    ValConcat(x[..32], x[32..], 256);
  }

  lemma BytesBelow(x: seq<int>)
    requires |x| == 32 && forall j :: 0 <= j < 32 ==> 0 <= x[j] < 256
    ensures 0 <= Val(x, 256) < TWO256
  {
    hide Val, Pow;
    ValBounds(x, 256);
    Powers();
  }

  // ---------------------------------------------------------------- its callers

  /** A 64-byte hash is replaced by its residue modulo L, in the lower 32 bytes; the upper ones are cleared. */
  method Reduce(r: array<int>)
    requires r.Length == 64 && Digits(r[..], 256)
    modifies r
    ensures Digits(r[..32], 256) && Val(r[..32], 256) == Val(old(r[..]), 256) % ELL
    ensures forall i :: 32 <= i < 64 ==> r[i] == 0
  {
    hide Val;
    ghost var r0 := r[..];
    var x := new int[64];
    for i := 0 to 64
      modifies x
      invariant forall k :: 0 <= k < i ==> x[k] == r0[k]
    {
      x[i] := r[i];
    }
    assert x[..] == r0;
    for i := 0 to 64
      modifies r
      invariant forall k :: 0 <= k < i ==> r[k] == 0
    {
      r[i] := 0;
    }
    assert forall j :: 0 <= j < 64 ==> x[j] == r0[j];
    assert x[..] == r0;
    ghost var zeros := r[32..];
    assert forall k :: 0 <= k < 32 ==> zeros[k] == 0;
    Reduction(r, x);
    assert r[32..] == zeros;
    forall i | 32 <= i < 64 ensures r[i] == 0 {
      assert r[i] == r[32..][i - 32];
    }
  }

  /** One product of bytes added at its place. */
  lemma ProductTerm(v: int, hi: int, pi: int, low: int, dj: int, pj: int)
    ensures v + hi * pi * low + hi * dj * (pi * pj) == v + hi * pi * (low + dj * pj)
  {
    var a := hi * pi;
    assert a * (low + dj * pj) == a * low + a * (dj * pj);
    assert a * (dj * pj) == hi * dj * (pi * pj) by {
      assert (hi * pi) * (dj * pj) == hi * (pi * (dj * pj));
      assert pi * (dj * pj) == dj * (pi * pj);
      Assoc(hi, dj, pi * pj);
    }
  }

  /** The second half of a signature: r + h * d modulo L, for a 32-byte nonce r, hash h and secret d. */
  method Answer(sm: array<int>, r: seq<int>, h: seq<int>, d: seq<int>)
    requires sm.Length >= 32 && |r| >= 32 && |h| >= 32 && |d| >= 32
    requires Digits(r, 256) && Digits(h, 256) && Digits(d, 256)
    modifies sm
    ensures Digits(sm[..32], 256)
    ensures Val(sm[..32], 256) == (Val(r[..32], 256) + Val(h[..32], 256) * Val(d[..32], 256)) % ELL
    ensures sm[32..] == old(sm[32..])
  {
    hide Val, Pow;
    ghost var v, vd := Val(r[..32], 256), Val(d[..32], 256);
    var x := new int[64];
    for i := 0 to 64
      modifies x
      invariant forall k :: 0 <= k < i ==> x[k] == 0
    {
      x[i] := 0;
    }
    for i := 0 to 32
      modifies x
      invariant forall k :: 0 <= k < i ==> x[k] == r[k]
      invariant forall k :: i <= k < 64 ==> x[k] == 0
    {
      x[i] := r[i];
    }
    StartOfSum(x[..], r[..32], h, vd);
    for i := 0 to 32
      modifies x
      invariant Val(x[..], 256) == v + Val(h[..i], 256) * vd
      invariant forall k :: 0 <= k < 64 ==> 0 <= x[k] <= 255 + 65025 * i
    {
      EmptyVal(d);
      ghost var row := v + Val(h[..i], 256) * vd;
      for j := 0 to 32
        modifies x
        invariant Val(x[..], 256) == row + h[i] * Pow(256, i) * Val(d[..j], 256)
        invariant forall k :: 0 <= k < i + j ==> 0 <= x[k] <= 255 + 65025 * (i + 1)
        invariant forall k :: i + j <= k < 64 ==> 0 <= x[k] <= 255 + 65025 * i
      {
        ghost var s := x[..];
        ByteProduct(h[i], d[j]);
        x[i + j] := x[i + j] + h[i] * d[j];
        assert x[..] == s[i + j := s[i + j] + h[i] * d[j]];
        ValUpdate(s, i + j, s[i + j] + h[i] * d[j], 256);
        PowAdd(256, i, j);
        ValPrefix(d, j, 256);
        ProductTerm(row, h[i], Pow(256, i), Val(d[..j], 256), d[j], Pow(256, j));
      }
      ValPrefix(h, i, 256);
      Distribute(Val(h[..i], 256), h[i] * Pow(256, i), vd);
    }
    Reduction(sm, x);
  }

  lemma ByteProduct(a: int, b: int)
    requires 0 <= a < 256 && 0 <= b < 256
    ensures 0 <= a * b <= 65025
  {
    MulNonNeg(a, b);
    MulNonNeg(255 - a, b);
    Distribute(255, a, b);
  }

  lemma StartOfSum(x: seq<int>, r: seq<int>, h: seq<int>, vd: int)
    requires |x| == 64 && |r| == 32
    requires (forall k :: 0 <= k < 32 ==> x[k] == r[k]) && forall k :: 32 <= k < 64 ==> x[k] == 0
    ensures Val(x, 256) == Val(r, 256) + Val(h[..0], 256) * vd
  {
    assert x == r + x[32..] && forall k :: 0 <= k < 32 ==> x[32..][k] == x[32 + k];
    EmptyVal(h);
    hide Val;
    ValZero(x[32..], 256);
    ValConcat(r, x[32..], 256);
  }
}
