/** crypto_onetimeauth of tweetnacl.c. */
module Poly1305Mac {
  // The block loop, the clamp, the canonical residue and the tag.

  import opened Limbs
  import opened Poly1305
  import opened Bits
  import Compare

  // ---------------------------------------------------------------- masks on bytes are masks on numbers

  /** And works on the low bits and on the rest separately. */
  lemma {:induction false} AndSplit(k: nat, a: int, x: int, b: int, y: int)
    requires 0 <= a < Pow2(k) && 0 <= b < Pow2(k)
    ensures And(a + x * Pow2(k), b + y * Pow2(k)) == And(a, b) + And(x, y) * Pow2(k)
    decreases k
  {
    hide And;
    if k == 0 {
      AndMask(0);
    } else {
      var p := Pow2(k - 1);
      AndSplit(k - 1, a / 2, x, b / 2, y);
      HalfOf(a, x, p);
      HalfOf(b, y, p);
      AndStep(a + x * Pow2(k), b + y * Pow2(k));
      AndStep(a, b);
      Assoc(2, p, And(x, y));
    }
  }

  lemma HalfOf(a: int, x: int, p: nat)
    ensures (a + x * (2 * p)) / 2 == a / 2 + x * p && (a + x * (2 * p)) % 2 == a % 2
  {
    assert x * (2 * p) == 2 * (x * p);
  }

  function AndAll(a: seq<int>, b: seq<int>): (c: seq<int>)
    requires |a| == |b|
    ensures |c| == |a|
  {
    seq(|a|, i requires 0 <= i < |a| => And(a[i], b[i]))
  }

  /** Masking every byte masks the number. */
  lemma {:induction false} AndBytes(a: seq<int>, b: seq<int>)
    requires |a| == |b| && Digits(a, 256) && Digits(b, 256)
    ensures Val(AndAll(a, b), 256) == And(Val(a, 256), Val(b, 256))
    decreases |a|
  {
    hide And;
    if a == [] {
      AndMask(0);
    } else {
      var n := |a| - 1;
      AndBytes(a[..n], b[..n]);
      assert AndAll(a, b)[..n] == AndAll(a[..n], b[..n]);
      ValBounds(a[..n], 256);
      ValBounds(b[..n], 256);
      PowIsPow2(n);
      AndSplit(8 * n, Val(a[..n], 256), a[n], Val(b[..n], 256), b[n]);
    }
  }

  /** The bytes of CLAMP. */
  function ClampBytes(): seq<int> {
    [255, 255, 255, 15, 252, 255, 255, 15, 252, 255, 255, 15, 252, 255, 255, 15]
  }

  lemma ClampBytesAreClamp()
    ensures Val(ClampBytes(), 256) == CLAMP
  {
    var lo, hi := [255, 255, 255, 15], [252, 255, 255, 15];
    FourBytes(255, 255, 255, 15);
    FourBytes(252, 255, 255, 15);
    hide Val;
    assert ClampBytes() == lo + hi + hi + hi;
    ValConcat(lo, hi, 256);
    ValConcat(lo + hi, hi, 256);
    ValConcat(lo + hi + hi, hi, 256);
    assert Pow(256, 4) == 0x1_0000_0000;
    PowAdd(256, 4, 4);
    PowAdd(256, 4, 8);
  }

  lemma ByteMask(x: int)
    requires 0 <= x < 256
    ensures And(x, 255) == x
  {
    hide And;
    Powers();
    MaskIsMod(x, 8);
  }

  method CopyKey(r: array<int>, k: seq<int>)
    requires r.Length == 17 && |k| == 32
    modifies r
    ensures r[..] == k[..16] + [0]
  {
    for j := 0 to 17
      invariant forall i :: 0 <= i < j ==> r[i] == 0
    {
      r[j] := 0;
    }
    for j := 0 to 16
      invariant r[16] == 0 && forall i :: 0 <= i < j ==> r[i] == k[i]
    {
      r[j] := k[j];
    }
  }

  /** r: the first sixteen key bytes, seven of them masked. */
  method LoadR(r: array<int>, k: seq<int>)
    requires r.Length == 17 && |k| == 32 && Digits(k, 256)
    modifies r
    ensures Digits(r[..], 256) && Val(r[..], 256) == And(Val(k[..16], 256), CLAMP)
    ensures forall j :: j in {3, 7, 11, 15} ==> r[j] == k[j] % 16
    ensures forall j :: j in {4, 8, 12} ==> r[j] == k[j] - k[j] % 4
    ensures forall j :: j in {0, 1, 2, 5, 6, 9, 10, 13, 14} ==> r[j] == k[j]
    ensures r[16] == 0
  {
    hide And, Val, Digits;
    CopyKey(r, k);
    MasksOf(k);
    assert r[16] == r[..][16] && forall i :: 0 <= i < 16 ==> r[i] == r[..][i] == k[i];
    r[3] := And(r[3], 15);
    r[4] := And(r[4], 252);
    r[7] := And(r[7], 15);
    r[8] := And(r[8], 252);
    r[11] := And(r[11], 15);
    r[12] := And(r[12], 252);
    r[15] := And(r[15], 15);
    ClampedLimbs(r[..], k);
  }

  /** The two masks on bytes: of all but the low four bits, and of all but the high six. */
  lemma Masks(x: int)
    requires 0 <= x < 256
    ensures And(x, 15) == x % 16 && And(x, 252) == x - x % 4
  {
    hide And;
    MaskIsMod(x, 4);
    assert Pow2(4) == 16;
    HighSix(x, x / 4);
  }

  lemma HighSix(x: int, y: int)
    requires 0 <= x < 256 && y == x / 4
    ensures And(x, 252) == 4 * y
  {
    hide And;
    AndStep(x, 252);
    AndStep(x / 2, 126);
    MaskIsMod(x / 2 / 2, 6);
    SixBits();
    hide Pow2;
    assert x / 2 / 2 == y && y % 64 == y;
  }

  lemma SixBits()
    ensures Pow2(6) == 64
  {
  }

  lemma MasksOf(k: seq<int>)
    requires Digits(k, 256)
    ensures forall j :: 0 <= j < |k| ==> And(k[j], 15) == k[j] % 16 && And(k[j], 252) == k[j] - k[j] % 4
  {
    forall j | 0 <= j < |k| ensures And(k[j], 15) == k[j] % 16 && And(k[j], 252) == k[j] - k[j] % 4 { Masks(k[j]); }
  }

  lemma ClampedLimbs(r: seq<int>, k: seq<int>)
    requires |r| == 17 && |k| == 32 && Digits(k, 256) && r[16] == 0
    requires forall i :: 0 <= i < 16 && ClampBytes()[i] == 255 ==> r[i] == k[i]
    requires forall i :: 0 <= i < 16 && ClampBytes()[i] != 255 ==> r[i] == And(k[i], ClampBytes()[i])
    ensures Digits(r, 256) && Val(r, 256) == And(Val(k[..16], 256), CLAMP)
  {
    hide And, Val;
    forall i | 0 <= i < 16 ensures r[i] == AndAll(k[..16], ClampBytes())[i] && 0 <= r[i] < 256 {
      if ClampBytes()[i] == 255 { ByteMask(k[i]); } else { AndOfBytes(k[i], ClampBytes()[i]); }
    }
    assert r[..16] == AndAll(k[..16], ClampBytes());
    SplitTop(r);
    AndBytes(k[..16], ClampBytes());
    ClampBytesAreClamp();
  }

  lemma BitProduct(a: int, b: int)
    requires (a == 0 || a == 1) && (b == 0 || b == 1)
    ensures 0 <= a * b <= 1
  {
  }

  lemma {:induction false} AndBounds(x: int, y: int, k: nat)
    requires 0 <= x < Pow2(k) && 0 <= y < Pow2(k)
    ensures 0 <= And(x, y) < Pow2(k)
    decreases k
  {
    if k > 0 {
      hide And;
      AndBounds(x / 2, y / 2, k - 1);
      AndStep(x, y);
      BitProduct(x % 2, y % 2);
    }
  }

  lemma AndOfBytes(x: int, y: int)
    requires 0 <= x < 256 && 0 <= y < 256
    ensures 0 <= And(x, y) < 256
  {
    hide And;
    Powers();
    AndBounds(x, y, 8);
  }

  // ---------------------------------------------------------------- blocks

  method LoadBlock(c: array<int>, m: seq<int>, pos: nat) returns (j: nat)
    requires c.Length == 17 && pos < |m|
    modifies c
    ensures j == if |m| - pos < 16 then |m| - pos else 16
    ensures c[..] == m[pos..pos + j] + [1] + seq(16 - j, _ => 0)
  {
    for i := 0 to 17
      invariant forall k :: 0 <= k < i ==> c[k] == 0
    {
      c[i] := 0;
    }
    j := 0;
    while j < 16 && j < |m| - pos
      invariant 0 <= j <= 16 && j <= |m| - pos
      invariant forall k :: 0 <= k < j ==> c[k] == m[pos + k]
      invariant forall k :: j <= k < 17 ==> c[k] == 0
    {
      c[j] := m[pos + j];
      j := j + 1;
    }
    c[j] := 1;
  }

  lemma PaddedBlock(b: seq<int>, pad: seq<int>)
    requires |b| + |pad| == 16 && Digits(b, 256) && forall i :: 0 <= i < |pad| ==> pad[i] == 0
    ensures Val(b + [1] + pad, 256) == BlockNumber(b) && Digits(b + [1] + pad, 256)
    ensures 0 <= BlockNumber(b) < 2 * TWO128
  {
    hide Val;
    ValConcat(b + [1], pad, 256);
    ValZero(pad, 256);
    ValSnoc(b, 1, 256);
    ValBounds(b, 256);
    Powers();
    PowUpTo(|b|, 16);
  }

  lemma {:induction false} PowUpTo(m: nat, n: nat)
    requires m <= n
    ensures Pow(256, m) <= Pow(256, n)
    decreases n
  {
    if m < n { PowUpTo(m, n - 1); }
  }

  lemma LastIs(pos: nat, j: nat, n: nat)
    requires pos < n && pos % 16 == 0 && j == if n - pos < 16 then n - pos else 16
    ensures LastLen(pos + j) == j
  {
  }

  /** The accumulator after one more block. */
  lemma AccumulateBlock(m: seq<int>, r: int, pos: nat, j: nat)
    requires pos < |m| && pos % 16 == 0 && j == if |m| - pos < 16 then |m| - pos else 16
    ensures Accumulate(m[..pos + j], r) == ((Accumulate(m[..pos], r) + BlockNumber(m[pos..pos + j])) * r) % P
  {
    hide BlockNumber;
    var t := m[..pos + j];
    LastIs(pos, j, |m|);
    assert t[..pos] == m[..pos] && t[pos..] == m[pos..pos + j];
    hide LastLen;
  }

  /** One round of the block loop on the numbers the limbs stand for. */
  lemma RoundMeaning(h: int, acc: int, b: int, h1: int, r: int, x: int, h2: int)
    requires Cong(h, acc, P) && h1 == (h + b) % TWO136 && 0 <= h < 2 * P && 0 <= b < 2 * TWO128
    requires Cong(x, h1 * r, P) && h2 == Fold(x)
    ensures Cong(h2, ((acc + b) * r) % P, P)
  {
    RemainderIs(h + b, TWO136, 0, h + b);
    hide Cong, Fold;
    FoldCong(x);
    SelfCong(b, P);
    SelfCong(r, P);
    CongAdd(h, acc, b, b, P);
    CongMul(h1, acc + b, r, r, P);
    CongMod((acc + b) * r, P);
    CongChain(h2, x, h1 * r, (acc + b) * r, ((acc + b) * r) % P, P);
  }

  lemma CongChain(a: int, b: int, c: int, d: int, e: int, m: nat)
    requires m > 0 && Cong(a, b, m) && Cong(b, c, m) && Cong(c, d, m) && Cong(e, d, m)
    ensures Cong(a, e, m)
  {
  }

  method Block(h: array<int>, r: array<int>, c: array<int>, x: array<int>, ghost b: int, ghost acc: int)
    requires h.Length == 17 && r.Length == 17 && c.Length == 17 && x.Length == 17
    requires h != r && h != c && h != x && r != c && r != x && c != x
    requires Digits(h[..], 256) && Digits(r[..], 256) && Digits(c[..], 256) && Val(c[..], 256) == b
    requires 0 <= b < 2 * TWO128 && 0 <= Val(h[..], 256) < 2 * P && Cong(Val(h[..], 256), acc, P)
    modifies h, x
    ensures Digits(h[..], 256) && 0 <= Val(h[..], 256) < 2 * P
    ensures Cong(Val(h[..], 256), ((acc + b) * Val(r[..], 256)) % P, P)
  {
    hide Val, Cong, Fold;
    ghost var h0, rv := Val(h[..], 256), Val(r[..], 256);
    assert forall j :: 0 <= j < 17 ==> h[j] == h[..][j] && c[j] == c[..][j];
    Add1305(h, c);
    ghost var h1 := Val(h[..], 256);
    MulR(h, r, x);
    ghost var xs := x[..];
    for i := 0 to 17
      modifies h
      invariant forall k :: 0 <= k < i ==> h[k] == xs[k]
    {
      h[i] := x[i];
    }
    assert h[..] == xs;
    Squeeze(h);
    RoundMeaning(h0, acc, b, h1, rv, Val(xs, 256), Val(h[..], 256));
  }

  // ---------------------------------------------------------------- the canonical residue

  lemma MinusPValue(s: seq<int>)
    requires |s| == 17 && s[0] == 5 && s[16] == 252 && forall i :: 1 <= i < 16 ==> s[i] == 0
    ensures Val(s, 256) == TWO136 - P
  {
    hide Val;
    SplitTop(s);
    var zero := s[..16][0 := 0];
    ValZero(zero, 256);
    ValUpdate(zero, 0, 5, 256);
    assert zero[0 := 5] == s[..16] && Pow(256, 0) == 1;
  }

  /** The selection h ^= s & (g ^ h) under a full or empty mask of 32 bits. */
  lemma Select(h: int, g: int, s: int)
    requires 0 <= h < 256 && 0 <= g < 256 && (s == 0 || s == 0xffff_ffff)
    ensures Xor(h, And(s, Xor(g, h))) == if s == 0 then h else g
  {
    hide Xor, And;
    Powers();
    XorBounds(g, h, 8);
    AndMask(Xor(g, h));
    XorZero(h);
    AndSymmetric(s, Xor(g, h));
    MaskIsMod(Xor(g, h), 32);
    XorSymmetric(g, h);
    XorTwice(h, g);
  }

  lemma {:induction false} AndSymmetric(x: int, y: int)
    ensures And(x, y) == And(y, x)
    decreases Abs(x) + Abs(y)
  {
    if !((x == 0 || x == -1) && (y == 0 || y == -1)) {
      AndSymmetric(x / 2, y / 2);
    }
  }

  /** Adding 2^136 - P leaves the top bit set exactly when the number was below P. */
  lemma TopBit(v: int, s: seq<int>)
    requires |s| == 17 && Digits(s, 256) && 0 <= v < 2 * P && Val(s, 256) == (v + (TWO136 - P)) % TWO136
    ensures v < P ==> s[16] / 128 == 1
    ensures v >= P ==> s[16] / 128 == 0 && Val(s, 256) == v - P
  {
    hide Val;
    SplitTop(s);
    LowBound(s[..16]);
  }

  method Freeze(h: array<int>)
    requires h.Length == 17 && Digits(h[..], 256) && 0 <= Val(h[..], 256) < 2 * P
    modifies h
    ensures Digits(h[..], 256) && Val(h[..], 256) == Val(old(h[..]), 256) % P
  {
    hide Val, Xor, And;
    ghost var v, g0 := Val(h[..], 256), h[..];
    var minusp := new int[17](i => if i == 0 then 5 else if i == 16 then 252 else 0);
    var g := new int[17];
    for j := 0 to 17
      modifies g
      invariant forall i :: 0 <= i < j ==> g[i] == h[i]
    {
      g[j] := h[j];
    }
    assert g[..] == g0 && h[..] == g0;
    assert forall j :: 0 <= j < 17 ==> h[j] == g0[j];
    MinusPValue(minusp[..]);
    Add1305(h, minusp);
    ghost var h1 := h[..];
    TopBit(v, h1);
    var s := U32(-(h[16] / 128));
    assert s == if v < P then 0xffff_ffff else 0;
    for j := 0 to 17
      modifies h
      invariant forall i :: 0 <= i < j ==> h[i] == if v < P then g0[i] else h1[i]
      invariant forall i :: j <= i < 17 ==> h[i] == h1[i]
    {
      assert g[j] == g[..][j];
      Select(h[j], g[j], s);
      h[j] := Xor(h[j], And(s, Xor(g[j], h[j])));
    }
    assert h[..] == if v < P then g0 else h1;
  }

  // ---------------------------------------------------------------- the tag

  lemma AccumulateReduced(m: seq<int>, r: int)
    ensures 0 <= Accumulate(m, r) < P
  {
  }

  lemma CanonicalIs(h: int, acc: int)
    requires Cong(h, acc, P) && 0 <= acc < P
    ensures h % P == acc
  {
  }

  /** The low sixteen limbs of the sum of the accumulator and the second key half. */
  lemma TagMeaning(h: seq<int>, acc: int, k: seq<int>)
    requires |h| == 17 && Digits(h, 256) && 0 <= acc < P && |k| == 16 && Digits(k, 256)
    requires Val(h, 256) == (acc + Val(k, 256)) % TWO136
    ensures Val(h[..16], 256) == (acc + Val(k, 256)) % TWO128
  {
    hide Val;
    SplitTop(h);
    LowBound(h[..16]);
    LowBound(k);
    RemainderIs(acc + Val(k, 256), TWO128, h[16], Val(h[..16], 256));
  }

  lemma ZeroStart(h: seq<int>, m: seq<int>, r: int)
    requires |h| == 17 && forall i :: 0 <= i < 17 ==> h[i] == 0
    ensures Digits(h, 256) && Val(h, 256) == 0 && Accumulate(m[..0], r) == 0 && Cong(0, 0, P)
  {
    hide Val;
    ValZero(h, 256);
    assert m[..0] == [];
  }

  /** h := h + s, with s the second half of the key. */
  method AddSecret(h: array<int>, c: array<int>, k: seq<int>, ghost acc: int)
    requires h.Length == 17 && c.Length == 17 && h != c && |k| == 32 && Digits(k, 256)
    requires Digits(h[..], 256) && Val(h[..], 256) == acc && 0 <= acc < P
    modifies h, c
    ensures Digits(h[..], 256) && Val(h[..][..16], 256) == (acc + Val(k[16..], 256)) % TWO128
  {
    hide Val;
    ghost var h0 := h[..];
    for j := 0 to 16
      modifies c
      invariant forall i :: 0 <= i < j ==> c[i] == k[16 + i]
    {
      c[j] := k[j + 16];
    }
    c[16] := 0;
    assert c[..] == k[16..] + [0];
    ValSnoc(k[16..], 0, 256);
    assert h[..] == h0 && forall j :: 0 <= j < 17 ==> h[j] == h0[j];
    Add1305(h, c);
    assert Val(c[..], 256) == Val(k[16..], 256);
    TagMeaning(h[..], acc, k[16..]);
  }

  /** For every message and key, the sixteen bytes written are the tag of section 2.5 of RFC 8439. */
  method Onetimeauth(out: array<int>, m: seq<int>, k: seq<int>)
    requires out.Length == 16 && |k| == 32 && Digits(m, 256) && Digits(k, 256)
    modifies out
    ensures Digits(out[..], 256) && Val(out[..], 256) == Tag(m, k)
  {
    hide Val, And, Cong, Accumulate;
    var r, h := new int[17], new int[17](_ => 0);
    var c, x := new int[17], new int[17];
    LoadR(r, k);
    ghost var R := And(Val(k[..16], 256), CLAMP);
    assert forall i :: 0 <= i < 17 ==> h[..][i] == 0;
    ZeroStart(h[..], m, R);
    var pos := 0;
    while pos < |m|
      invariant 0 <= pos <= |m| && (pos % 16 == 0 || pos == |m|)
      invariant Digits(r[..], 256) && Val(r[..], 256) == R
      invariant Digits(h[..], 256) && 0 <= Val(h[..], 256) < 2 * P
      invariant Cong(Val(h[..], 256), Accumulate(m[..pos], R), P)
    {
      var j := LoadBlock(c, m, pos);
      ghost var b := m[pos..pos + j];
      PaddedBlock(b, seq(16 - j, _ => 0));
      AccumulateBlock(m, R, pos, j);
      Block(h, r, c, x, BlockNumber(b), Accumulate(m[..pos], R));
      pos := pos + j;
    }
    assert m[..pos] == m;
    AccumulateReduced(m, R);
    CanonicalIs(Val(h[..], 256), Accumulate(m, R));
    Freeze(h);
    AddSecret(h, c, k, Accumulate(m, R));
    ghost var hs := h[..];
    for j := 0 to 16
      modifies out
      invariant forall i :: 0 <= i < j ==> out[i] == hs[i]
    {
      out[j] := h[j];
    }
    assert out[..] == hs[..16];
  }

  /** crypto_onetimeauth_verify: 0 for the tag of the message and -1 for every other string of its length. */
  method OnetimeauthVerify(h: seq<int>, m: seq<int>, k: seq<int>) returns (r: int)
    requires |h| == 16 && |k| == 32 && Digits(h, 256) && Digits(m, 256) && Digits(k, 256)
    ensures r == if Val(h, 256) == Tag(m, k) then 0 else -1
  {
    hide Val, Digits, Tag;
    var x := new int[16];
    Onetimeauth(x, m, k);
    SameNumber(h, x[..]);
    r := Compare.Vn(h, x[..]);
  }

  lemma SameNumber(a: seq<int>, b: seq<int>)
    requires |a| == |b| && Digits(a, 256) && Digits(b, 256)
    ensures a == b <==> Val(a, 256) == Val(b, 256)
  {
    if Val(a, 256) == Val(b, 256) { DigitsUnique(a, b, 256); }
  }

  // ---------------------------------------------------------------- the tag as one formula

  /** The blocks of a message, in order: sixteen bytes each, the last one as many as are left, with their 1 suffix. */
  lemma {:induction false} BlocksInOrder(m: seq<int>, i: nat)
    ensures |BlockNumbers(m)| == (|m| + 15) / 16
    ensures i < |BlockNumbers(m)| ==>
      var b := m[16 * i..if 16 * i + 16 < |m| then 16 * i + 16 else |m|];
      BlockNumbers(m)[i] == Val(b, 256) + Pow(256, |b|)
    decreases |m|
  {
    hide Val, Pow;
    if m != [] {
      var cut := |m| - LastLen(|m|);
      BlocksInOrder(m[..cut], i);
      BlockCount(|m|, cut);
      assert BlockNumbers(m) == BlockNumbers(m[..cut]) + [BlockNumber(m[cut..])];
      hide BlockNumbers;
      if i == cut / 16 {
        ValSnoc(m[cut..], 1, 256);
        assert m[16 * i..|m|] == m[cut..];
      } else if i < cut / 16 {
        assert m[..cut][16 * i..16 * i + 16] == m[16 * i..16 * i + 16];
      }
    }
  }

  lemma BlockCount(n: nat, cut: nat)
    requires cut < n <= cut + 16 && cut % 16 == 0
    ensures (n + 15) / 16 == cut / 16 + 1 && (cut + 15) / 16 == cut / 16 && 16 * (cut / 16) == cut
  {
  }

  /**
   * For r with the bytes of the first half of the key, less the high four bits of bytes 3, 7, 11 and 15 and the low two
   * of bytes 4, 8 and 12: the tag is b0 * r^n + ... + b(n-1) * r modulo 2^130 - 5, plus the second half of the key,
   * modulo 2^128.
   */
  lemma TagIsPolynomial(m: seq<int>, k: seq<int>, r: seq<int>)
    requires |r| == 16 && |k| == 32 && Digits(k, 256)
    requires forall j :: j in {3, 7, 11, 15} ==> r[j] == k[j] % 16
    requires forall j :: j in {4, 8, 12} ==> r[j] == k[j] - k[j] % 4
    requires forall j :: j in {0, 1, 2, 5, 6, 9, 10, 13, 14} ==> r[j] == k[j]
    ensures Val(r, 256) >= 0
    ensures var bs := BlockNumbers(m);
      Tag(m, k) == (TermSum(bs, Val(r, 256), |bs|) % (Pow2(130) - 5) + Val(k[16..], 256)) % Pow2(128)
  {
    hide Val, And, TermSum, Accumulate, BlockNumbers, Pow2;
    ClampedNumber(k, r);
    ModulusIs();
    ValBounds(r, 256);
    hide Digits;
    AccumulateIsPowerSum(m, Val(r, 256));
  }

  lemma ModulusIs()
    ensures Pow2(130) - 5 == P && Pow2(128) == TWO128
  {
    SmallPowers();
    hide Pow2;
    Pow2Add(32, 32);
    Pow2Add(64, 64);
    Pow2Add(128, 2);
  }

  lemma SmallPowers()
    ensures Pow2(2) == 4 && Pow2(32) == 0x1_0000_0000
  {
    Powers();
  }

  lemma ClampedNumber(k: seq<int>, r: seq<int>)
    requires |r| == 16 && |k| == 32 && Digits(k, 256)
    requires forall j :: j in {3, 7, 11, 15} ==> r[j] == k[j] % 16
    requires forall j :: j in {4, 8, 12} ==> r[j] == k[j] - k[j] % 4
    requires forall j :: j in {0, 1, 2, 5, 6, 9, 10, 13, 14} ==> r[j] == k[j]
    ensures Digits(r, 256) && Val(r, 256) == And(Val(k[..16], 256), CLAMP)
  {
    hide And, Val;
    MasksOf(k);
    var s := r + [0];
    ClampedLimbs(s, k);
    SplitTop(s);
    assert s[..16] == r;
  }
}
