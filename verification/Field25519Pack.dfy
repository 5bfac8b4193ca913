/** pack25519 and unpack25519 of tweetnacl.c. */
module Field25519Pack {
  // The canonical 32 bytes of a field element.

  import opened Limbs
  import opened Field25519
  import opened Field25519Mul
  import Bits
  import Compare

  function PLimb(i: nat): int {
    if i == 0 then 0xffed else if i == 15 then 0x7fff else 0xffff
  }

  function PLimbs(n: nat): (s: seq<int>)
    ensures |s| == n
  {
    seq(n, i requires 0 <= i < n => PLimb(i))
  }

  lemma {:induction false} FullLimbs(n: nat)
    ensures Val(seq(n, _ => 0xffff), R) == Pow(R, n) - 1
  {
    if n > 0 {
      FullLimbs(n - 1);
      var s := seq(n, _ => 0xffff);
      assert s == seq(n - 1, _ => 0xffff) + [0xffff];
      ValSnoc(seq(n - 1, _ => 0xffff), 0xffff, R);
    }
  }

  lemma PLimbsAreP()
    ensures Val(PLimbs(16), R) == P
  {
    hide Val, Pow;
    var full := seq(16, _ => 0xffff);
    FullLimbs(16);
    ValUpdate(full, 0, 0xffed, R);
    ValUpdate(full[0 := 0xffed], 15, 0x7fff, R);
    assert PLimbs(16) == full[0 := 0xffed][15 := 0x7fff];
    Powers();
    assert Pow(R, 16) == R * Pow(R, 15) by { PowStep(15); }
  }

  lemma PowStep(n: nat)
    ensures Pow(R, n + 1) == R * Pow(R, n)
  {
  }

  // ---------------------------------------------------------------- subtracting P

  /** m holds t - P over the first i limbs; limb i - 1 is still raw, possibly below 0. */
  predicate Minus(m: seq<int>, t: seq<int>, i: nat)
    requires |m| == |t| == 16
  {
    && 1 <= i <= 16 && (forall k :: 0 <= k < i - 1 ==> 0 <= m[k] < R)
    && -0x1_0000 <= m[i - 1] < R
    && Val(m[..i], R) == Val(t[..i], R) - Val(PLimbs(i), R)
  }

  /** Splitting the raw limb: its borrow bit is worth one of the next limb. */
  lemma MinusStep(m: seq<int>, t: seq<int>, i: nat)
    requires |m| == |t| == 16 && Digits(t, R) && Minus(m, t, i) && i < 16
    ensures var bit := (m[i - 1] / 0x1_0000) % 2;
            Minus(m[i - 1 := m[i - 1] % 0x1_0000][i := t[i] - PLimb(i) - bit], t, i + 1)
  {
    hide Val, Pow;
    var raw := m[i - 1];
    var bit := (raw / 0x1_0000) % 2;
    var low := raw % 0x1_0000;
    BorrowBit(raw);
    var m' := m[i - 1 := low][i := t[i] - PLimb(i) - bit];
    assert m'[..i] == m[..i][i - 1 := low];
    ValUpdate(m[..i], i - 1, low, R);
    ValPrefix(m', i, R);
    ValPrefix(t, i, R);
    assert PLimbs(i + 1) == PLimbs(i) + [PLimb(i)];
    ValSnoc(PLimbs(i), PLimb(i), R);
    PowStep(i - 1);
    BorrowTerm(low, raw, bit, Pow(R, i - 1));
    Distribute(t[i] - PLimb(i), bit, Pow(R, i));
    Distribute(t[i], PLimb(i), Pow(R, i));
  }

  lemma BorrowBit(raw: int)
    requires -0x1_0000 <= raw < R
    ensures (raw / 0x1_0000) % 2 == (if raw < 0 then 1 else 0)
    ensures raw % 0x1_0000 == raw + 0x1_0000 * (if raw < 0 then 1 else 0)
  {
  }

  lemma BorrowTerm(low: int, raw: int, bit: int, p: int)
    requires low == raw + R * bit
    ensures (low - raw) * p == bit * (R * p)
  {
    Assoc(bit, R, p);
  }

  lemma MinusStart(m: seq<int>, t: seq<int>)
    requires |m| == |t| == 16 && Digits(t, R) && m[0] == t[0] - 0xffed
    ensures Minus(m, t, 1)
  {
    ValPrefix(m, 0, R);
    ValPrefix(t, 0, R);
    assert m[..0] == [] && t[..0] == [] && PLimbs(1) == [0xffed] && PLimbs(1)[..0] == [];
  }

  /** m = t - P; returns 1 when that is negative, and otherwise m is reduced. */
  method SubP(m: array<int>, t: array<int>) returns (b: int)
    requires m.Length == 16 && t.Length == 16 && m != t && Digits(t[..], R)
    modifies m
    ensures b == if Val(t[..], R) < P then 1 else 0
    ensures b == 0 ==> Digits(m[..], R) && Val(m[..], R) == Val(t[..], R) - P
  {
    hide Val, Minus, Digits;
    ghost var ts := t[..];
    m[0] := t[0] - 0xffed;
    MinusStart(m[..], ts);
    for i := 1 to 15
      modifies m
      invariant Minus(m[..], ts, i)
    {
      MinusStep(m[..], ts, i);
      ghost var m0 := m[..];
      m[i] := t[i] - 0xffff - (m[i - 1] / 0x1_0000) % 2;
      m[i - 1] := m[i - 1] % 0x1_0000;
      assert m[..] == m0[i - 1 := m0[i - 1] % 0x1_0000][i := ts[i] - PLimb(i) - (m0[i - 1] / 0x1_0000) % 2];
    }
    MinusStep(m[..], ts, 15);
    ghost var m0 := m[..];
    m[15] := t[15] - 0x7fff - (m[14] / 0x1_0000) % 2;
    b := (m[15] / 0x1_0000) % 2;
    m[14] := m[14] % 0x1_0000;
    assert m[..] == m0[14 := m0[14] % 0x1_0000][15 := ts[15] - PLimb(15) - (m0[14] / 0x1_0000) % 2];
    MinusEnd(m[..], ts, b);
  }

  lemma MinusEnd(m: seq<int>, t: seq<int>, b: int)
    requires |m| == |t| == 16 && Minus(m, t, 16) && b == (m[15] / 0x1_0000) % 2
    ensures b == if Val(t, R) < P then 1 else 0
    ensures b == 0 ==> Digits(m, R) && Val(m, R) == Val(t, R) - P
  {
    hide Val, Pow;
    assert m[..16] == m && t[..16] == t;
    PLimbsAreP();
    BorrowBit(m[15]);
    ValPrefix(m, 15, R);
    ValBounds(m[..15], R);
    PowPositive(R, 15);
    if m[15] < 0 { TopNegative(m[15], Pow(R, 15)); } else { MulNonNeg(m[15], Pow(R, 15)); }
  }

  lemma TopNegative(x: int, p: int)
    requires x < 0 && p > 0
    ensures x * p <= -p
  {
    MulAtLeast(-x, p);
    assert (-x) * p == -(x * p);
  }

  // ---------------------------------------------------------------- pack

  lemma ThreePasses(s: seq<int>)
    requires Reduced(s)
    ensures Within(s, WIDE) && Digits(Carried(s), R) && Cong(Val(Carried(s), R), Val(s, R), P)
  {
    ReducedWithin(s);
    ThirdPass(s);
    hide Carried, Val, Chain, Cong;
    CarriedVal(s);
  }

  lemma Canonical(v0: int, v: int, v1: int, v2: int)
    requires Cong(v, v0, P) && 0 <= v < TWO256
    requires v1 == (if v < P then v else v - P) && v2 == (if v1 < P then v1 else v1 - P)
    ensures v2 == v0 % P
  {
    RemainderIs(v, P, if v < P then 0 else if v - P < P then 1 else 2, v2);
  }

  lemma {:induction false} BytesOfLimbs(o: seq<int>, t: seq<int>, n: nat)
    requires |o| == 32 && |t| == 16 && n <= 16
    requires forall i :: 0 <= i < 16 ==> o[2 * i] + 256 * o[2 * i + 1] == t[i]
    ensures Val(o[..2 * n], 256) == Val(t[..n], R) && Pow(256, 2 * n) == Pow(R, n)
  {
    if n == 0 {
      assert o[..0] == [] && t[..0] == [];
    } else {
      BytesOfLimbs(o, t, n - 1);
      var k := 2 * (n - 1);
      var x, y := o[k], o[k + 1];
      assert x + 256 * y == t[n - 1];
      BytesOfLimb(o, t, n, x, y);
    }
  }

  lemma BytesOfLimb(o: seq<int>, t: seq<int>, n: nat, x: int, y: int)
    requires 0 < n <= |t| && 2 * n <= |o| && o[2 * n - 2] == x && o[2 * n - 1] == y && x + 256 * y == t[n - 1]
    requires Val(o[..2 * n - 2], 256) == Val(t[..n - 1], R) && Pow(256, 2 * n - 2) == Pow(R, n - 1)
    ensures Val(o[..2 * n], 256) == Val(t[..n], R) && Pow(256, 2 * n) == Pow(R, n)
  {
    var k := 2 * n - 2;
    assert Pow(256, k + 1) == 256 * Pow(256, k) && Pow(256, k + 2) == 256 * Pow(256, k + 1);
    PowStep(n - 1);
    hide Val, Pow;
    ValPrefix(o, k, 256);
    ValPrefix(o, k + 1, 256);
    ValPrefix(t, n - 1, R);
    TwoBytes(x, y, Pow(256, k));
  }

  lemma TwoBytes(x: int, y: int, p: int)
    ensures x * p + y * (256 * p) == (x + 256 * y) * p
  {
    Distribute(x, 256 * y, p);
    Assoc(y, 256, p);
  }

  /** The 32 bytes of the one number in [0, P) congruent to n. */
  method Pack(o: array<int>, n: array<int>)
    requires o.Length == 32 && n.Length == 16 && Within(n[..], WIDE)
    modifies o
    ensures Digits(o[..], 256) && Val(o[..], 256) == Val(old(n[..]), R) % P
  {
    hide Val, Cong, Within, Reduced, Carried, Digits;
    ghost var v0 := Val(n[..], R);
    var m, t := new int[16], new int[16];
    ghost var ns := n[..];
    for i := 0 to 16
      modifies t
      invariant forall k :: 0 <= k < i ==> t[k] == ns[k]
    {
      t[i] := n[i];
    }
    assert t[..] == ns;
    CarTwice(t);
    ghost var t2 := t[..];
    ThreePasses(t2);
    Car(t);
    CongTrans(Val(t[..], R), Val(t2, R), v0, P);
    ghost var v := Val(t[..], R);
    DigitsBelow(t[..]);
    ghost var v1 := if v < P then v else v - P;
    for j := 0 to 2
      modifies m, t
      invariant Digits(t[..], R)
      invariant Val(t[..], R) == if j == 0 then v else if j == 1 then v1 else if v1 < P then v1 else v1 - P
    {
      var b := SubP(m, t);
      Sel(t, m, 1 - b);
    }
    Canonical(v0, v, v1, Val(t[..], R));
    WriteBytes(o, t);
  }

  /** Two bytes of every reduced limb. */
  method WriteBytes(o: array<int>, t: array<int>)
    requires o.Length == 32 && t.Length == 16 && o != t && Digits(t[..], R)
    modifies o
    ensures Digits(o[..], 256) && Val(o[..], 256) == Val(t[..], R)
  {
    hide Val, Digits;
    ghost var ts := t[..];
    for i := 0 to 16
      modifies o
      invariant forall k :: 0 <= k < i ==> o[2 * k] + 256 * o[2 * k + 1] == ts[k]
      invariant forall k :: 0 <= k < 2 * i ==> 0 <= o[k] < 256
    {
      DigitIs(ts, i);
      o[2 * i] := t[i] % 256;
      o[2 * i + 1] := t[i] / 256;
    }
    BytesOfLimbs(o[..], ts, 16);
    assert o[..][..32] == o[..] && ts[..16] == ts;
    BytesAreDigits(o[..]);
  }

  lemma BytesAreDigits(o: seq<int>)
    requires |o| == 32 && forall k :: 0 <= k < 32 ==> 0 <= o[k] < 256
    ensures Digits(o, 256)
  {
  }

  lemma DigitIs(s: seq<int>, i: nat)
    requires Digits(s, R) && i < |s|
    ensures 0 <= s[i] < R
  {
  }

  lemma DigitsBelow(s: seq<int>)
    requires |s| == 16 && Digits(s, R)
    ensures 0 <= Val(s, R) < TWO256
  {
    hide Val, Pow;
    ValBounds(s, R);
    Powers();
  }

  // ---------------------------------------------------------------- unpack

  /** The field element of 32 bytes; the top bit is ignored. */
  method Unpack(o: array<int>, n: seq<int>)
    requires o.Length == 16 && |n| == 32 && Digits(n, 256)
    modifies o
    ensures Digits(o[..], R) && Reduced(o[..]) && Val(o[..], R) == Val(n, 256) % TWO255
  {
    for i := 0 to 16
      invariant forall k :: 0 <= k < i ==> o[k] == n[2 * k] + 256 * n[2 * k + 1]
    {
      o[i] := n[2 * i] + n[2 * i + 1] * 256;
    }
    ghost var s := o[..];
    hide Val, Bits.And;
    BytesOfLimbs(n, s, 16);
    assert n[..32] == n && s[..16] == s;
    LimbsSmall(s, n);
    Mask15(s[15]);
    o[15] := Bits.And(o[15], 0x7fff);
    assert o[..] == s[15 := s[15] % 0x8000];
    TopMasked(s);
  }

  lemma LimbsSmall(s: seq<int>, n: seq<int>)
    requires |s| == 16 && |n| == 32 && Digits(n, 256)
    requires forall k :: 0 <= k < 16 ==> s[k] == n[2 * k] + 256 * n[2 * k + 1]
    ensures Digits(s, R)
  {
    forall k | 0 <= k < 16 ensures 0 <= s[k] < R {
      assert 0 <= n[2 * k] < 256 && 0 <= n[2 * k + 1] < 256;
    }
  }

  lemma Mask15(x: int)
    ensures Bits.And(x, 0x7fff) == x % 0x8000
  {
    hide Bits.And;
    Bits.MaskIsMod(x, 15);
    assert Bits.Pow2(15) == 0x8000;
  }

  lemma TopMasked(s: seq<int>)
    requires |s| == 16 && Digits(s, R)
    ensures Val(s[15 := s[15] % 0x8000], R) == Val(s, R) % TWO255
  {
    hide Val, Pow;
    ValUpdate(s, 15, s[15] % 0x8000, R);
    Powers();
    PowStep(15);
    var p := Pow(R, 15);
    assert TWO255 == 0x8000 * p;
    var s' := s[15 := s[15] % 0x8000];
    assert s' == s'[..15] + [s'[15]];
    ValSnoc(s'[..15], s'[15], R);
    ValBounds(s'[..15], R);
    TopDigit(s'[15], 0x8000, p);
    HalfTerm(s[15], p, Val(s, R), Val(s', R));
  }

  lemma HalfTerm(x: int, p: nat, v: int, w: int)
    requires p > 0 && w == v + (x % 0x8000 - x) * p && 0 <= w < 0x8000 * p
    ensures v % (0x8000 * p) == w
  {
    var q := x / 0x8000;
    assert (x % 0x8000 - x) == -0x8000 * q;
    assert (-0x8000 * q) * p == -(q * (0x8000 * p));
    RemainderIs(v, 0x8000 * p, q, w);
  }

  // ---------------------------------------------------------------- the two together

  /** Unpacking what was packed gives the canonical residue back. */
  lemma UnpackOfPack(v: int, q: seq<int>)
    requires |q| == 32 && Val(q, 256) == v % P
    ensures Val(q, 256) % TWO255 == v % P && Cong(Val(q, 256) % TWO255, v, P)
  {
    CongMod(v, P);
    RemainderIs(v % P, TWO255, 0, v % P);
  }

  /** Numbers pack to the same bytes exactly when they are congruent. */
  lemma PackedEqual(v: int, w: int, q: seq<int>, r: seq<int>)
    requires |q| == |r| == 32 && Digits(q, 256) && Digits(r, 256)
    requires Val(q, 256) == v % P && Val(r, 256) == w % P
    ensures q == r <==> Cong(v, w, P)
  {
    if Cong(v, w, P) { DigitsUnique(q, r, 256); }
  }

  /** An element packed and unpacked again: the canonical element congruent to it. */
  method PackUnpack(o: array<int>, n: array<int>)
    requires o.Length == 16 && n.Length == 16 && Within(n[..], WIDE)
    modifies o
    ensures Digits(o[..], R) && Val(o[..], R) == Val(old(n[..]), R) % P
    ensures Cong(Val(o[..], R), Val(old(n[..]), R), P)
  {
    hide Val, Cong, Within, Reduced, Digits;
    ghost var v := Val(n[..], R);
    var q := new int[32];
    Pack(q, n);
    UnpackOfPack(v, q[..]);
    Unpack(o, q[..]);
  }

  /** Bytes unpacked and packed again are the same bytes exactly when their number is below P. */
  method UnpackPack(o: array<int>, n: seq<int>)
    requires o.Length == 32 && |n| == 32 && Digits(n, 256)
    modifies o
    ensures Digits(o[..], 256) && Val(o[..], 256) == (Val(n, 256) % TWO255) % P
    ensures o[..] == n <==> Val(n, 256) < P
  {
    hide Val, Cong, Within, Reduced, Digits;
    var t := new int[16];
    Unpack(t, n);
    ReducedWithin(t[..]);
    ReducedIsWide(t[..]);
    Pack(o, t);
    CanonicalBytes(n, o[..]);
  }

  lemma ReducedIsWide(s: seq<int>)
    requires Within(s, LIM)
    ensures Within(s, WIDE)
  {
  }

  lemma CanonicalBytes(n: seq<int>, o: seq<int>)
    requires |n| == |o| == 32 && Digits(n, 256) && Digits(o, 256)
    requires Val(o, 256) == (Val(n, 256) % TWO255) % P
    ensures o == n <==> Val(n, 256) < P
  {
    hide Val;
    var v := Val(n, 256);
    ValBounds(n, 256);
    if v < P {
      RemainderIs(v, TWO255, 0, v);
      RemainderIs(v, P, 0, v);
      DigitsUnique(o, n, 256);
    }
  }

  /** neq25519: 0 for elements that are congruent, however they are written, and -1 for others. */
  method Neq25519(a: array<int>, b: array<int>) returns (r: int)
    requires a.Length == 16 && b.Length == 16 && Within(a[..], WIDE) && Within(b[..], WIDE)
    ensures r == if Cong(Val(a[..], R), Val(b[..], R), P) then 0 else -1
  {
    hide Val, Cong, Within, Digits;
    ghost var v, w := Val(a[..], R), Val(b[..], R);
    var c, d := new int[32], new int[32];
    Pack(c, a);
    Pack(d, b);
    PackedEqual(v, w, c[..], d[..]);
    r := Compare.Vn(c[..], d[..]);
  }
}
