/** M, S and inv25519 of tweetnacl.c. */
module Field25519Mul {
  import opened Limbs
  import opened Field25519

  // ---------------------------------------------------------------- the product

  /** The partial product after rows 0 .. i-1 and j terms of row i. */
  predicate Partial(t: seq<int>, a: seq<int>, b: seq<int>, i: nat, j: nat)
    requires |a| == 16 && |b| == 16 && i <= 16 && j <= 16 && (i < 16 || j == 0)
  {
    |t| == 31 &&
    Val(t, R) == Val(a[..i], R) * Val(b, R) + (if i < 16 then a[i] * (Pow(R, i) * Val(b[..j], R)) else 0)
  }

  lemma PartialTerm(t: seq<int>, a: seq<int>, b: seq<int>, i: nat, j: nat)
    requires |a| == 16 && |b| == 16 && i < 16 && j < 16 && Partial(t, a, b, i, j)
    ensures Partial(t[i + j := t[i + j] + a[i] * b[j]], a, b, i, j + 1)
  {
    hide Val, Pow;
    ValUpdate(t, i + j, t[i + j] + a[i] * b[j], R);
    PowAdd(R, i, j);
    ValPrefix(b, j, R);
    TermOf(a[i], b[j], Pow(R, i), Pow(R, j), Val(b[..j], R));
  }

  lemma TermOf(x: int, y: int, p: int, q: int, v: int)
    ensures x * (p * (v + y * q)) == x * (p * v) + (x * y) * (p * q)
  {
    assert p * (v + y * q) == p * v + p * (y * q);
    assert p * (y * q) == y * (p * q);
    Assoc(x, y, p * q);
  }

  lemma PartialRow(t: seq<int>, a: seq<int>, b: seq<int>, i: nat)
    requires |a| == 16 && |b| == 16 && i < 16 && Partial(t, a, b, i, 16)
    ensures Partial(t, a, b, i + 1, 0)
  {
    ValPrefix(a, i, R);
    assert b[..16] == b && b[..0] == [];
    RowSum(Val(a[..i], R), a[i], Pow(R, i), Val(b, R));
  }

  lemma RowSum(u: int, x: int, p: int, v: int)
    ensures (u + x * p) * v == u * v + x * (p * v)
  {
    Distribute(u, x * p, v);
    Assoc(x, p, v);
  }

  lemma PartialStart(t: seq<int>, a: seq<int>, b: seq<int>)
    requires |a| == 16 && |b| == 16 && |t| == 31 && forall k :: 0 <= k < 31 ==> t[k] == 0
    ensures Partial(t, a, b, 0, 0)
  {
    ValZero(t, R);
    assert b[..0] == [] && a[..0] == [];
  }

  /** At most c products in every limb. */
  const SQUARE: int := 17199273316

  predicate Terms(t: seq<int>, c: nat) {
    forall k :: 0 <= k < |t| ==> -(c * SQUARE) <= t[k] <= c * SQUARE
  }

  lemma ProductSize(x: int, y: int)
    requires -LIM <= x <= LIM && -LIM <= y <= LIM
    ensures -SQUARE <= x * y <= SQUARE
  {
    var u, v := if x < 0 then -x else x, if y < 0 then -y else y;
    MulNonNeg(u, v);
    MulNonNeg(LIM - u, LIM);
    MulNonNeg(u, LIM - v);
    Distribute(LIM, u, LIM);
    Distribute(LIM, v, u);
    SignOut(x, y, u, v);
  }

  lemma SignOut(x: int, y: int, u: int, v: int)
    requires (u == x || u == -x) && (v == y || v == -y)
    ensures x * y == u * v || x * y == -(u * v)
  {
  }

  /** t = a * b over 31 limbs; no 64-bit product or sum overflows. */
  method Product(t: array<int>, a: array<int>, b: array<int>)
    requires t.Length == 31 && a.Length == 16 && b.Length == 16 && t != a && t != b
    requires Within(a[..], LIM) && Within(b[..], LIM)
    modifies t
    ensures Val(t[..], R) == Val(a[..], R) * Val(b[..], R) && Terms(t[..], 16)
  {
    ghost var s, q := a[..], b[..];
    for i := 0 to 31
      modifies t
      invariant forall k :: 0 <= k < i ==> t[k] == 0
    {
      t[i] := 0;
    }
    hide Partial, Within;
    PartialStart(t[..], s, q);
    for i := 0 to 16
      modifies t
      invariant Partial(t[..], s, q, i, 0) && Terms(t[..], i)
    {
      for j := 0 to 16
        modifies t
        invariant Partial(t[..], s, q, i, j)
        invariant forall k :: 0 <= k < i + j ==> -((i + 1) * SQUARE) <= t[k] <= (i + 1) * SQUARE
        invariant forall k :: i + j <= k < 31 ==> -(i * SQUARE) <= t[k] <= i * SQUARE
      {
        PartialTerm(t[..], s, q, i, j);
        InRange(s, i);
        InRange(q, j);
        ProductSize(s[i], q[j]);
        assert I64(a[i] * b[j]) && I64(t[i + j] + a[i] * b[j]);
        ghost var t0 := t[..];
        t[i + j] := t[i + j] + a[i] * b[j];
        assert t[..] == t0[i + j := t0[i + j] + s[i] * q[j]];
      }
      PartialRow(t[..], s, q, i);
    }
    PartialEnd(t[..], s, q);
  }

  lemma InRange(s: seq<int>, i: nat)
    requires Within(s, LIM) && i < 16
    ensures -LIM <= s[i] <= LIM
  {
  }

  lemma PartialEnd(t: seq<int>, a: seq<int>, b: seq<int>)
    requires |a| == 16 && |b| == 16 && Partial(t, a, b, 16, 0)
    ensures Val(t, R) == Val(a, R) * Val(b, R)
  {
    assert a[..16] == a;
  }

  /** Folding the upper limbs: 2^256 counts as 38. */
  lemma FoldVal(t: seq<int>, o: seq<int>)
    requires |t| == 31 && |o| == 16 && o[15] == t[15] && forall i :: 0 <= i < 15 ==> o[i] == t[i] + 38 * t[i + 16]
    ensures Cong(Val(o, R), Val(t, R), P)
  {
    hide Val, Cong, Pow;
    var high := t[16..];
    assert t == t[..16] + high && high + [0] == (high + [0])[..16];
    ValConcat(t[..16], high, R);
    ValSnoc(high, 0, R);
    assert forall i :: 0 <= i < 15 ==> (high + [0])[i] == t[i + 16];
    ValLinear(t[..16], high + [0], o, 38, R);
    Powers();
    var v := Val(high, R);
    assert Val(o, R) == Val(t, R) + (-2 * v) * P;
    AddMultiple(Val(t, R), -2 * v, P);
  }

  /** Two carry passes bring limbs of 44 bits into reduced range and keep the residue. */
  method CarTwice(o: array<int>)
    requires o.Length == 16 && Within(o[..], WIDE)
    modifies o
    ensures Reduced(o[..]) && Cong(Val(o[..], R), Val(old(o[..]), R), P)
  {
    hide Val, Cong, Carried, Chain;
    ghost var s := o[..];
    Car(o);
    CarriedVal(s);
    FirstPass(s);
    ghost var s1 := o[..];
    NarrowIsWide(s1);
    Car(o);
    CarriedVal(s1);
    SecondPass(s1);
    CongTrans(Val(o[..], R), Val(s1, R), Val(s, R), P);
  }

  lemma NarrowIsWide(s: seq<int>)
    requires |s| == 16
    requires -0x3_0000_0000 <= s[0] <= 0x3_0000_0000 && forall i :: 1 <= i < 16 ==> 0 <= s[i] < R
    ensures Within(s, WIDE)
  {
  }

  /** o = a * b modulo P, in reduced limbs; o may be a or b. */
  method M(o: array<int>, a: array<int>, b: array<int>)
    requires o.Length == 16 && a.Length == 16 && b.Length == 16
    requires Within(a[..], LIM) && Within(b[..], LIM)
    modifies o
    ensures Reduced(o[..])
    ensures Cong(Val(o[..], R), Val(old(a[..]), R) * Val(old(b[..]), R), P)
  {
    hide Val, Cong, Within, Reduced, Pow;
    ghost var v := Val(a[..], R) * Val(b[..], R);
    var t := new int[31];
    Product(t, a, b);
    ghost var t0 := t[..];
    for i := 0 to 15
      modifies t
      invariant forall k :: 0 <= k < i ==> t[k] == t0[k] + 38 * t0[k + 16]
      invariant forall k :: i <= k < 31 ==> t[k] == t0[k]
    {
      TermSize(t0, i);
      assert t[i] == t0[i] && t[i + 16] == t0[i + 16];
      assert I64(38 * t[i + 16]) && I64(t[i] + 38 * t[i + 16]);
      t[i] := t[i] + 38 * t[i + 16];
    }
    for i := 0 to 16
      modifies o
      invariant forall k :: 0 <= k < i ==> o[k] == t[k]
    {
      o[i] := t[i];
    }
    FoldVal(t0, o[..]);
    FoldSize(t0, o[..]);
    ghost var s := o[..];
    CarTwice(o);
    CongTrans(Val(o[..], R), Val(s, R), v, P);
  }

  lemma TermSize(t: seq<int>, i: nat)
    requires |t| == 31 && Terms(t, 16) && i < 15
    ensures -(16 * SQUARE) <= t[i] <= 16 * SQUARE && -(16 * SQUARE) <= t[i + 16] <= 16 * SQUARE
  {
  }

  lemma FoldSize(t: seq<int>, o: seq<int>)
    requires |t| == 31 && Terms(t, 16)
    requires |o| == 16 && o[15] == t[15] && forall i :: 0 <= i < 15 ==> o[i] == t[i] + 38 * t[i + 16]
    ensures Within(o, WIDE)
  {
    forall i | 0 <= i < 16 ensures -WIDE <= o[i] <= WIDE {
      if i < 15 { TermSize(t, i); }
    }
  }

  method S(o: array<int>, a: array<int>)
    requires o.Length == 16 && a.Length == 16 && Within(a[..], LIM)
    modifies o
    ensures Reduced(o[..]) && Cong(Val(o[..], R), Val(old(a[..]), R) * Val(old(a[..]), R), P)
  {
    M(o, a, a);
  }

  lemma ReducedWithin(s: seq<int>)
    requires Reduced(s)
    ensures Within(s, LIM)
  {
  }

  // ---------------------------------------------------------------- inversion

  function IntPow(x: int, e: nat): int {
    if e == 0 then 1 else x * IntPow(x, e - 1)
  }

  lemma PowersOf(x: int, n: nat)
    ensures IntPow(x, 0) == 1 && IntPow(x, 1) == x && IntPow(x, n + 1) == x * IntPow(x, n)
  {
    assert IntPow(x, 1) == x * IntPow(x, 0);
  }

  lemma {:induction false} IntPowAdd(x: int, d: nat, e: nat)
    ensures IntPow(x, d + e) == IntPow(x, d) * IntPow(x, e)
  {
    if d > 0 {
      IntPowAdd(x, d - 1, e);
      Assoc(x, IntPow(x, d - 1), IntPow(x, e));
    }
  }

  /** The exponent reached when the loop of inv25519 has done the rounds 253 .. a. */
  function Exponent(a: nat): nat
    requires a <= 254
    decreases 254 - a
  {
    if a == 254 then 1 else 2 * Exponent(a + 1) + if a != 2 && a != 4 then 1 else 0
  }

  lemma {:induction false} ExponentAbove(a: nat)
    requires 5 <= a <= 254
    ensures Exponent(a) == Pow(2, 255 - a) - 1
    decreases 254 - a
  {
    if a < 254 {
      ExponentAbove(a + 1);
    } else {
      assert Pow(2, 1) == 2;
    }
  }

  /** The chain of squarings and multiplications raises to P - 2 = 2^255 - 21. */
  lemma InversePower()
    ensures Exponent(0) == P - 2 == TWO255 - 21
  {
    ExponentAbove(5);
    assert Exponent(4) == 2 * Exponent(5);
    assert Exponent(2) == 2 * (2 * Exponent(4) + 1);
    assert Exponent(0) == 2 * (2 * Exponent(2) + 1) + 1;
    Pow2Value();
  }

  lemma PowTwice(n: nat, p: nat)
    requires Pow(2, n) == p
    ensures Pow(2, 2 * n) == p * p
  {
    PowAdd(2, n, n);
  }

  lemma Pow2Value()
    ensures Pow(2, 250) * 32 == TWO255
  {
    assert Pow(2, 5) == 32;
    hide Pow;
    PowTwice(5, 0x20);
    PowTwice(10, 0x400);
    PowTwice(20, 0x10_0000);
    PowTwice(40, 0x100_0000_0000);
    var p80 := 0x1_0000_0000_0000_0000_0000;
    PowTwice(80, p80);
    PowAdd(2, 160, 80);
    PowAdd(2, 240, 10);
  }

  lemma PowerRound(x: int, c: int, e: nat, c2: int, c3: int)
    requires Cong(c, IntPow(x, e), P) && Cong(c2, c * c, P)
    ensures Cong(c2, IntPow(x, 2 * e), P)
    ensures Cong(c3, c2 * x, P) ==> Cong(c3, IntPow(x, 2 * e + 1), P)
  {
    hide Cong;
    var y := IntPow(x, e);
    CongMul(c, y, c, y, P);
    IntPowAdd(x, e, e);
    CongTrans(c2, c * c, IntPow(x, 2 * e), P);
    SelfCong(x, P);
    CongMul(c2, IntPow(x, 2 * e), x, x, P);
    assert IntPow(x, 2 * e + 1) == x * IntPow(x, 2 * e);
    CongTrans(c3, c2 * x, IntPow(x, 2 * e + 1), P);
  }

  /** o = i^(P-2) modulo P; o may be i. */
  method Inv(o: array<int>, i: array<int>)
    requires o.Length == 16 && i.Length == 16 && Reduced(i[..])
    modifies o
    ensures Reduced(o[..]) && Cong(Val(o[..], R), IntPow(Val(old(i[..]), R), P - 2), P)
  {
    hide Val, Cong, Reduced, Within, IntPow, Exponent;
    ghost var s, x := i[..], Val(i[..], R);
    var c := new int[16];
    for a := 0 to 16
      modifies c
      invariant forall k :: 0 <= k < a ==> c[k] == i[k]
    {
      c[a] := i[a];
    }
    assert c[..] == s;
    ReducedWithin(s);
    FirstPower(x);
    var a := 253;
    while a >= 0
      modifies c
      invariant -1 <= a <= 253
      invariant Reduced(c[..]) && Cong(Val(c[..], R), IntPow(x, Exponent(a + 1)), P)
    {
      ghost var c0 := Val(c[..], R);
      ReducedWithin(c[..]);
      S(c, c);
      ghost var c2 := Val(c[..], R);
      ReducedWithin(c[..]);
      assert i[..] == s;
      if a != 2 && a != 4 {
        M(c, c, i);
      }
      PowerRound(x, c0, Exponent(a + 1), c2, Val(c[..], R));
      ExponentStep(a);
      a := a - 1;
    }
    InversePower();
    ghost var cs := c[..];
    for a := 0 to 16
      modifies o
      invariant forall k :: 0 <= k < a ==> o[k] == cs[k]
    {
      o[a] := c[a];
    }
    assert o[..] == cs;
  }

  lemma FirstPower(x: int)
    ensures Exponent(254) == 1 && Cong(x, IntPow(x, 1), P)
  {
    assert IntPow(x, 1) == x * IntPow(x, 0);
  }

  lemma ExponentStep(a: nat)
    requires a <= 253
    ensures Exponent(a) == 2 * Exponent(a + 1) + if a != 2 && a != 4 then 1 else 0
  {
  }
}
