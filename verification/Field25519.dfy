/** Elements modulo 2^255 - 19 in tweetnacl.c. */
module Field25519 {
  // 16 signed limbs of radix 2^16 in 64-bit words.

  import opened Limbs
  import Bits

  const P: nat := 0x7fffffff_ffffffff_ffffffff_ffffffff_ffffffff_ffffffff_ffffffff_ffffffed
  const TWO255: nat := 0x80000000_00000000_00000000_00000000_00000000_00000000_00000000_00000000
  const TWO256: nat := 0x1_00000000_00000000_00000000_00000000_00000000_00000000_00000000_00000000
  const R: nat := 0x1_0000

  /** The limbs of a product before carrying stay within 44 bits, those of a sum or difference within LIM. */
  const WIDE: int := 0x1000_0000_0000
  const LIM: int := 131146

  predicate I64(x: int) { -0x8000_0000_0000_0000 <= x < 0x8000_0000_0000_0000 }

  predicate Within(s: seq<int>, b: int) {
    |s| == 16 && forall i :: 0 <= i < 16 ==> -b <= s[i] <= b
  }

  /** What two carry passes leave: every limb but the first is reduced. */
  predicate Reduced(s: seq<int>) {
    |s| == 16 && -38 <= s[0] <= 65573 && forall i :: 1 <= i < 16 ==> 0 <= s[i] < R
  }

  lemma Powers()
    ensures Pow(R, 0) == 1 && Pow(R, 1) == R && Pow(R, 16) == TWO256 && TWO256 == 38 + 2 * P
  {
    assert Pow(R, 2) == 0x1_0000_0000;
    PowAdd(R, 2, 2);
    PowAdd(R, 4, 4);
    PowAdd(R, 8, 8);
  }

  // ---------------------------------------------------------------- carrying

  /** The carry into limb i. */
  function Chain(s: seq<int>, i: nat): int
    requires i <= |s|
  {
    if i == 0 then 0 else (s[i - 1] + Chain(s, i - 1)) / 0x1_0000
  }

  /** What a carry pass leaves of limb i. */
  function Kept(s: seq<int>, i: nat): int
    requires i < |s|
  {
    (s[i] + Chain(s, i)) % 0x1_0000
  }

  function Lows(s: seq<int>, n: nat): (t: seq<int>)
    requires n <= |s|
    ensures |t| == n && forall i :: 0 <= i < n ==> t[i] == Kept(s, i)
  {
    seq(n, i requires 0 <= i < n => Kept(s, i))
  }

  /** The limbs after a carry pass: the carry out of the top limb is worth 2^256 and comes back as 38. */
  function Carried(s: seq<int>): (t: seq<int>)
    requires |s| == 16
    ensures t == Lows(s, 16)[0 := Lows(s, 16)[0] + 38 * Chain(s, 16)]
  {
    var low := Lows(s, 16);
    low[0 := low[0] + 38 * Chain(s, 16)]
  }

  lemma CarriedLimbs(s: seq<int>)
    requires |s| == 16
    ensures Carried(s)[0] == Kept(s, 0) + 38 * Chain(s, 16)
    ensures forall i :: 1 <= i < 16 ==> Carried(s)[i] == Kept(s, i)
  {
    hide Chain, Kept;
  }

  lemma {:induction false} LowsVal(s: seq<int>, n: nat)
    requires n <= |s|
    ensures Val(Lows(s, n), R) + Chain(s, n) * Pow(R, n) == Val(s[..n], R)
  {
    if n == 0 {
    } else {
      LowsVal(s, n - 1);
      var t, c := s[n - 1] + Chain(s, n - 1), Chain(s, n);
      assert Lows(s, n) == Lows(s, n - 1) + [t % R];
      hide Lows;
      ValSnoc(Lows(s, n - 1), t % R, R);
      ValPrefix(s, n - 1, R);
      var p := Pow(R, n - 1);
      assert Pow(R, n) == R * p;
      hide Val, Pow;
      CarryTerm(t, c, p);
      Distribute(s[n - 1], Chain(s, n - 1), p);
    }
  }

  lemma CarryTerm(t: int, c: int, p: int)
    requires c == t / R
    ensures (t % R) * p + c * (R * p) == t * p
  {
    Distribute(R * c, t % R, p);
    Assoc(c, R, p);
  }

  /** A carry pass changes the number by a multiple of 2 P. */
  lemma CarriedVal(s: seq<int>)
    requires |s| == 16
    ensures Val(Carried(s), R) == Val(s, R) - Chain(s, 16) * (2 * P)
    ensures Cong(Val(Carried(s), R), Val(s, R), P)
  {
    hide *;
    LowsVal(s, 16);
    assert s[..16] == s;
    var low, c := Lows(s, 16), Chain(s, 16);
    ValUpdate(low, 0, low[0] + 38 * c, R);
    Powers();
    WrapTerm(Val(low, R), c, Val(s, R), Val(Carried(s), R));
  }

  lemma WrapTerm(low: int, c: int, v: int, w: int)
    requires low + c * TWO256 == v && w == low + 38 * c
    ensures w == v - c * (2 * P) && Cong(w, v, P)
  {
    hide Cong;
    assert w == v + (-2 * c) * P;
    AddMultiple(v, -2 * c, P);
  }

  lemma {:induction false} ChainBound(s: seq<int>, i: nat)
    requires Within(s, WIDE) && i <= 16
    ensures -0x1000_2000 <= Chain(s, i) <= 0x1000_2000
  {
    if i > 0 { ChainBound(s, i - 1); }
  }

  lemma FirstPass(s: seq<int>)
    requires Within(s, WIDE)
    ensures var t := Carried(s);
            -0x3_0000_0000 <= t[0] <= 0x3_0000_0000 && forall i :: 1 <= i < 16 ==> 0 <= t[i] < R
  {
    ChainBound(s, 16);
    CarriedLimbs(s);
    hide Chain, Carried;
  }

  lemma {:induction false} SecondChain(s: seq<int>, i: nat)
    requires |s| == 16 && 3 <= i <= 16
    requires -0x3_0000_0000 <= s[0] <= 0x3_0000_0000 && forall k :: 1 <= k < 16 ==> 0 <= s[k] < R
    ensures -1 <= Chain(s, i) <= 1
  {
    if i == 3 {
      assert -0x3_0000 <= Chain(s, 1) <= 0x3_0000;
      assert -4 <= Chain(s, 2) <= 4;
    } else {
      SecondChain(s, i - 1);
    }
  }

  lemma SecondPass(s: seq<int>)
    requires |s| == 16
    requires -0x3_0000_0000 <= s[0] <= 0x3_0000_0000 && forall k :: 1 <= k < 16 ==> 0 <= s[k] < R
    ensures Reduced(Carried(s))
  {
    SecondChain(s, 16);
    CarriedLimbs(s);
    hide Chain, Carried;
  }

  /** The borrow or carry runs on only through limbs that are all 0 or all full. */
  lemma {:induction false} ThirdChain(s: seq<int>, i: nat)
    requires Reduced(s) && 1 <= i <= 16
    ensures -1 <= Chain(s, i) <= 1
    ensures Chain(s, i) == -1 ==> s[0] < 0
    ensures Chain(s, i) == 1 ==> s[0] >= R
  {
    if i > 1 { ThirdChain(s, i - 1); }
  }

  lemma ThirdPass(s: seq<int>)
    requires Reduced(s)
    ensures Digits(Carried(s), R)
  {
    ThirdChain(s, 16);
    assert Chain(s, 0) == 0;
    CarriedLimbs(s);
    hide Chain, Carried;
  }

  /** The limbs when the pass stands before limb i < 16. */
  function During(s: seq<int>, i: nat): (t: seq<int>)
    requires |s| == 16 && i < 16
    ensures |t| == 16
  {
    Lows(s, i) + [s[i] + Chain(s, i)] + s[i + 1..]
  }

  method Car(o: array<int>)
    requires o.Length == 16 && Within(o[..], WIDE)
    modifies o
    ensures o[..] == Carried(old(o[..]))
  {
    ghost var s := o[..];
    hide Chain, Within, Kept, During, Carried, Lows;
    DuringStart(s);
    for i := 0 to 16
      invariant o[..] == if i < 16 then During(s, i) else Carried(s)
    {
      CarOne(o, i, s);
    }
  }

  /** The loop body of car25519. */
  method CarOne(o: array<int>, i: nat, ghost s: seq<int>)
    requires o.Length == 16 && i < 16 && |s| == 16 && Within(s, WIDE) && o[..] == During(s, i)
    modifies o
    ensures o[..] == if i < 15 then During(s, i + 1) else Carried(s)
  {
    hide Chain, Within, Kept, During, Carried, Lows;
    CarStep(s, i);
    DuringStep(s, i);
    assert o[i] == o[..][i];
    ghost var t := o[..];
    o[i] := o[i] + 0x1_0000;
    var c := o[i] / 0x1_0000;
    var next := if i < 15 then i + 1 else 0;
    var top := if i == 15 then 1 else 0;
    TopTimes(c, top);
    o[next] := o[next] + (c - 1 + 37 * (c - 1) * top);
    o[i] := o[i] - c * 0x1_0000;
    assert o[..] == if i < 15 then t[i := Kept(s, i)][i + 1 := t[i + 1] + (c - 1)]
                    else t[0 := t[0] + 38 * (c - 1)][15 := Kept(s, 15)];
  }

  lemma DuringStart(s: seq<int>)
    requires |s| == 16
    ensures During(s, 0) == s
  {
  }

  lemma DuringStep(s: seq<int>, i: nat)
    requires |s| == 16 && i < 16
    ensures var t := During(s, i);
            && t[i] == s[i] + Chain(s, i)
            && (i < 15 ==> During(s, i + 1) == t[i := Kept(s, i)][i + 1 := t[i + 1] + Chain(s, i + 1)])
            && (i == 15 ==> Carried(s) == t[0 := t[0] + 38 * Chain(s, 16)][15 := Kept(s, 15)])
  {
    hide Chain, Kept;
    if i < 15 {
      assert During(s, i + 1) == During(s, i)[i := Kept(s, i)][i + 1 := s[i + 1] + Chain(s, i + 1)];
    }
  }

  lemma TopTimes(c: int, top: int)
    requires top == 0 || top == 1
    ensures c - 1 + 37 * (c - 1) * top == if top == 1 then 38 * (c - 1) else c - 1
  {
  }

  /** The carry is the next link of the chain, and nothing computed on the way leaves 64 bits. */
  lemma CarStep(s: seq<int>, i: nat)
    requires Within(s, WIDE) && i < 16
    ensures var t := s[i] + Chain(s, i);
            && -0x2000_0000_0000 <= t <= 0x2000_0000_0000
            && Chain(s, i + 1) == (t + R) / 0x1_0000 - 1 && Kept(s, i) == t + R - ((t + R) / 0x1_0000) * R
    ensures var t := s[i] + Chain(s, i); I64(t + R) && I64(Chain(s, i + 1) + 1) && I64(38 * Chain(s, i + 1))
  {
    ChainBound(s, i);
    ChainBound(s, i + 1);
  }

  // ---------------------------------------------------------------- selection, sums, products

  /** Exchange p and q when b is 1, without branching. */
  method Sel(p: array<int>, q: array<int>, b: int)
    requires p.Length == 16 && q.Length == 16 && p != q && (b == 0 || b == 1)
    modifies p, q
    ensures p[..] == old(if b == 1 then q[..] else p[..])
    ensures q[..] == old(if b == 1 then p[..] else q[..])
  {
    ghost var ps, qs := p[..], q[..];
    var c := -(b - 1) - 1;
    for i := 0 to 16
      invariant forall k :: 0 <= k < 16 ==> p[k] == if k < i && b == 1 then qs[k] else ps[k]
      invariant forall k :: 0 <= k < 16 ==> q[k] == if k < i && b == 1 then ps[k] else qs[k]
    {
      hide Bits.Xor, Bits.And;
      Bits.MaskedSwap(p[i], q[i]);
      var t := Bits.And(c, Bits.Xor(p[i], q[i]));
      p[i] := Bits.Xor(p[i], t);
      q[i] := Bits.Xor(q[i], t);
    }
    assert p[..] == if b == 1 then qs else ps;
    assert q[..] == if b == 1 then ps else qs;
  }

  /** Limbs whose sums, or whose differences, are 64-bit words. */
  predicate SumsFit(s: seq<int>, t: seq<int>) {
    |s| == |t| == 16 && forall i :: 0 <= i < 16 ==> I64(s[i] + t[i])
  }

  predicate DifferencesFit(s: seq<int>, t: seq<int>) {
    |s| == |t| == 16 && forall i :: 0 <= i < 16 ==> I64(s[i] - t[i])
  }

  lemma ReducedFit(s: seq<int>, t: seq<int>)
    requires Reduced(s) && Reduced(t)
    ensures SumsFit(s, t) && DifferencesFit(s, t)
  {
  }

  /** o = a + b, limb by limb; o may be a or b. */
  method A(o: array<int>, a: array<int>, b: array<int>)
    requires o.Length == 16 && a.Length == 16 && b.Length == 16 && SumsFit(a[..], b[..])
    modifies o
    ensures forall i :: 0 <= i < 16 ==> o[i] == old(a[i]) + old(b[i])
    ensures Val(o[..], R) == Val(old(a[..]), R) + Val(old(b[..]), R)
    ensures old(Reduced(a[..])) && old(Reduced(b[..])) ==> Within(o[..], LIM)
  {
    ghost var s, t := a[..], b[..];
    for i := 0 to 16
      invariant forall k :: 0 <= k < i ==> o[k] == s[k] + t[k]
      invariant forall k :: i <= k < 16 ==> a[k] == s[k] && b[k] == t[k]
    {
      o[i] := a[i] + b[i];
    }
    ValLinear(s, t, o[..], 1, R);
  }

  /** o = a - b. */
  method Z(o: array<int>, a: array<int>, b: array<int>)
    requires o.Length == 16 && a.Length == 16 && b.Length == 16 && DifferencesFit(a[..], b[..])
    modifies o
    ensures forall i :: 0 <= i < 16 ==> o[i] == old(a[i]) - old(b[i])
    ensures Val(o[..], R) == Val(old(a[..]), R) - Val(old(b[..]), R)
    ensures old(Reduced(a[..])) && old(Reduced(b[..])) ==> Within(o[..], LIM)
  {
    ghost var s, t := a[..], b[..];
    for i := 0 to 16
      invariant forall k :: 0 <= k < i ==> o[k] == s[k] - t[k]
      invariant forall k :: i <= k < 16 ==> a[k] == s[k] && b[k] == t[k]
    {
      o[i] := a[i] - b[i];
    }
    ValLinear(s, t, o[..], -1, R);
  }
}
