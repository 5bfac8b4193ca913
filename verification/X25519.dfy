/** X25519 in tweetnacl.c. */
module X25519 {
  // Against the X25519 function of section 5 of RFC 7748.

  import opened Limbs
  import opened Field25519
  import opened Field25519Mul
  import opened Field25519Pack
  import Bits

  const A24: int := 121665

  // ---------------------------------------------------------------- RFC 7748

  datatype Point = Point(x2: int, z2: int, x3: int, z3: int)

  datatype LadderState = LadderState(p: Point, swap: int)

  function Cswap(bit: int, p: Point): Point {
    if bit == 1 then Point(p.x3, p.z3, p.x2, p.z2) else p
  }

  /** One round of the ladder formulas, reduced modulo P. */
  function Mont(x1: int, p: Point): Point {
    var a, b := p.x2 + p.z2, p.x2 - p.z2;
    var aa, bb := a * a, b * b;
    var e := aa - bb;
    var c, d := p.x3 + p.z3, p.x3 - p.z3;
    var da, cb := d * a, c * b;
    Point((aa * bb) % P, (e * (aa + A24 * e)) % P, ((da + cb) * (da + cb)) % P, (x1 * ((da - cb) * (da - cb))) % P)
  }

  function BitAt(k: int, t: nat): int {
    (k / Bits.Pow2(t)) % 2
  }

  function XorBit(a: int, b: int): int { if a == b then 0 else 1 }

  /** The loop of section 5 for the bits 254 .. t, with the swap put off from round to round. */
  function RfcLadder(k: int, u: int, t: nat): LadderState
    requires t <= 255
    decreases 255 - t
  {
    if t == 255 then LadderState(Point(1, 0, u, 1), 0)
    else
      var s := RfcLadder(k, u, t + 1);
      LadderState(Mont(u, Cswap(XorBit(s.swap, BitAt(k, t)), s.p)), BitAt(k, t))
  }

  function RfcX25519(k: int, u: int): int {
    var s := RfcLadder(k, u, 0);
    var p := Cswap(s.swap, s.p);
    (p.x2 * IntPow(p.z2, P - 2)) % P
  }

  /** decodeScalar25519, on bytes. */
  function DecodeScalar(n: seq<int>): (z: seq<int>)
    requires |n| == 32
    ensures |z| == 32
  {
    n[0 := Bits.And(n[0], 248)][31 := Bits.Or(Bits.And(n[31], 127), 64)]
  }

  // ---------------------------------------------------------------- the ladder that swaps back in every round

  function SwappingStep(x1: int, bit: int, p: Point): Point {
    Cswap(bit, Mont(x1, Cswap(bit, p)))
  }

  function SwappingLadder(k: int, u: int, t: nat): Point
    requires t <= 255
    decreases 255 - t
  {
    if t == 255 then Point(1, 0, u, 1) else SwappingStep(u, BitAt(k, t), SwappingLadder(k, u, t + 1))
  }

  /** Swapping before and after every round computes what the RFC's lazy swap does. */
  lemma {:induction false} LaddersAgree(k: int, u: int, t: nat)
    requires t <= 255
    ensures var s := RfcLadder(k, u, t);
            (s.swap == 0 || s.swap == 1) && SwappingLadder(k, u, t) == Cswap(s.swap, s.p)
    decreases 255 - t
  {
    if t < 255 {
      LaddersAgree(k, u, t + 1);
      hide Mont, BitAt;
      BitIsBit(k, t);
    }
  }

  lemma BitIsBit(k: int, t: nat)
    ensures BitAt(k, t) == 0 || BitAt(k, t) == 1
  {
  }

  // ---------------------------------------------------------------- the scalar

  /**
   * The decoded scalar is a multiple of 8 with bit 254 set and nothing above it: the low three bits and bit 255 are
   * cleared, and all others are kept.
   */
  lemma DecodedScalar(n: seq<int>)
    requires |n| == 32 && Digits(n, 256)
    ensures Digits(DecodeScalar(n), 256)
    ensures DecodeScalar(n)[0] % 8 == 0 && 64 <= DecodeScalar(n)[31] < 128
    ensures DecodeScalar(n)[0] == n[0] - n[0] % 8 && DecodeScalar(n)[31] == n[31] % 64 + 64
    ensures forall i :: 1 <= i < 31 ==> DecodeScalar(n)[i] == n[i]
  {
    hide Bits.And, Bits.Or;
    Low3(n[0]);
    And127(n[31]);
    Bit64(n[31] % 128);
  }

  lemma And127(x: int)
    requires 0 <= x < 256
    ensures Bits.And(x, 127) == x % 128 && x % 128 % 64 == x % 64
  {
    hide Bits.And;
    assert Bits.Pow2(7) == 128;
    Bits.MaskIsMod(x, 7);
  }

  lemma Low3(x: int)
    requires 0 <= x < 256
    ensures Bits.And(x, 248) == x - x % 8
  {
    hide Bits.And;
    var y := x / 8;
    And248(x, y);
    And31(y);
    assert y < 32 && x == 8 * y + x % 8;
  }

  lemma And31(y: int)
    ensures Bits.And(y, 31) == y % 32
  {
    hide Bits.And;
    Bits.MaskIsMod(y, 5);
    assert Bits.Pow2(5) == 32;
  }

  lemma And248(x: int, y: int)
    requires 0 <= x < 256 && y == x / 8
    ensures Bits.And(x, 248) == 8 * Bits.And(y, 31)
  {
    hide Bits.And;
    Bits.AndStep(x, 248);
    Bits.AndStep(x / 2, 124);
    Bits.AndStep(x / 2 / 2, 62);
  }

  lemma Bit64(x: int)
    requires 0 <= x < 128
    ensures Bits.Or(x, 64) == x % 64 + 64
  {
    hide Bits.And;
    var y := x / 8;
    And64(x, y);
    And8(y, y / 8);
    assert y / 8 == x / 64;
  }

  lemma And8(y: int, h: int)
    requires 0 <= y < 16 && h == y / 8
    ensures Bits.And(y, 8) == 8 * h
  {
    hide Bits.And;
    Bits.AndStep(y, 8);
    Bits.AndStep(y / 2, 4);
    Bits.AndStep(y / 2 / 2, 2);
    And1(y / 2 / 2 / 2);
  }

  lemma And1(h: int)
    ensures Bits.And(h, 1) == h % 2
  {
    hide Bits.And;
    assert Bits.Pow2(1) == 2;
    Bits.MaskIsMod(h, 1);
  }

  lemma And64(x: int, y: int)
    requires 0 <= x < 128 && y == x / 8
    ensures Bits.And(x, 64) == 8 * Bits.And(y, 8)
  {
    hide Bits.And;
    Bits.AndStep(x, 64);
    Bits.AndStep(x / 2, 32);
    Bits.AndStep(x / 2 / 2, 16);
  }

  /** Bit t of the number is bit t % 8 of byte t / 8. */
  lemma BitOfByte(z: seq<int>, t: nat)
    requires |z| == 32 && Digits(z, 256) && t < 256
    ensures BitAt(Val(z, 256), t) == (z[t / 8] / Bits.Pow2(t % 8)) % 2
  {
    hide Val, Pow;
    var q, s := t / 8, t % 8;
    var low, high := z[..q], z[q + 1..];
    assert z == z[..q + 1] + high && z[..q + 1] == low + [z[q]];
    ValConcat(z[..q + 1], high, 256);
    ValSnoc(low, z[q], 256);
    ValBounds(low, 256);
    PowNext(q);
    PowIsPow2(q);
    Bits.Pow2Add(8 * q, s);
    ByteAt(Val(low, 256), z[q], Val(high, 256), Pow(256, q), s);
  }

  lemma PowNext(q: nat)
    ensures Pow(256, q + 1) == 256 * Pow(256, q) && Pow(256, q) > 0
  {
    PowPositive(256, q);
  }

  lemma ByteAt(low: int, b: int, high: int, p: nat, s: nat)
    requires 0 <= low < p && 0 <= b < 256 && s < 8
    ensures ((low + b * p + (256 * p) * high) / (p * Bits.Pow2(s))) % 2 == (b / Bits.Pow2(s)) % 2
  {
    var m, w := Bits.Pow2(s), Bits.Pow2(8 - s);
    Widths(s);
    EvenWidth(s, w);
    hide Bits.Pow2;
    ByteOver(low, b, high, p, m, w);
    EvenPart(b / m, w, high);
  }

  lemma ByteOver(low: int, b: int, high: int, p: nat, m: nat, w: nat)
    requires 0 <= low < p && 0 <= b && m > 0 && m * w == 256
    ensures p * m > 0 && (low + b * p + (256 * p) * high) / (p * m) == b / m + w * high
  {
    var q, r := b / m, b % m;
    Parts(b, m);
    Whole(low, b, high, p, m, w, q, r);
    SmallRest(low, r, p, m);
    ByRemainder(low + b * p + (256 * p) * high, p * m, q + w * high, low + r * p);
  }

  lemma Parts(b: int, m: nat)
    requires m > 0
    ensures b == m * (b / m) + b % m
  {
  }

  lemma ByRemainder(x: int, d: int, q: int, r: int)
    requires x == q * d + r && 0 <= r < d
    ensures x / d == q
  {
    RemainderIs(x, d, q, r);
  }

  lemma Widths(s: nat)
    requires s < 8
    ensures Bits.Pow2(s) * Bits.Pow2(8 - s) == 256
  {
    Bits.Pow2Add(s, 8 - s);
    assert Bits.Pow2(8) == 256;
  }

  lemma Whole(low: int, b: int, high: int, p: int, m: int, w: int, q: int, r: int)
    requires b == m * q + r && m * w == 256
    ensures low + b * p + (256 * p) * high == (q + w * high) * (p * m) + (low + r * p)
  {
    Distribute(m * q, r, p);
    Distribute(q, w * high, p * m);
    assert (m * q) * p == q * (p * m);
    assert (256 * p) * high == ((m * w) * p) * high;
    assert ((m * w) * p) * high == (w * high) * (p * m);
  }

  lemma SmallRest(low: int, r: int, p: int, m: int)
    requires 0 <= low < p && 0 <= r < m
    ensures 0 <= low + r * p < p * m
  {
    MulNonNeg(r, p);
    MulNonNeg(m - 1 - r, p);
    Distribute(m, 1 + r, p);
    Distribute(1, r, p);
  }

  lemma EvenWidth(s: nat, w: int)
    requires s < 8 && w == Bits.Pow2(8 - s)
    ensures w % 2 == 0
  {
  }

  lemma EvenPart(q: int, w: int, high: int)
    requires w % 2 == 0
    ensures (q + w * high) % 2 == q % 2
  {
    var h := w / 2;
    Assoc(2, h, high);
    assert q + w * high == q + 2 * (h * high);
  }

  // ---------------------------------------------------------------- one round of the code

  /** The eight arrays of a round do not overlap. */
  predicate Apart(a: array<int>, b: array<int>, c: array<int>, d: array<int>, e: array<int>, f: array<int>,
                  x: array<int>, k: array<int>) {
    && a.Length == b.Length == c.Length == d.Length == e.Length == f.Length == x.Length == k.Length == 16
    && a != b && a != c && a != d && a != e && a != f && a != x && a != k
    && b != c && b != d && b != e && b != f && b != x && b != k
    && c != d && c != e && c != f && c != x && c != k
    && d != e && d != f && d != x && d != k
    && e != f && e != x && e != k && f != x && f != k
  }

  method SumsAndSquares(a: array<int>, b: array<int>, c: array<int>, d: array<int>, e: array<int>, f: array<int>,
                        x: array<int>, k: array<int>)
    requires Apart(a, b, c, d, e, f, x, k)
    requires Reduced(a[..]) && Reduced(b[..]) && Reduced(c[..]) && Reduced(d[..])
    modifies a, b, c, d, e, f
    ensures Val(e[..], R) == Val(old(a[..]), R) + Val(old(c[..]), R) &&
      Val(a[..], R) == Val(old(a[..]), R) - Val(old(c[..]), R)
    ensures Val(c[..], R) == Val(old(b[..]), R) + Val(old(d[..]), R) &&
      Val(b[..], R) == Val(old(b[..]), R) - Val(old(d[..]), R)
    ensures Within(a[..], LIM) && Within(b[..], LIM) && Within(c[..], LIM) && Within(e[..], LIM)
    ensures Reduced(d[..]) && Cong(Val(d[..], R), Val(e[..], R) * Val(e[..], R), P)
    ensures Reduced(f[..]) && Cong(Val(f[..], R), Val(a[..], R) * Val(a[..], R), P)
  {
    hide Val, Cong, Within, Reduced, SumsFit, DifferencesFit;
    ReducedFit(a[..], c[..]);
    ReducedFit(b[..], d[..]);
    A(e, a, c);
    Z(a, a, c);
    A(c, b, d);
    Z(b, b, d);
    S(d, e);
    S(f, a);
  }

  method Crossed(a: array<int>, b: array<int>, c: array<int>, d: array<int>, e: array<int>, f: array<int>,
                 x: array<int>, k: array<int>)
    returns (ghost cb: int, ghost da: int)
    requires Apart(a, b, c, d, e, f, x, k)
    requires Within(a[..], LIM) && Within(b[..], LIM) && Within(c[..], LIM) && Within(e[..], LIM)
    requires Reduced(d[..]) && Reduced(f[..])
    modifies a, b, c, e
    ensures Cong(cb, Val(old(c[..]), R) * Val(old(a[..]), R), P) && Cong(da, Val(old(b[..]), R) * Val(old(e[..]), R), P)
    ensures Within(e[..], LIM) && Val(e[..], R) == cb + da
    ensures Reduced(b[..]) && Cong(Val(b[..], R), (cb - da) * (cb - da), P)
    ensures Within(c[..], LIM) && Val(c[..], R) == Val(d[..], R) - Val(f[..], R)
  {
    hide Val, Cong, Within, Reduced;
    M(a, c, a);
    cb := Val(a[..], R);
    M(c, b, e);
    da := Val(c[..], R);
    ReducedFit(a[..], c[..]);
    A(e, a, c);
    Z(a, a, c);
    S(b, a);
    ReducedFit(d[..], f[..]);
    Z(c, d, f);
  }

  method Outputs(a: array<int>, b: array<int>, c: array<int>, d: array<int>, e: array<int>, f: array<int>,
                 x: array<int>, k: array<int>)
    returns (ghost ka: int)
    requires Apart(a, b, c, d, e, f, x, k)
    requires Reduced(b[..]) && Within(c[..], LIM) && Reduced(d[..]) && Within(e[..], LIM) && Reduced(f[..]) &&
      Reduced(x[..])
    requires Within(k[..], LIM)
    modifies a, b, c, d
    ensures Cong(ka, Val(old(c[..]), R) * Val(k[..], R), P)
    ensures Reduced(c[..]) && Cong(Val(c[..], R), Val(old(c[..]), R) * (ka + Val(old(d[..]), R)), P)
    ensures Reduced(a[..]) && Cong(Val(a[..], R), Val(old(d[..]), R) * Val(f[..], R), P)
    ensures Reduced(d[..]) && Cong(Val(d[..], R), Val(old(b[..]), R) * Val(x[..], R), P)
    ensures Reduced(b[..]) && Cong(Val(b[..], R), Val(e[..], R) * Val(e[..], R), P)
  {
    hide Val, Cong, Within, Reduced;
    M(a, c, k);
    ka := Val(a[..], R);
    ReducedFit(a[..], d[..]);
    A(a, a, d);
    M(c, c, a);
    ReducedWithin(d[..]);
    ReducedWithin(f[..]);
    M(a, d, f);
    ReducedWithin(b[..]);
    ReducedWithin(x[..]);
    M(d, b, x);
    S(b, e);
  }

  /** The arrays hold the point, modulo P. */
  predicate Holds(a: int, c: int, b: int, d: int, p: Point) {
    Cong(a, p.x2, P) && Cong(c, p.z2, P) && Cong(b, p.x3, P) && Cong(d, p.z3, P)
  }

  /** r is a product of numbers congruent to b and d. */
  lemma Times(r: int, a: int, b: int, c: int, d: int)
    requires Cong(r, a * c, P) && Cong(a, b, P) && Cong(c, d, P)
    ensures Cong(r, b * d, P)
  {
    hide Cong;
    CongMul(a, b, c, d, P);
    CongTrans(r, a * c, b * d, P);
  }

  lemma Reduces(r: int, v: int)
    requires Cong(r, v, P)
    ensures Cong(r, v % P, P)
  {
    CongMod(v, P);
  }

  lemma SumsHold(a0: int, c0: int, b0: int, d0: int, p: Point, d1: int, f1: int)
    requires Holds(a0, c0, b0, d0, p)
    requires Cong(d1, (a0 + c0) * (a0 + c0), P) && Cong(f1, (a0 - c0) * (a0 - c0), P)
    ensures var a, b := p.x2 + p.z2, p.x2 - p.z2;
            && Cong(a0 + c0, a, P) && Cong(a0 - c0, b, P)
            && Cong(b0 + d0, p.x3 + p.z3, P) && Cong(b0 - d0, p.x3 - p.z3, P)
            && Cong(d1, a * a, P) && Cong(f1, b * b, P)
  {
    CongAdd(a0, p.x2, c0, p.z2, P);
    CongAdd(b0, p.x3, d0, p.z3, P);
    Times(d1, a0 + c0, p.x2 + p.z2, a0 + c0, p.x2 + p.z2);
    Times(f1, a0 - c0, p.x2 - p.z2, a0 - c0, p.x2 - p.z2);
  }

  lemma CrossHolds(cb: int, da: int, b2: int, cbs: int, das: int)
    requires Cong(cb, cbs, P) && Cong(da, das, P) && Cong(b2, (cb - da) * (cb - da), P)
    ensures Cong(cb + da, das + cbs, P) && Cong(b2, (das - cbs) * (das - cbs), P)
  {
    hide Cong;
    CongAdd(cb, cbs, da, das, P);
    Times(b2, cb - da, cbs - das, cb - da, cbs - das);
    assert (cbs - das) * (cbs - das) == (das - cbs) * (das - cbs);
  }

  lemma EHolds(d1: int, f1: int, aa: int, bb: int, ka: int, c3: int, a3: int)
    requires Cong(d1, aa, P) && Cong(f1, bb, P)
    requires Cong(ka, (d1 - f1) * A24, P) && Cong(c3, (d1 - f1) * (ka + d1), P) && Cong(a3, d1 * f1, P)
    ensures Cong(a3, aa * bb, P)
    ensures Cong(c3, (aa - bb) * (aa + A24 * (aa - bb)), P)
  {
    hide Cong;
    CongAdd(d1, aa, f1, bb, P);
    SelfCong(A24, P);
    Times(ka, d1 - f1, aa - bb, A24, A24);
    CongAdd(ka, (aa - bb) * A24, d1, aa, P);
    Times(c3, d1 - f1, aa - bb, ka + d1, (aa - bb) * A24 + aa);
    Times(a3, d1, aa, f1, bb);
    assert (aa - bb) * A24 + aa == aa + A24 * (aa - bb);
  }

  /** sel, the formulas and sel again on the arrays are one swapping step on the point they hold. */
  method Round(a: array<int>, b: array<int>, c: array<int>, d: array<int>, e: array<int>, f: array<int>,
               x: array<int>, k: array<int>, r: int, ghost x1: int, ghost p: Point)
    requires Apart(a, b, c, d, e, f, x, k) && (r == 0 || r == 1)
    requires Reduced(a[..]) && Reduced(b[..]) && Reduced(c[..]) && Reduced(d[..]) && Reduced(x[..])
    requires Within(k[..], LIM) && Val(k[..], R) == A24 && Cong(Val(x[..], R), x1, P)
    requires Holds(Val(a[..], R), Val(c[..], R), Val(b[..], R), Val(d[..], R), p)
    modifies a, b, c, d, e, f
    ensures Reduced(a[..]) && Reduced(b[..]) && Reduced(c[..]) && Reduced(d[..])
    ensures Holds(Val(a[..], R), Val(c[..], R), Val(b[..], R), Val(d[..], R), SwappingStep(x1, r, p))
  {
    hide Val, Cong, Within, Reduced, Mont;
    ghost var xs, ks := x[..], k[..];
    Sel(a, b, r);
    Sel(c, d, r);
    ghost var q := Cswap(r, p);
    assert Holds(Val(a[..], R), Val(c[..], R), Val(b[..], R), Val(d[..], R), q);
    assert x[..] == xs && k[..] == ks;
    Formulas(a, b, c, d, e, f, x, k, x1, q);
    Sel(a, b, r);
    Sel(c, d, r);
  }

  method Formulas(a: array<int>, b: array<int>, c: array<int>, d: array<int>, e: array<int>, f: array<int>,
                  x: array<int>, k: array<int>, ghost x1: int, ghost p: Point)
    requires Apart(a, b, c, d, e, f, x, k)
    requires Reduced(a[..]) && Reduced(b[..]) && Reduced(c[..]) && Reduced(d[..]) && Reduced(x[..])
    requires Within(k[..], LIM) && Val(k[..], R) == A24 && Cong(Val(x[..], R), x1, P)
    requires Holds(Val(a[..], R), Val(c[..], R), Val(b[..], R), Val(d[..], R), p)
    modifies a, b, c, d, e, f
    ensures Reduced(a[..]) && Reduced(b[..]) && Reduced(c[..]) && Reduced(d[..])
    ensures Holds(Val(a[..], R), Val(c[..], R), Val(b[..], R), Val(d[..], R), Mont(x1, p))
  {
    hide Val, Cong, Within, Reduced, Mont, Holds;
    ghost var a0, c0, b0, d0, xv := Val(a[..], R), Val(c[..], R), Val(b[..], R), Val(d[..], R), Val(x[..], R);
    ghost var xs, ks := x[..], k[..];
    SumsAndSquares(a, b, c, d, e, f, x, k);
    ghost var d1, f1 := Val(d[..], R), Val(f[..], R);
    ghost var cb, da := Crossed(a, b, c, d, e, f, x, k);
    ghost var b2 := Val(b[..], R);
    assert x[..] == xs && k[..] == ks;
    ghost var ka := Outputs(a, b, c, d, e, f, x, k);
    ghost var s, t, u, v := p.x2 + p.z2, p.x2 - p.z2, p.x3 + p.z3, p.x3 - p.z3;
    SumsHold(a0, c0, b0, d0, p, d1, f1);
    Times(cb, b0 + d0, u, a0 - c0, t);
    Times(da, b0 - d0, v, a0 + c0, s);
    CrossHolds(cb, da, b2, u * t, v * s);
    ghost var sum, diff := v * s + u * t, v * s - u * t;
    EHolds(d1, f1, s * s, t * t, ka, Val(c[..], R), Val(a[..], R));
    Times(Val(b[..], R), cb + da, sum, cb + da, sum);
    Times(Val(d[..], R), b2, diff * diff, xv, x1);
    Finish(Val(a[..], R), Val(c[..], R), Val(b[..], R), Val(d[..], R), x1, s * s, t * t, sum, diff, p);
  }

  lemma Finish(a3: int, c3: int, b3: int, d3: int, x1: int, aa: int, bb: int, sum: int, diff: int, p: Point)
    requires aa == (p.x2 + p.z2) * (p.x2 + p.z2) && bb == (p.x2 - p.z2) * (p.x2 - p.z2)
    requires sum == (p.x3 - p.z3) * (p.x2 + p.z2) + (p.x3 + p.z3) * (p.x2 - p.z2)
    requires diff == (p.x3 - p.z3) * (p.x2 + p.z2) - (p.x3 + p.z3) * (p.x2 - p.z2)
    requires Cong(a3, aa * bb, P) && Cong(c3, (aa - bb) * (aa + A24 * (aa - bb)), P)
    requires Cong(b3, sum * sum, P) && Cong(d3, (diff * diff) * x1, P)
    ensures Holds(a3, c3, b3, d3, Mont(x1, p))
  {
    hide Cong;
    Reduces(a3, aa * bb);
    Reduces(c3, (aa - bb) * (aa + A24 * (aa - bb)));
    Reduces(b3, sum * sum);
    Reduces(d3, (diff * diff) * x1);
    assert (diff * diff) * x1 == x1 * (diff * diff);
  }

  // ---------------------------------------------------------------- the function

  lemma ResultHolds(a: int, c: int, inv: int, prod: int, p: Point)
    requires Cong(a, p.x2, P) && Cong(c, p.z2, P) && Cong(inv, IntPow(c, P - 2), P) && Cong(prod, a * inv, P)
    ensures prod % P == (p.x2 * IntPow(p.z2, P - 2)) % P
  {
    hide Cong;
    PowerCong(c, p.z2, P - 2);
    CongTrans(inv, IntPow(c, P - 2), IntPow(p.z2, P - 2), P);
    Times(prod, a, p.x2, inv, IntPow(p.z2, P - 2));
    SameResidue(prod, p.x2 * IntPow(p.z2, P - 2));
  }

  lemma SameResidue(a: int, b: int)
    requires Cong(a, b, P)
    ensures a % P == b % P
  {
  }

  lemma {:induction false} PowerCong(a: int, b: int, e: nat)
    requires Cong(a, b, P)
    ensures Cong(IntPow(a, e), IntPow(b, e), P)
  {
    hide Cong;
    if e == 0 {
      SelfCong(1, P);
    } else {
      PowerCong(a, b, e - 1);
      CongMul(a, b, IntPow(a, e - 1), IntPow(b, e - 1), P);
    }
  }

  /** A field element holding a small number. */
  method SetSmall(o: array<int>, lo: int, hi: int)
    requires o.Length == 16 && 0 <= lo < R && 0 <= hi < R
    modifies o
    ensures Reduced(o[..]) && Val(o[..], R) == lo + R * hi
  {
    for i := 0 to 16
      invariant forall k :: 0 <= k < i ==> o[k] == 0
    {
      o[i] := 0;
    }
    ghost var zero := o[..];
    o[0] := lo;
    o[1] := hi;
    assert o[..] == zero[0 := lo][1 := hi];
    hide Val;
    ValZero(zero, R);
    ValUpdate(zero, 0, lo, R);
    ValUpdate(zero[0 := lo], 1, hi, R);
    assert Pow(R, 0) == 1 && Pow(R, 1) == R;
  }

  method Copy(o: array<int>, a: array<int>)
    requires o.Length == 16 && a.Length == 16 && o != a
    modifies o
    ensures o[..] == a[..]
  {
    for i := 0 to 16
      invariant forall k :: 0 <= k < i ==> o[k] == a[k]
    {
      o[i] := a[i];
    }
  }

  lemma LadderStart(x: int, u: int, k: int)
    requires Cong(x, u, P)
    ensures Holds(1, 0, x, 1, SwappingLadder(k, u, 255))
  {
    SelfCong(1, P);
    SelfCong(0, P);
  }

  lemma LadderNext(k: int, u: int, i: nat)
    requires i < 255
    ensures SwappingLadder(k, u, i) == SwappingStep(u, BitAt(k, i), SwappingLadder(k, u, i + 1))
  {
    hide Mont, BitAt;
  }

  /** 255 rounds over the bits of the scalar, from the top. */
  method Ladder(a: array<int>, b: array<int>, c: array<int>, d: array<int>, e: array<int>, f: array<int>,
                x: array<int>, k: array<int>, z: seq<int>, ghost u: int)
    requires Apart(a, b, c, d, e, f, x, k) && |z| == 32 && Digits(z, 256)
    requires Reduced(x[..]) && Within(k[..], LIM) && Val(k[..], R) == A24 && Cong(Val(x[..], R), u, P)
    modifies a, b, c, d, e, f
    ensures Reduced(a[..]) && Reduced(c[..])
    ensures var p := SwappingLadder(Val(z, 256), u, 0);
            Cong(Val(a[..], R), p.x2, P) && Cong(Val(c[..], R), p.z2, P)
  {
    hide Val, Cong, Within, Reduced, Mont, Holds, BitAt, SwappingLadder, SwappingStep;
    ghost var n, xs, ks := Val(z, 256), x[..], k[..];
    Copy(b, x);
    SetSmall(d, 1, 0);
    SetSmall(a, 1, 0);
    SetSmall(c, 0, 0);
    LadderStart(Val(xs, R), u, n);
    var i := 254;
    while i >= 0
      modifies a, b, c, d, e, f
      invariant -1 <= i <= 254
      invariant Reduced(a[..]) && Reduced(b[..]) && Reduced(c[..]) && Reduced(d[..])
      invariant Holds(Val(a[..], R), Val(c[..], R), Val(b[..], R), Val(d[..], R), SwappingLadder(n, u, i + 1))
    {
      BitOfByte(z, i);
      BitIsBit(n, i);
      var r := (z[i / 8] / Bits.Pow2(i % 8)) % 2;
      assert x[..] == xs && k[..] == ks;
      Round(a, b, c, d, e, f, x, k, r, u, SwappingLadder(n, u, i + 1));
      LadderNext(n, u, i);
      i := i - 1;
    }
    HoldsParts(Val(a[..], R), Val(c[..], R), Val(b[..], R), Val(d[..], R), SwappingLadder(n, u, 0));
  }

  lemma HoldsParts(a: int, c: int, b: int, d: int, p: Point)
    requires Holds(a, c, b, d, p)
    ensures Cong(a, p.x2, P) && Cong(c, p.z2, P)
  {
  }

  lemma SwappingIsRfc(k: int, u: int)
    ensures RfcX25519(k, u) == (SwappingLadder(k, u, 0).x2 * IntPow(SwappingLadder(k, u, 0).z2, P - 2)) % P
  {
    hide IntPow, RfcLadder, SwappingLadder;
    LaddersAgree(k, u, 0);
  }

  lemma ReducedWide(s: seq<int>)
    requires Reduced(s)
    ensures Within(s, WIDE)
  {
  }

  /** For every scalar and u-coordinate, the 32 bytes of the X25519 function of section 5 of RFC 7748:
      the scalar is decoded and the top bit of the coordinate is ignored as the RFC demands. */
  method Scalarmult(q: array<int>, n: seq<int>, p: seq<int>)
    requires q.Length == 32 && |n| == 32 && |p| == 32 && Digits(n, 256) && Digits(p, 256)
    modifies q
    ensures Digits(q[..], 256)
    ensures Val(q[..], 256) == RfcX25519(Val(DecodeScalar(n), 256), Val(p, 256) % TWO255)
  {
    hide Val, Cong, Within, Reduced, IntPow, RfcX25519, Holds, DecodeScalar, Digits, SwappingLadder;
    DecodedScalar(n);
    var z := DecodeScalar(n);
    var x, k := new int[16], new int[16];
    Unpack(x, p);
    ghost var u := Val(p, 256) % TWO255;
    SetSmall(k, 0xDB41, 1);
    ReducedWithin(k[..]);
    var a, b, c := new int[16], new int[16], new int[16];
    var d, e, f := new int[16], new int[16], new int[16];
    SelfCong(u, P);
    Ladder(a, b, c, d, e, f, x, k, z, u);
    SwappingIsRfc(Val(z, 256), u);
    Quotient(q, a, c, SwappingLadder(Val(z, 256), u, 0));
  }

  /** The end of crypto_scalarmult: x2 times the inverse of z2, packed. */
  method Quotient(q: array<int>, a: array<int>, c: array<int>, ghost l: Point)
    requires q.Length == 32 && a.Length == c.Length == 16 && Reduced(a[..]) && Reduced(c[..])
    requires Cong(Val(a[..], R), l.x2, P) && Cong(Val(c[..], R), l.z2, P)
    modifies q
    ensures Digits(q[..], 256) && Val(q[..], 256) == (l.x2 * IntPow(l.z2, P - 2)) % P
  {
    hide Val, Cong, Within, Reduced, IntPow, Digits;
    var xa, xc := new int[16], new int[16];
    Copy(xa, a);
    Copy(xc, c);
    ghost var av, cv := Val(xa[..], R), Val(xc[..], R);
    Inv(xc, xc);
    ghost var iv := Val(xc[..], R);
    ReducedWithin(xa[..]);
    ReducedWithin(xc[..]);
    M(xa, xa, xc);
    ReducedWide(xa[..]);
    ResultHolds(av, cv, iv, Val(xa[..], R), l);
    Pack(q, xa);
  }
}
