/** The curve of X25519. */
module X25519Curve {
  // v^2 = u^3 + 486662 u^2 + u modulo 2^255 - 19, on projective u-coordinates X : Z.

  import opened Limbs
  import opened Field25519
  import opened Field25519Mul
  import opened X25519
  import Bits

  /** A u-coordinate X / Z. */
  datatype Coordinate = Coordinate(X: int, Z: int)

  function Sq(x: int): int { x * x }

  /** The coordinate of twice a point. */
  function Doubled(a: Coordinate): Coordinate {
    Coordinate(Sq(a.X * a.X - a.Z * a.Z), 4 * (a.X * a.Z) * (a.X * a.X + 486662 * (a.X * a.Z) + a.Z * a.Z))
  }

  /** The coordinate of the sum of two points whose difference has coordinate u. */
  function Summed(a: Coordinate, b: Coordinate, u: int): Coordinate {
    Coordinate(4 * Sq(a.X * b.X - a.Z * b.Z), 4 * (u * Sq(a.X * b.Z - a.Z * b.X)))
  }

  function Modulo(a: Coordinate): Coordinate { Coordinate(a.X % P, a.Z % P) }

  /** One round of the ladder doubles the first point and adds the two. */
  lemma RoundOnCurve(x1: int, p: Point)
    ensures var q := Mont(x1, p);
      && q.x2 == Sq(p.x2 * p.x2 - p.z2 * p.z2) % P
      && q.z2 == (4 * (p.x2 * p.z2) * (p.x2 * p.x2 + 486662 * (p.x2 * p.z2) + p.z2 * p.z2)) % P
      && q.x3 == (4 * Sq(p.x2 * p.x3 - p.z2 * p.z3)) % P
      && q.z3 == (4 * (x1 * Sq(p.x2 * p.z3 - p.z2 * p.x3))) % P
  {
    var x, z, y, w := p.x2, p.z2, p.x3, p.z3;
    Doubles(x, z);
    Sums(x, z, y, w);
    var d := (y - w) * (x + z) - (y + w) * (x - z);
    FourTimes(x1, d * d, Sq(x * w - z * y));
    hide Sq;
  }

  lemma FourTimes(a: int, b: int, c: int)
    requires b == 4 * c
    ensures a * b == 4 * (a * c)
  {
  }

  lemma Doubles(x: int, z: int)
    ensures ((x + z) * (x + z)) * ((x - z) * (x - z)) == Sq(x * x - z * z)
    ensures var aa, bb := (x + z) * (x + z), (x - z) * (x - z);
      (aa - bb) * (aa + 121665 * (aa - bb)) == 4 * (x * z) * (x * x + 486662 * (x * z) + z * z)
  {
    var m, s, t := x * z, x * x, z * z;
    assert (x + z) * (x - z) == s - t;
    assert (x + z) * (x + z) == s + 2 * m + t && (x - z) * (x - z) == s - 2 * m + t;
    assert ((x + z) * (x + z)) * ((x - z) * (x - z)) == ((x + z) * (x - z)) * ((x + z) * (x - z));
  }

  lemma Sums(x: int, z: int, y: int, w: int)
    ensures var da, cb := (y - w) * (x + z), (y + w) * (x - z);
      && (da + cb) * (da + cb) == 4 * Sq(x * y - z * w)
      && (da - cb) * (da - cb) == 4 * Sq(x * w - z * y)
  {
    assert (y - w) * (x + z) == x * y + z * y - x * w - z * w;
    assert (y + w) * (x - z) == x * y - z * y + x * w - z * w;
    Twice(x * y - z * w);
    Twice(z * y - x * w);
    Twice(x * w - z * y);
  }

  lemma Twice(t: int)
    ensures (2 * t) * (2 * t) == 4 * Sq(t) && Sq(-t) == Sq(t)
  {
  }

  // ---------------------------------------------------------------- the group law in affine coordinates, modulo any n

  function Cubic(u: int): int { u * u * u + 486662 * (u * u) + u }

  /** (u, v) is a point of the curve. */
  predicate OnCurve(u: int, v: int, n: nat)
    requires n > 0
  {
    Cong(v * v, Cubic(u), n)
  }

  /**
   * The tangent at (u, v) has slope l / 2v; the point where it meets the curve again has coordinate
   * (l / 2v)^2 - 486662 - 2u. Over the denominator (2v)^2 that is the doubled coordinate.
   */
  lemma TangentDoubles(u: int, v: int, n: nat)
    requires n > 0 && OnCurve(u, v, n)
    ensures var l, d := 3 * (u * u) + 2 * 486662 * u + 1, Doubled(Coordinate(u, 1));
      Cong(d.X, l * l - (486662 + 2 * u) * (4 * (v * v)), n) && Cong(d.Z, 4 * (v * v), n)
  {
    var l, f := 3 * (u * u) + 2 * 486662 * u + 1, Cubic(u);
    TangentIdentity(u);
    assert Cong(f, v * v, n);
    hide Cong, Cubic;
    SelfCong(4, n);
    CongMul(4, 4, f, v * v, n);
    SelfCong(486662 + 2 * u, n);
    CongMul(486662 + 2 * u, 486662 + 2 * u, 4 * f, 4 * (v * v), n);
    SelfCong(l * l, n);
    CongAdd(l * l, l * l, (486662 + 2 * u) * (4 * f), (486662 + 2 * u) * (4 * (v * v)), n);
  }

  lemma TangentIdentity(u: int)
    ensures var l, f := 3 * (u * u) + 2 * 486662 * u + 1, Cubic(u);
      && Sq(u * u - 1) == l * l - (486662 + 2 * u) * (4 * f)
      && 4 * (u * 1) * (u * u + 486662 * (u * 1) + 1 * 1) == 4 * f
  {
  }

  /**
   * The chord through (x, y) and (z, w), and the one through (x, y) and (z, -w), meet the curve again at points with
   * coordinates p and m: the sum of the two points and their difference. From m and the coordinates of the two, the
   * formulas give p; d says that x - z can be divided by.
   */
  lemma ChordSums(x: int, y: int, z: int, w: int, p: int, m: int, d: int, n: nat)
    requires n > 0 && OnCurve(x, y, n) && OnCurve(z, w, n) && Cong(d * Sq(x - z), 1, n)
    requires Cong(Sq(x - z) * (p + 486662 + x + z), Sq(y - w), n)
    requires Cong(Sq(x - z) * (m + 486662 + x + z), Sq(y + w), n)
    ensures var s := Summed(Coordinate(x, 1), Coordinate(z, 1), m);
      Cong(p * s.Z, s.X, n)
  {
    var q, c := Sq(x - z), 486662 + x + z;
    hide Cong, Cubic, Sq;
    ThirdPoint(q, p, c, Sq(y - w), n);
    ThirdPoint(q, m, c, Sq(y + w), n);
    CongMul(q * p, Sq(y - w) - c * q, q * m, Sq(y + w) - c * q, n);
    ChordProduct(y, w, c * q);
    InCubics(y * y, w * w, Cubic(x), Cubic(z), c * q, n);
    ChordIdentity(x, z);
    CongTrans((q * p) * (q * m), InSquares(y * y, w * w, c * q), InSquares(Cubic(x), Cubic(z), c * q), n);
    Cancel(d, q, p, m, Sq(x * z - 1), n);
    Answer(p, m, x, z, n);
  }

  function InSquares(a: int, b: int, r: int): int {
    Sq(a - b) - 2 * r * (a + b) + r * r
  }

  lemma ThirdPoint(q: int, p: int, c: int, t: int, n: nat)
    requires n > 0 && Cong(q * (p + c), t, n)
    ensures Cong(q * p, t - c * q, n)
  {
    assert q * (p + c) - c * q == q * p;
    hide Cong;
    SelfCong(c * q, n);
    CongAdd(q * (p + c), t, c * q, c * q, n);
  }

  lemma ChordProduct(y: int, w: int, r: int)
    ensures (Sq(y - w) - r) * (Sq(y + w) - r) == InSquares(y * y, w * w, r)
  {
    var a, b, t := y * y, w * w, y * w;
    assert Sq(y - w) == a - 2 * t + b && Sq(y + w) == a + 2 * t + b;
    assert t * t == a * b;
    assert (a - 2 * t + b) * (a + 2 * t + b) == (a + b) * (a + b) - 4 * (t * t);
  }

  lemma InCubics(a: int, b: int, f: int, g: int, r: int, n: nat)
    requires n > 0 && Cong(a, f, n) && Cong(b, g, n)
    ensures Cong(InSquares(a, b, r), InSquares(f, g, r), n)
  {
    hide Cong;
    CongAdd(a, f, b, g, n);
    CongMul(a - b, f - g, a - b, f - g, n);
    SelfCong(2 * r, n);
    CongMul(2 * r, 2 * r, a + b, f + g, n);
    CongAdd(Sq(a - b), Sq(f - g), 2 * r * (a + b), 2 * r * (f + g), n);
    SelfCong(r * r, n);
    CongAdd(Sq(a - b) - 2 * r * (a + b), Sq(f - g) - 2 * r * (f + g), r * r, r * r, n);
  }

  lemma ChordIdentity(x: int, y: int)
    ensures InSquares(Cubic(x), Cubic(y), (486662 + x + y) * Sq(x - y)) == Sq(x - y) * Sq(x * y - 1)
  {
    hide Cubic, Sq, InSquares;
    CubicDifference(x, y);
    CubicSum(x, y);
    SquareOfDifference(x, y);
    BySumAndProduct(x + y, x * y);
    Combined(Cubic(x), Cubic(y), x - y, 486662 + x + y, Quotient(x + y, x * y), Total(x + y, x * y), Sq(x * y - 1));
  }

  lemma Combined(f: int, g: int, d: int, c: int, q: int, t: int, r: int)
    requires f - g == d * q && f + g == t && q * q - 2 * c * t + c * c * Sq(d) == r
    ensures InSquares(f, g, c * Sq(d)) == Sq(d) * r
  {
    var e := d * d;
    assert Sq(d * q) == e * (q * q);
    assert 2 * (c * e) * t == e * (2 * c * t) && (c * e) * (c * e) == e * (c * c * e);
    assert e * (q * q) - e * (2 * c * t) + e * (c * c * e) == e * (q * q - 2 * c * t + c * c * e);
  }

  /** The difference of two cubics over that of their arguments, and their sum, by sum and product of the arguments. */
  function Quotient(s: int, p: int): int { s * s - p + 486662 * s + 1 }

  function Total(s: int, p: int): int { s * (s * s) - 3 * (p * s) + 486662 * (s * s - 2 * p) + s }

  lemma CubicDifference(x: int, y: int)
    ensures Cubic(x) - Cubic(y) == (x - y) * Quotient(x + y, x * y)
  {
    var s, p, d := x + y, x * y, x - y;
    assert x * x - y * y == d * s;
    assert s * s - p == x * x + p + y * y;
    assert d * (x * x + p + y * y) == x * x * x - y * y * y;
    assert d * Quotient(s, p) == d * (s * s - p) + 486662 * (d * s) + d;
  }

  lemma CubicSum(x: int, y: int)
    ensures Cubic(x) + Cubic(y) == Total(x + y, x * y)
  {
    var s, p := x + y, x * y;
    assert s * s - 2 * p == x * x + y * y;
    assert s * (s * s) == s * (s * s - 2 * p) + 2 * (s * p);
    assert s * (x * x + y * y) == x * x * x + y * y * y + p * s;
  }

  lemma SquareOfDifference(x: int, y: int)
    ensures Sq(x - y) == (x + y) * (x + y) - 4 * (x * y)
  {
  }

  lemma BySumAndProduct(s: int, p: int)
    ensures var c, q := 486662 + s, Quotient(s, p);
      q * q - 2 * c * Total(s, p) + c * c * (s * s - 4 * p) == Sq(p - 1)
  {
  }

  lemma Cancel(d: int, q: int, p: int, m: int, t: int, n: nat)
    requires n > 0 && Cong(d * q, 1, n) && Cong((q * p) * (q * m), q * t, n)
    ensures Cong(q * (p * m), t, n)
  {
    var e := q * (p * m);
    assert d * ((q * p) * (q * m)) == (d * q) * e && d * (q * t) == (d * q) * t;
    hide Cong;
    SelfCong(d, n);
    CongMul(d, d, (q * p) * (q * m), q * t, n);
    SelfCong(e, n);
    SelfCong(t, n);
    CongMul(d * q, 1, e, e, n);
    CongMul(d * q, 1, t, t, n);
    Same(e, (d * q) * e, (d * q) * t, t, n);
  }

  lemma Same(a: int, b: int, c: int, d: int, n: nat)
    requires n > 0 && Cong(b, a, n) && Cong(b, c, n) && Cong(c, d, n)
    ensures Cong(a, d, n)
  {
  }

  lemma Answer(p: int, m: int, x: int, z: int, n: nat)
    requires n > 0 && Cong(Sq(x - z) * (p * m), Sq(x * z - 1), n)
    ensures var s := Summed(Coordinate(x, 1), Coordinate(z, 1), m); Cong(p * s.Z, s.X, n)
  {
    var q, t := Sq(x - z), Sq(x * z - 1);
    assert 4 * (q * (p * m)) == p * (4 * (m * q));
    hide Cong;
    SelfCong(4, n);
    CongMul(4, 4, q * (p * m), t, n);
  }

  /** Both formulas depend on the ratios X : Z only; a common factor comes out as a common factor. */
  lemma OnlyRatios(a: Coordinate, b: Coordinate, u: int, s: int, t: int)
    ensures var d, e := Doubled(Coordinate(s * a.X, s * a.Z)), Doubled(a);
      d.X == Sq(s * s) * e.X && d.Z == Sq(s * s) * e.Z
    ensures var d, e := Summed(Coordinate(s * a.X, s * a.Z), Coordinate(t * b.X, t * b.Z), u), Summed(a, b, u);
      d.X == Sq(s * t) * e.X && d.Z == Sq(s * t) * e.Z
  {
    FactorDoubled(a.X, a.Z, s);
    FactorSummed(a.X, a.Z, b.X, b.Z, u, s, t);
    hide Sq;
  }

  lemma FactorDoubled(x: int, z: int, s: int)
    ensures Sq((s * x) * (s * x) - (s * z) * (s * z)) == Sq(s * s) * Sq(x * x - z * z)
    ensures 4 * ((s * x) * (s * z)) * ((s * x) * (s * x) + 486662 * ((s * x) * (s * z)) + (s * z) * (s * z))
         == Sq(s * s) * (4 * (x * z) * (x * x + 486662 * (x * z) + z * z))
  {
    Regroup(s, x, s, x);
    Regroup(s, z, s, z);
    Regroup(s, x, s, z);
    FactorSquares(s * s, x * x, z * z);
    FactorRest(s * s, x * z, x * x, z * z);
    hide Sq;
  }

  lemma Regroup(s: int, x: int, t: int, y: int)
    ensures (s * x) * (t * y) == (s * t) * (x * y)
  {
  }

  lemma FactorSquares(q: int, a: int, b: int)
    ensures Sq(q * a - q * b) == Sq(q) * Sq(a - b)
  {
    Distribute2(q, a, b);
    Regroup(q, a - b, q, a - b);
  }

  lemma Distribute2(q: int, a: int, b: int)
    ensures q * (a - b) == q * a - q * b
  {
  }

  lemma FactorRest(q: int, m: int, a: int, b: int)
    ensures 4 * (q * m) * (q * a + 486662 * (q * m) + q * b) == Sq(q) * (4 * m * (a + 486662 * m + b))
  {
    var t := a + 486662 * m + b;
    assert q * t == q * a + 486662 * (q * m) + q * b;
    Regroup(q, 4 * m, q, t);
    assert q * (4 * m) == 4 * (q * m);
  }

  lemma FactorSummed(x: int, z: int, y: int, w: int, u: int, s: int, t: int)
    ensures 4 * Sq((s * x) * (t * y) - (s * z) * (t * w)) == Sq(s * t) * (4 * Sq(x * y - z * w))
    ensures 4 * (u * Sq((s * x) * (t * w) - (s * z) * (t * y))) == Sq(s * t) * (4 * (u * Sq(x * w - z * y)))
  {
    FactorOut(x, z, y, w, s, t);
    FactorOut(x, z, w, y, s, t);
    MoveOut(Sq(s * t), u, Sq(x * w - z * y));
    hide Sq;
  }

  lemma MoveOut(f: int, u: int, q: int)
    ensures 4 * (u * (f * q)) == f * (4 * (u * q)) && 4 * (f * q) == f * (4 * q)
  {
  }

  lemma FactorOut(x: int, z: int, y: int, w: int, s: int, t: int)
    ensures Sq((s * x) * (t * y) - (s * z) * (t * w)) == Sq(s * t) * Sq(x * y - z * w)
    ensures 4 * Sq((s * x) * (t * y) - (s * z) * (t * w)) == Sq(s * t) * (4 * Sq(x * y - z * w))
  {
    Regroup(s, x, t, y);
    Regroup(s, z, t, w);
    FactorSquares(s * t, x * y, z * w);
    FourTimes(Sq(s * t), 4 * Sq(x * y - z * w), Sq(x * y - z * w));
    hide Sq;
  }

  // ---------------------------------------------------------------- the ladder computes multiples

  /** The coordinates of m and of m + 1 times the point with coordinate u, by halving m. */
  function Multiples(u: int, m: nat): (Coordinate, Coordinate) {
    if m == 0 then (Coordinate(1, 0), Coordinate(u, 1))
    else
      var (a, b) := Multiples(u, m / 2);
      if m % 2 == 0 then (Modulo(Doubled(a)), Modulo(Summed(a, b, u)))
      else (Modulo(Summed(a, b, u)), Modulo(Doubled(b)))
  }

  function AsPoint(c: (Coordinate, Coordinate)): Point {
    Point(c.0.X, c.0.Z, c.1.X, c.1.Z)
  }

  /** After the bits 254 .. t of a scalar whose top bit is 254, the ladder holds the multiples by those bits. */
  lemma {:induction false} LadderIsMultiples(k: nat, u: int, t: nat)
    requires t <= 255 && Bits.Pow2(254) <= k < Bits.Pow2(255)
    ensures SwappingLadder(k, u, t) == AsPoint(Multiples(u, k / Bits.Pow2(t)))
    decreases 255 - t
  {
    if t == 255 {
      Bits.ModUnique(k, Bits.Pow2(255), 0, k);
    } else {
      hide Mont, Doubled, Summed, Modulo, BitAt, Bits.Pow2;
      LadderIsMultiples(k, u, t + 1);
      NextBit(k, t);
      var (a, b) := Multiples(u, k / Bits.Pow2(t + 1));
      if BitAt(k, t) == 1 {
        SumCommutes(a, b, u);
        RoundIs(u, b, a);
      } else {
        RoundIs(u, a, b);
      }
    }
  }

  lemma NextBit(k: nat, t: nat)
    requires t < 255 && Bits.Pow2(254) <= k
    ensures var m := k / Bits.Pow2(t);
      m > 0 && k / Bits.Pow2(t + 1) == m / 2 && BitAt(k, t) == m % 2
  {
    var p := Bits.Pow2(t);
    LowerPower(t, 254);
    assert Bits.Pow2(t + 1) == 2 * p;
    hide Bits.Pow2;
    HalfQuotient(k, p);
  }

  lemma {:induction false} LowerPower(t: nat, n: nat)
    requires t <= n
    ensures Bits.Pow2(t) <= Bits.Pow2(n)
  {
    if t < n { LowerPower(t, n - 1); }
  }

  lemma HalfQuotient(k: nat, p: nat)
    requires 0 < p <= k
    ensures k / p > 0 && k / (2 * p) == k / p / 2
  {
    var m, r := k / p, k % p;
    Parts(k, p);
    if m <= 0 { MulNonNeg(p, -m); }
    var h, b := m / 2, m % 2;
    assert p * (2 * h + b) == h * (2 * p) + p * b;
    assert p * b == if b == 0 then 0 else p;
    ByRemainder(k, 2 * p, h, p * b + r);
  }

  lemma RoundIs(u: int, a: Coordinate, b: Coordinate)
    ensures Mont(u, AsPoint((a, b))) == AsPoint((Modulo(Doubled(a)), Modulo(Summed(a, b, u))))
  {
    RoundOnCurve(u, AsPoint((a, b)));
    hide Mont, Sq;
  }

  lemma SumCommutes(a: Coordinate, b: Coordinate, u: int)
    ensures Summed(a, b, u) == Summed(b, a, u)
  {
    Swapped(a.X, b.X);
    Swapped(a.Z, b.Z);
    Swapped(a.X, b.Z);
    Swapped(a.Z, b.X);
    Twice(a.X * b.Z - a.Z * b.X);
    hide Sq;
  }

  lemma Swapped(a: int, b: int)
    ensures a * b == b * a
  {
  }

  // ---------------------------------------------------------------- the function

  /** The number of a decoded scalar has bit 254 as its top bit. */
  lemma DecodedRange(n: seq<int>)
    requires |n| == 32 && Digits(n, 256)
    ensures Bits.Pow2(254) <= Val(DecodeScalar(n), 256) < Bits.Pow2(255)
  {
    DecodedScalar(n);
    hide DecodeScalar, Val, Digits, Bits.Pow2;
    TopByteRange(DecodeScalar(n));
  }

  lemma TopByteRange(z: seq<int>)
    requires |z| == 32 && Digits(z, 256) && 64 <= z[31] < 128
    ensures Bits.Pow2(254) <= Val(z, 256) < Bits.Pow2(255)
  {
    TopPowers();
    hide Val, Pow, Bits.Pow2;
    assert z == z[..31] + [z[31]];
    ValSnoc(z[..31], z[31], 256);
    ValBounds(z[..31], 256);
    TopByte(z[31], Pow(256, 31), Val(z[..31], 256));
  }

  lemma TopPowers()
    ensures Bits.Pow2(254) == Pow(256, 31) * 64 && Bits.Pow2(255) == Pow(256, 31) * 128
  {
    PowIsPow2(31);
    Bits.Pow2Add(248, 6);
    Bits.Pow2Add(248, 7);
    SmallPowers();
    hide Bits.Pow2, Pow;
  }

  lemma SmallPowers()
    ensures Bits.Pow2(6) == 64 && Bits.Pow2(7) == 128
  {
  }

  lemma TopByte(x: int, p: int, v: int)
    requires 64 <= x < 128 && 0 <= v < p
    ensures p * 64 <= v + x * p < p * 128
  {
    MulNonNeg(x - 64, p);
    MulNonNeg(127 - x, p);
  }

  /** X25519 is the coordinate of the multiple by the decoded scalar, with the division done by a power. */
  lemma ScalarMultiple(n: seq<int>, u: int)
    requires |n| == 32 && Digits(n, 256)
    ensures var k := Val(DecodeScalar(n), 256);
      k >= 0 && var a := Multiples(u, k).0; RfcX25519(k, u) == (a.X * IntPow(a.Z, P - 2)) % P
  {
    var k := Val(DecodeScalar(n), 256);
    DecodedRange(n);
    hide DecodeScalar, Val, Digits, Multiples, SwappingLadder, RfcLadder, IntPow;
    LadderIsMultiples(k, u, 0);
    LaddersAgree(k, u, 0);
    assert Bits.Pow2(0) == 1 && k / 1 == k;
  }
}
