/** Bytes as a field (FIPS 197 section 4). */
module Gf256 {
  // Polynomials over GF(2) modulo x^8 + x^4 + x^3 + x + 1.

  import opened ByteIndex

  function Add(a: byte, b: byte): byte { a ^ b }
  function Odd(a: byte): bool { a & 1 != 0 }
  function Half(a: byte): byte { a >> 1 }

  /** Multiplication by x. */
  function Xtime(b: byte): byte {
    if b & 0x80 == 0 then b << 1 else (b << 1) ^ 0x1b
  }

  /** acc plus the polynomial of the first n bits of a, times b. */
  function XtimeTest(a: byte, b: byte, acc: byte, n: nat): byte {
    if a == 0 || b == 0 || n == 0 then acc
    else XtimeTest(Half(a), Xtime(b), if Odd(a) then Add(acc, b) else acc, n - 1)
  }

  function Mult(a: byte, b: byte): byte {
    XtimeTest(a, b, 0, 8)
  }

  // ---------------------------------------------------------------- bits

  lemma AddZero(a: byte) ensures Add(a, 0) == a {}
  lemma AddSelf(a: byte) ensures Add(a, a) == 0 {}
  lemma AddComm(a: byte, b: byte) ensures Add(a, b) == Add(b, a) {}
  lemma AddAssoc(a: byte, b: byte, c: byte) ensures Add(Add(a, b), c) == Add(a, Add(b, c)) {}

  lemma AddCancel(a: byte, b: byte)
    ensures Add(Add(a, b), b) == a
  {
    AddAssoc(a, b, b);
    AddSelf(b);
    AddZero(a);
    hide Add;
  }

  lemma AddSwap(a: byte, b: byte, c: byte)
    ensures Add(Add(a, b), c) == Add(Add(a, c), b)
  {
    AddAssoc(a, b, c);
    AddAssoc(a, c, b);
    AddComm(b, c);
    hide Add;
  }

  lemma AddFour(p: byte, q: byte, r: byte, s: byte)
    ensures Add(Add(p, q), Add(r, s)) == Add(Add(p, r), Add(q, s))
  {
    AddAssoc(p, q, Add(r, s));
    AddAssoc(q, r, s);
    AddComm(q, r);
    AddAssoc(r, q, s);
    AddAssoc(p, r, Add(q, s));
    hide Add;
  }

  lemma ShiftAdds(b: byte, c: byte) ensures (b ^ c) << 1 == (b << 1) ^ (c << 1) {}
  lemma TopBit(b: byte, c: byte) ensures ((b ^ c) & 0x80 == 0) == ((b & 0x80 == 0) == (c & 0x80 == 0)) {}
  lemma Reduced(p: byte, q: byte, r: byte) ensures (p ^ q) ^ r == (p ^ r) ^ q && (p ^ q) ^ r == p ^ (q ^ r) {}
  lemma Twice(p: byte, q: byte, r: byte) ensures (p ^ r) ^ (q ^ r) == p ^ q {}

  lemma XtimeLinear(b: byte, c: byte)
    ensures Xtime(Add(b, c)) == Add(Xtime(b), Xtime(c))
  {
    ShiftAdds(b, c);
    TopBit(b, c);
    Reduced(b << 1, c << 1, 0x1b);
    Twice(b << 1, c << 1, 0x1b);
  }

  lemma XtimeZero(b: byte)
    ensures Xtime(b) == 0 <==> b == 0
  {
  }

  lemma HalfZero()
    ensures Half(0) == 0 && !Odd(0)
  {
  }

  // ---------------------------------------------------------------- multiplication is linear on the right

  function Term(a: byte, b: byte): byte {
    if Odd(a) then b else 0
  }

  /** What is accumulated can be added afterwards. */
  lemma {:induction false} AccumulateLater(a: byte, b: byte, acc: byte, d: byte, n: nat)
    ensures XtimeTest(a, b, Add(acc, d), n) == Add(XtimeTest(a, b, acc, n), d)
    decreases n
  {
    hide Xtime, Half, Odd, Add;
    if a != 0 && b != 0 && n != 0 {
      AddSwap(acc, d, b);
      AccumulateLater(Half(a), Xtime(b), if Odd(a) then Add(acc, b) else acc, d, n - 1);
    }
  }

  /** Stopping early at zero makes no difference. */
  lemma Unfold(a: byte, b: byte, n: nat)
    requires n > 0
    ensures XtimeTest(a, b, 0, n) == Add(XtimeTest(Half(a), Xtime(b), 0, n - 1), Term(a, b))
  {
    XtimeZero(b);
    HalfZero();
    hide Xtime, Half, Odd, Add;
    AccumulateLater(Half(a), Xtime(b), 0, b, n - 1);
    AddZero(XtimeTest(Half(a), Xtime(b), 0, n - 1));
  }

  /** A product written out: the powers of x times b that the bits of a select. */
  function MultBits(a: byte, b: byte): byte {
    var b1 := Xtime(b);
    var b2 := Xtime(b1);
    var b3 := Xtime(b2);
    var b4 := Xtime(b3);
    var b5 := Xtime(b4);
    var b6 := Xtime(b5);
    var b7 := Xtime(b6);
    (if a & 0x80 != 0 then b7 else 0) ^ (if a & 0x40 != 0 then b6 else 0) ^ (if a & 0x20 != 0 then b5 else 0)
    ^ (if a & 0x10 != 0 then b4 else 0) ^ (if a & 0x08 != 0 then b3 else 0) ^ (if a & 0x04 != 0 then b2 else 0)
    ^ (if a & 0x02 != 0 then b1 else 0) ^ (if a & 0x01 != 0 then b else 0)
  }

  lemma MultBitsIsSum(a: byte, b: byte)
    ensures var b1 := Xtime(b);
      var b2 := Xtime(b1);
      var b3 := Xtime(b2);
      var b4 := Xtime(b3);
      var b5 := Xtime(b4);
      var b6 := Xtime(b5);
      var b7 := Xtime(b6);
      MultBits(a, b)
      == Sum8(if a & 0x80 != 0 then b7 else 0, if a & 0x40 != 0 then b6 else 0, if a & 0x20 != 0 then b5 else 0,
              if a & 0x10 != 0 then b4 else 0, if a & 0x08 != 0 then b3 else 0, if a & 0x04 != 0 then b2 else 0,
              if a & 0x02 != 0 then b1 else 0, if a & 0x01 != 0 then b else 0)
  {
    hide Xtime;
  }

  function Sum8(p: byte, q: byte, r: byte, s: byte, t: byte, u: byte, v: byte, w: byte): byte {
    p ^ q ^ r ^ s ^ t ^ u ^ v ^ w
  }

  lemma Sum8Adds(p: byte, q: byte, r: byte, s: byte, t: byte, u: byte, v: byte, w: byte)
    ensures Add(Add(Add(Add(Add(Add(Add(p, q), r), s), t), u), v), w) == Sum8(p, q, r, s, t, u, v, w)
  {
  }

  lemma MultByBits(a: byte, b: byte)
    ensures Mult(a, b) == MultBits(a, b)
  {
    var a1, b1 := Half(a), Xtime(b);
    var a2, b2 := Half(a1), Xtime(b1);
    var a3, b3 := Half(a2), Xtime(b2);
    var a4, b4 := Half(a3), Xtime(b3);
    var a5, b5 := Half(a4), Xtime(b4);
    var a6, b6 := Half(a5), Xtime(b5);
    var a7, b7 := Half(a6), Xtime(b6);
    HalvesAndBits(a);
    hide XtimeTest, Xtime, Half, Odd, Add, Sum8, MultBits;
    Unfold(a, b, 8);
    Unfold(a1, b1, 7);
    Unfold(a2, b2, 6);
    Unfold(a3, b3, 5);
    Unfold(a4, b4, 4);
    Unfold(a5, b5, 3);
    Unfold(a6, b6, 2);
    Unfold(a7, b7, 1);
    LastHalf(a7, b7);
    Sum8Adds(Term(a7, b7), Term(a6, b6), Term(a5, b5), Term(a4, b4),
             Term(a3, b3), Term(a2, b2), Term(a1, b1), Term(a, b));
    MultBitsIsSum(a, b);
  }

  lemma LastHalf(a: byte, b: byte)
    ensures Add(XtimeTest(Half(a), Xtime(b), 0, 0), Term(a, b)) == Term(a, b)
  {
  }

  lemma HalvesAndBits(a: byte)
    ensures var a1 := Half(a);
      var a2 := Half(a1);
      var a3 := Half(a2);
      var a4 := Half(a3);
      var a5 := Half(a4);
      var a6 := Half(a5);
      && Odd(a) == (a & 0x01 != 0) && Odd(a1) == (a & 0x02 != 0) && Odd(a2) == (a & 0x04 != 0)
      && Odd(a3) == (a & 0x08 != 0) && Odd(a4) == (a & 0x10 != 0) && Odd(a5) == (a & 0x20 != 0)
      && Odd(a6) == (a & 0x40 != 0) && Odd(Half(a6)) == (a & 0x80 != 0)
  {
  }

  lemma {:induction false} TestXtime(a: byte, b: byte, n: nat)
    ensures XtimeTest(a, Xtime(b), 0, n) == Xtime(XtimeTest(a, b, 0, n))
    decreases n
  {
    XtimeZero(0);
    hide Xtime, Half, Odd, Add;
    if n > 0 {
      Unfold(a, b, n);
      Unfold(a, Xtime(b), n);
      TestXtime(Half(a), Xtime(b), n - 1);
      XtimeLinear(XtimeTest(Half(a), Xtime(b), 0, n - 1), Term(a, b));
    }
  }

  lemma {:induction false} TestLinear(a: byte, b: byte, c: byte, n: nat)
    ensures XtimeTest(a, Add(b, c), 0, n) == Add(XtimeTest(a, b, 0, n), XtimeTest(a, c, 0, n))
    decreases n
  {
    hide Xtime, Half, Odd, Add;
    AddZero(0);
    if n > 0 {
      Unfold(a, b, n);
      Unfold(a, c, n);
      Unfold(a, Add(b, c), n);
      XtimeLinear(b, c);
      TestLinear(Half(a), Xtime(b), Xtime(c), n - 1);
      AddFour(XtimeTest(Half(a), Xtime(b), 0, n - 1), XtimeTest(Half(a), Xtime(c), 0, n - 1), Term(a, b), Term(a, c));
    }
  }

  lemma MultLinear(a: byte, b: byte, c: byte)
    ensures Mult(a, Add(b, c)) == Add(Mult(a, b), Mult(a, c))
  {
    TestLinear(a, b, c, 8);
  }

  lemma MultXtime(a: byte, b: byte)
    ensures Mult(a, Xtime(b)) == Xtime(Mult(a, b))
  {
    TestXtime(a, b, 8);
  }

  lemma MultZero(a: byte)
    ensures Mult(a, 0) == 0
  {
  }

  lemma ShiftStep(h: byte, i: bv8)
    requires i < 8
    ensures ((h >> 1) << (i + 1)) ^ (if h & 1 != 0 then 1 << i else 0) == h << i
  {
  }

  lemma PowerStep(i: bv8)
    requires i < 7
    ensures Xtime(1 << i) == 1 << (i + 1)
  {
  }

  lemma ShiftOut(h: byte) ensures (h >> 1) << 8 == 0 {}

  lemma {:induction false} TestOne(h: byte, i: bv8)
    requires i < 8
    ensures XtimeTest(h, 1 << i, 0, 8 - i as nat) == h << i
    decreases 8 - i as nat
  {
    Unfold(h, 1 << i, 8 - i as nat);
    if i < 7 {
      PowerStep(i);
      TestOne(Half(h), i + 1);
    } else {
      ShiftOut(h);
    }
    ShiftStep(h, i);
    hide Xtime;
  }

  lemma MultOne(a: byte)
    ensures Mult(a, 1) == a
  {
    TestOne(a, 0);
  }

  // ---------------------------------------------------------------- powers of x + 1

  function Times3(b: byte): byte {
    Add(Xtime(b), b)
  }

  /** (x + 1)^n */
  function Pow3(n: nat): byte {
    if n == 0 then 1 else Times3(Pow3(n - 1))
  }

  lemma MultTimes3(a: byte, b: byte)
    ensures Mult(a, Times3(b)) == Times3(Mult(a, b))
  {
    hide Mult, Xtime, Add;
    MultLinear(a, Xtime(b), b);
    MultXtime(a, b);
  }

  lemma {:induction false} PowAdd(m: nat, n: nat)
    ensures Mult(Pow3(m), Pow3(n)) == Pow3(m + n)
    decreases n
  {
    hide Mult, Times3;
    if n == 0 {
      MultOne(Pow3(m));
    } else {
      PowAdd(m, n - 1);
      MultTimes3(Pow3(m), Pow3(n - 1));
    }
  }

  lemma PowValues()
    ensures Pow3(15) == 53 && Pow3(51) == 12 && Pow3(85) == 189 && Pow3(255) == 1
  {
    hide Pow3, Mult;
    PowStart();
    Products();
    PowAdd(1, 2); PowAdd(2, 2); PowAdd(4, 4); PowAdd(4, 8); PowAdd(3, 12); PowAdd(4, 12); PowAdd(8, 16); PowAdd(1, 24);
    PowAdd(1, 25); PowAdd(25, 25); PowAdd(1, 50); PowAdd(26, 8); PowAdd(51, 34); PowAdd(51, 51); PowAdd(51, 102);
    PowAdd(51, 153); PowAdd(51, 204);
  }

  lemma Products()
    ensures Mult(3, 5) == 15 && Mult(5, 5) == 17 && Mult(17, 17) == 26 && Mult(17, 26) == 161
    ensures Mult(15, 161) == 53 && Mult(17, 161) == 95 && Mult(26, 95) == 247 && Mult(3, 247) == 2
    ensures Mult(3, 2) == 6 && Mult(2, 2) == 4 && Mult(3, 4) == 12 && Mult(6, 26) == 92
    ensures Mult(12, 92) == 189 && Mult(12, 12) == 80 && Mult(12, 80) == 237 && Mult(12, 237) == 176
    ensures Mult(12, 176) == 1
  {
  }

  lemma PowStart()
    ensures Pow3(1) == 3 && Pow3(2) == 5
  {
  }

  // ---------------------------------------------------------------- every byte but zero is one power of x + 1

  lemma PowLater(n: nat, k: nat)
    requires Pow3(k) == 1
    ensures Pow3(n + k) == Pow3(n)
  {
    PowAdd(n, k);
    MultOne(Pow3(n));
    hide Pow3, Mult;
  }

  lemma {:induction false} PowMultiple(g: nat, k: nat)
    requires Pow3(g) == 1
    ensures Pow3(k * g) == 1
    decreases k
  {
    if k > 0 {
      PowMultiple(g, k - 1);
      assert k * g == (k - 1) * g + g;
      PowLater((k - 1) * g, g);
    }
    hide Times3;
  }

  /** The exponents of 1 are closed under common divisors. */
  lemma {:induction false} Euclid(a: nat, b: nat) returns (g: nat, k: nat, l: nat)
    requires a > 0 && b > 0 && Pow3(a) == 1 && Pow3(b) == 1
    ensures 0 < g <= b && a == k * g && b == l * g && Pow3(g) == 1
    decreases a + b
  {
    hide Pow3;
    if a == b {
      g, k, l := a, 1, 1;
    } else if a > b {
      PowLater(a - b, b);
      g, k, l := Euclid(a - b, b);
      k := k + l;
    } else {
      PowLater(b - a, a);
      g, k, l := Euclid(a, b - a);
      l := k + l;
    }
  }

  lemma Divisors(g: nat, k: nat)
    requires k * g == 255 && g < 255
    ensures g in {1, 3, 5, 15, 17, 51, 85}
  {
    if g > 15 {
      if k > 15 { Grow(k, g); }
      assert k in {0, 1, 2, 3, 4, 5, 6, 7, 8, 9, 10, 11, 12, 13, 14, 15};
    } else {
      assert g in {0, 1, 2, 3, 4, 5, 6, 7, 8, 9, 10, 11, 12, 13, 14, 15};
    }
  }

  lemma Grow(k: nat, g: nat)
    requires k > 15 && g > 15
    ensures k * g > 255
  {
    assert k * g >= 16 * g;
  }

  lemma Order(d: nat)
    requires 0 < d < 255
    ensures Pow3(d) != 1
  {
    PowValues();
    if Pow3(d) == 1 {
      hide Pow3;
      var g, k, l := Euclid(255, d);
      Divisors(g, k);
      if 15 % g == 0 {
        PowMultiple(g, 15 / g);
      } else if 51 % g == 0 {
        PowMultiple(g, 51 / g);
      } else {
        PowMultiple(g, 85 / g);
      }
    }
  }

  lemma PowDistinct(i: nat, j: nat)
    requires i < j < 255
    ensures Pow3(i) != Pow3(j)
  {
    hide Pow3, Mult;
    PowAdd(i, 255 - i);
    PowAdd(j, 255 - i);
    PowValues();
    PowLater(j - i, 255);
    Order(j - i);
  }

  lemma PowNotZero(n: nat)
    ensures Pow3(n) != 0
    decreases n
  {
    if n > 0 {
      PowNotZero(n - 1);
      Times3NotZero(Pow3(n - 1));
    }
  }

  lemma Times3NotZero(b: byte)
    ensures Times3(b) == 0 ==> b == 0
  {
  }

  ghost function PowersBelow(n: nat): set<nat> {
    set k {:trigger Pow3(k)} | 0 <= k < n :: Ix(Pow3(k))
  }

  lemma {:induction false} ManyPowers(n: nat)
    requires n <= 255
    ensures |PowersBelow(n)| == n
    decreases n
  {
    if n > 0 {
      ManyPowers(n - 1);
      hide Pow3, Ix;
      var x := Ix(Pow3(n - 1));
      if x in PowersBelow(n - 1) {
        var k :| 0 <= k < n - 1 && Ix(Pow3(k)) == x;
        ByteIx(Pow3(k));
        ByteIx(Pow3(n - 1));
        PowDistinct(k, n - 1);
      }
      assert PowersBelow(n) == PowersBelow(n - 1) + {x};
    }
  }

  function UpTo(n: nat): (s: set<nat>)
    ensures |s| == n && forall i :: i in s <==> 1 <= i <= n
  {
    if n == 0 then {} else UpTo(n - 1) + {n}
  }

  lemma SubsetOfSameSize<T>(a: set<T>, b: set<T>)
    requires a <= b && |a| == |b|
    ensures a == b
  {
    assert b == a + (b - a);
  }

  /** x + 1 generates every byte but zero. */
  lemma Generates(b: byte) returns (k: nat)
    requires b != 0
    ensures k < 255 && Pow3(k) == b
  {
    hide Pow3;
    var s := PowersBelow(255);
    forall i | i in s ensures i in UpTo(255) {
      var k :| 0 <= k < 255 && Ix(Pow3(k)) == i;
      PowNotZero(k);
      IxZero(Pow3(k));
    }
    ManyPowers(255);
    SubsetOfSameSize(s, UpTo(255));
    IxZero(b);
    assert Ix(b) in s;
    k :| 0 <= k < 255 && Ix(Pow3(k)) == Ix(b);
    ByteIx(b);
    ByteIx(Pow3(k));
  }

  /** The multiplicative inverse; zero for zero. */
  ghost function Inverse(b: byte): (r: byte)
    ensures if b == 0 then r == 0 else Mult(b, r) == 1
  {
    InverseExists(b);
    if b == 0 then 0 else var r :| Mult(b, r) == 1; r
  }

  lemma InverseExists(b: byte)
    ensures b != 0 ==> exists r :: Mult(b, r) == 1
  {
    if b != 0 {
      var k := Generates(b);
      InverseOfPow(k);
    }
  }

  lemma InverseOfPow(k: nat)
    requires k <= 255
    ensures Mult(Pow3(k), Pow3(255 - k)) == 1
  {
    PowAdd(k, 255 - k);
    PowValues();
  }

  /** There is one inverse only. */
  lemma InverseUnique(b: byte, r: byte)
    requires Mult(b, r) == 1
    ensures Inverse(b) == r && Inverse(r) == b && b != 0 && r != 0
  {
    hide Pow3, Mult;
    ZeroProducts(b, r);
    var i := Generates(b);
    var j := Generates(r);
    var k := Generates(Inverse(b));
    SameInverse(i, j, k);
    PowAdd(j, i);
    PowAdd(i, j);
    ZeroProducts(r, b);
    var l := Generates(Inverse(r));
    SameInverse(j, i, l);
  }

  lemma ZeroProducts(b: byte, r: byte)
    ensures Mult(0, r) == 0 && Mult(b, 0) == 0 && (Mult(b, r) == 1 ==> b != 0 && r != 0)
    ensures b != 0 ==> Inverse(b) != 0
  {
    MultZero(b);
  }

  lemma SameInverse(i: nat, j: nat, k: nat)
    requires i < 255 && j < 255 && k < 255
    requires Mult(Pow3(i), Pow3(j)) == 1 && Mult(Pow3(i), Pow3(k)) == 1
    ensures j == k
  {
    hide Pow3, Mult;
    PowAdd(i, j);
    PowAdd(i, k);
    PowValues();
    NextOne(i, j, k);
    NextOne(i, k, j);
  }

  lemma NextOne(i: nat, j: nat, k: nat)
    requires k < 255
    ensures j < k && Pow3(i + j) == 1 ==> Pow3(i + k) != 1
  {
    hide Pow3;
    if j < k && Pow3(i + j) == 1 {
      PowLater(k - j, i + j);
      Order(k - j);
    }
  }

  /** Inverse is its own inverse. */
  lemma InverseTwice(b: byte)
    ensures Inverse(Inverse(b)) == b
  {
    hide Mult;
    if b != 0 {
      InverseUnique(b, Inverse(b));
    }
  }

  // ---------------------------------------------------------------- multiplication as a field operation

  lemma MultComm(a: byte, b: byte)
    ensures Mult(a, b) == Mult(b, a)
  {
    ZeroProducts(b, a);
    ZeroProducts(a, b);
    hide Pow3, Mult;
    if a != 0 && b != 0 {
      var i := Generates(a);
      var j := Generates(b);
      PowAdd(i, j);
      PowAdd(j, i);
    }
  }

  lemma MultAssoc(a: byte, b: byte, c: byte)
    ensures Mult(a, Mult(b, c)) == Mult(Mult(a, b), c)
  {
    hide Pow3, Mult;
    ZeroProducts(a, b);
    ZeroProducts(b, c);
    ZeroProducts(Mult(a, b), c);
    ZeroProducts(a, Mult(b, c));
    if a != 0 && b != 0 && c != 0 {
      var i := Generates(a);
      var j := Generates(b);
      var k := Generates(c);
      PowAdd(i, j);
      PowAdd(j, k);
      PowAdd(i + j, k);
      PowAdd(i, j + k);
    }
  }

  lemma MultLeft(a: byte, b: byte, c: byte)
    ensures Mult(Add(a, b), c) == Add(Mult(a, c), Mult(b, c))
  {
    hide Mult, Add;
    MultComm(Add(a, b), c);
    MultComm(a, c);
    MultComm(b, c);
    MultLinear(c, a, b);
  }

  lemma OneMult(b: byte)
    ensures Mult(1, b) == b
  {
    hide Mult;
    MultComm(1, b);
    MultOne(b);
  }

  /** Products by 2 and 3, in shifts and the polynomial x^8 + x^4 + x^3 + x + 1. */
  lemma Doubling(x: byte)
    ensures Mult(2, x) == Xtime(x) && Mult(3, x) == Add(Xtime(x), x)
    ensures Mult(2, x) == if x < 0x80 then x << 1 else (x << 1) ^ 0x1b
  {
    XtimeOne();
    OneMult(x);
    XtimeIs(x);
    hide Mult, Xtime;
    MultXtime(x, 1);
    MultComm(x, 1);
    MultComm(2, x);
    MultLeft(2, 1, x);
    assert Add(2, 1) == 3;
  }

  lemma XtimeIs(x: byte)
    ensures Xtime(x) == if x < 0x80 then x << 1 else (x << 1) ^ 0x1b
  {
  }

  lemma XtimeOne()
    ensures Xtime(1) == 2
  {
  }
}
