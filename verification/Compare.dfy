/** vn of tweetnacl.c: two byte strings are compared without a branch on what they hold. */
module Compare {
  import opened Limbs
  import Bits

  /** 0 for equal strings and -1 for others; the subtraction wraps around in 32 bits. */
  method Vn(x: seq<int>, y: seq<int>) returns (r: int)
    requires |x| == |y| && Digits(x, 256) && Digits(y, 256)
    ensures r == if x == y then 0 else -1
  {
    hide Bits.Or, Bits.Xor;
    var d := 0;
    for i := 0 to |x|
      invariant 0 <= d < 256 && (d == 0 <==> x[..i] == y[..i])
    {
      XorOfBytes(x[i], y[i]);
      OrOfBytes(d, Bits.Xor(x[i], y[i]));
      assert x[..i + 1] == x[..i] + [x[i]] && y[..i + 1] == y[..i] + [y[i]];
      d := Bits.Or(d, Bits.Xor(x[i], y[i]));
    }
    assert x[..|x|] == x && y[..|y|] == y;
    r := ((d - 1) % 0x1_0000_0000) / 256 % 2 - 1;
  }

  lemma XorOfBytes(x: int, y: int)
    requires 0 <= x < 256 && 0 <= y < 256
    ensures 0 <= Bits.Xor(x, y) < 256 && (Bits.Xor(x, y) == 0 <==> x == y)
  {
    hide Bits.Xor;
    assert Bits.Pow2(8) == 256;
    Bits.XorBounds(x, y, 8);
    Bits.XorTwice(x, y);
    Bits.XorTwice(x, 0);
    Bits.XorZero(x);
  }

  lemma OrOfBytes(x: int, y: int)
    requires 0 <= x < 256 && 0 <= y < 256
    ensures 0 <= Bits.Or(x, y) < 256 && (Bits.Or(x, y) == 0 <==> x == 0 && y == 0)
  {
    hide Bits.Or;
    assert Bits.Pow2(8) == 256;
    Bits.OrBounds(x, y, 8);
    NoneSet();
  }

  lemma NoneSet()
    ensures Bits.Or(0, 0) == 0
  {
  }
}
