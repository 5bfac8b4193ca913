/** Bytes as array indices. */
module ByteIndex {
  type byte = bv8

  function Ix(b: byte): (i: nat)
    ensures i < 256
  {
    b as int
  }

  /** The byte with value i, by counting. */
  function Byte(i: nat): byte
    requires i < 256
  {
    if i == 0 then 0 else Byte(i - 1) + 1
  }

  lemma IxNext(b: byte)
    requires b != 0xff
    ensures Ix(b + 1) == Ix(b) + 1
  {
  }

  /** Byte is the cast of an index to a byte. */
  lemma {:induction false} IxByte(i: nat)
    requires i < 256
    ensures Ix(Byte(i)) == i
  {
    if i > 0 {
      IxByte(i - 1);
      hide Ix;
      IxAll(Byte(i - 1));
      IxNext(Byte(i - 1));
    } else {
      IxZero(0);
    }
  }

  lemma IxAll(b: byte)
    ensures b == 0xff ==> Ix(b) == 255
  {
  }

  lemma IxInjective(b: byte, c: byte)
    requires Ix(b) == Ix(c)
    ensures b == c
  {
  }

  lemma ByteIx(b: byte)
    ensures Byte(Ix(b)) == b
  {
    IxByte(Ix(b));
    hide Ix, Byte;
    IxInjective(Byte(Ix(b)), b);
  }

  lemma IxZero(b: byte)
    ensures Ix(b) == 0 <==> b == 0
  {
  }
}
