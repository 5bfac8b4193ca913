/** Exclusive or of bytes: commutative, and undone by doing it again; all that the modes of operation and HMAC need. */
module ByteXor {
  function Xor(a: bv8, b: bv8): bv8 {
    a ^ b
  }

  lemma XorTwice(a: bv8, b: bv8)
    ensures Xor(Xor(a, b), b) == a
  {
  }

  lemma XorComm(a: bv8, b: bv8)
    ensures Xor(a, b) == Xor(b, a)
  {
  }
}
