/**
 * Four bytes in a 32-bit word, least significant first: GET_UINT32_LE, PUT_UINT32_LE and the shifts of aes.c.
 * Packing and unpacking undo each other, exclusive or of words is exclusive or of bytes, and a rotation of a word by
 * eight bits turns its bytes by one place. Each fact is first stated on raw shifts, which the solver decides at once.
 */
module AesWords {
  import opened ByteIndex
  import opened Fips197

  type uint32 = bv32

  function Pack(w: Word): uint32 {
    (w.b0 as uint32) | ((w.b1 as uint32) << 8) | ((w.b2 as uint32) << 16) | ((w.b3 as uint32) << 24)
  }

  function Byte0(x: uint32): byte { (x & 0xff) as byte }
  function Byte1(x: uint32): byte { ((x >> 8) & 0xff) as byte }
  function Byte2(x: uint32): byte { ((x >> 16) & 0xff) as byte }
  function Byte3(x: uint32): byte { ((x >> 24) & 0xff) as byte }

  function Unpack(x: uint32): Word {
    Word(Byte0(x), Byte1(x), Byte2(x), Byte3(x))
  }

  function Xor(x: uint32, y: uint32): uint32 { x ^ y }

  /** Four bytes put together with exclusive or, as the tables and the last round do it. */
  function Gather(b0: byte, b1: byte, b2: byte, b3: byte): uint32 {
    (b0 as uint32) ^ ((b1 as uint32) << 8) ^ ((b2 as uint32) << 16) ^ ((b3 as uint32) << 24)
  }

  function RotL8(x: uint32): uint32 {
    ((x << 8) & 0xffff_ffff) | (x >> 24)
  }

  lemma RawBytes0(a: byte, b: byte, c: byte, d: byte)
    ensures (((a as uint32) | ((b as uint32) << 8) | ((c as uint32) << 16) | ((d as uint32) << 24)) & 0xff) as byte == a
  {
  }

  lemma RawBytes1(a: byte, b: byte, c: byte, d: byte)
    ensures ((((a as uint32) | ((b as uint32) << 8) | ((c as uint32) << 16) | ((d as uint32) << 24))
      >> 8) & 0xff) as byte == b
  {
  }

  lemma RawBytes2(a: byte, b: byte, c: byte, d: byte)
    ensures ((((a as uint32) | ((b as uint32) << 8) | ((c as uint32) << 16) | ((d as uint32) << 24))
      >> 16) & 0xff) as byte == c
  {
  }

  lemma RawBytes3(a: byte, b: byte, c: byte, d: byte)
    ensures ((((a as uint32) | ((b as uint32) << 8) | ((c as uint32) << 16) | ((d as uint32) << 24))
      >> 24) & 0xff) as byte == d
  {
  }

  lemma UnpackPack(w: Word)
    ensures Unpack(Pack(w)) == w
  {
    RawBytes0(w.b0, w.b1, w.b2, w.b3);
    RawBytes1(w.b0, w.b1, w.b2, w.b3);
    RawBytes2(w.b0, w.b1, w.b2, w.b3);
    RawBytes3(w.b0, w.b1, w.b2, w.b3);
  }

  lemma RawWhole(x: uint32)
    ensures (((x & 0xff) as byte) as uint32) | ((((x >> 8) & 0xff) as byte as uint32) << 8)
          | ((((x >> 16) & 0xff) as byte as uint32) << 16) | ((((x >> 24) & 0xff) as byte as uint32) << 24) == x
  {
  }

  lemma PackUnpack(x: uint32)
    ensures Pack(Unpack(x)) == x
  {
    RawWhole(x);
  }

  lemma RawXor(a: byte, b: byte, c: byte, d: byte, e: byte, f: byte, g: byte, h: byte)
    ensures ((a as uint32) | ((b as uint32) << 8) | ((c as uint32) << 16) | ((d as uint32) << 24))
          ^ ((e as uint32) | ((f as uint32) << 8) | ((g as uint32) << 16) | ((h as uint32) << 24))
         == ((a ^ e) as uint32) | (((b ^ f) as uint32) << 8) | (((c ^ g) as uint32) << 16) | (((d ^ h) as uint32) << 24)
  {
  }

  lemma XorPack(v: Word, w: Word)
    ensures Xor(Pack(v), Pack(w)) == Pack(AddWord(v, w))
  {
    RawXor(v.b0, v.b1, v.b2, v.b3, w.b0, w.b1, w.b2, w.b3);
  }

  lemma RawGather(a: byte, b: byte, c: byte, d: byte)
    ensures (a as uint32) ^ ((b as uint32) << 8) ^ ((c as uint32) << 16) ^ ((d as uint32) << 24)
         == (a as uint32) | ((b as uint32) << 8) | ((c as uint32) << 16) | ((d as uint32) << 24)
  {
  }

  lemma GatherIsPack(a: byte, b: byte, c: byte, d: byte)
    ensures Gather(a, b, c, d) == Pack(Word(a, b, c, d))
  {
    RawGather(a, b, c, d);
  }

  lemma RawRotate(a: byte, b: byte, c: byte, d: byte)
    ensures var x := (a as uint32) | ((b as uint32) << 8) | ((c as uint32) << 16) | ((d as uint32) << 24);
      ((x << 8) & 0xffff_ffff) | (x >> 24)
      == (d as uint32) | ((a as uint32) << 8) | ((b as uint32) << 16) | ((c as uint32) << 24)
  {
  }

  lemma RotL8Pack(w: Word)
    ensures RotL8(Pack(w)) == Pack(InvRotWord(w))
  {
    RawRotate(w.b0, w.b1, w.b2, w.b3);
  }

  /** In terms of bytes an exclusive or of words is an addition of columns. */
  lemma XorBytes(x: uint32, y: uint32)
    ensures Unpack(Xor(x, y)) == AddWord(Unpack(x), Unpack(y))
  {
    hide Xor, Pack, Unpack, AddWord;
    PackUnpack(x);
    PackUnpack(y);
    XorPack(Unpack(x), Unpack(y));
    UnpackPack(AddWord(Unpack(x), Unpack(y)));
  }
}
