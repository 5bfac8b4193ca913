/** AES-256 with lookup tables: the rounds of aes.c on words of four bytes, column by column, against FIPS 197. */
module Aes {
  import opened ByteIndex
  import opened Gf256
  import opened Fips197
  import opened AesWords
  import AesTables

  type Tables = AesTables.Tables

  // ---------------------------------------------------------------- bytes of a block

  /** Byte i of the input goes to row i mod 4, column i / 4 (FIPS 197 section 3.4). */
  function InState(b: seq<byte>): State
    requires |b| == 16
  {
    State(Word(b[0], b[4], b[8], b[12]), Word(b[1], b[5], b[9], b[13]),
          Word(b[2], b[6], b[10], b[14]), Word(b[3], b[7], b[11], b[15]))
  }

  function OutBytes(s: State): (b: seq<byte>)
    ensures |b| == 16
  {
    [s.w0.b0, s.w1.b0, s.w2.b0, s.w3.b0, s.w0.b1, s.w1.b1, s.w2.b1, s.w3.b1,
     s.w0.b2, s.w1.b2, s.w2.b2, s.w3.b2, s.w0.b3, s.w1.b3, s.w2.b3, s.w3.b3]
  }

  lemma OutIn(b: seq<byte>)
    requires |b| == 16
    ensures OutBytes(InState(b)) == b
  {
  }

  lemma InOut(s: State)
    ensures InState(OutBytes(s)) == s
  {
  }

  function WordAt(b: seq<byte>, i: nat): Word
    requires i + 4 <= |b|
  {
    Word(b[i], b[i + 1], b[i + 2], b[i + 3])
  }

  function KeyOf(key: seq<byte>): (k: seq<Word>)
    requires |key| == 32
    ensures |k| == 8
  {
    seq(8, i requires 0 <= i < 8 => WordAt(key, 4 * i))
  }

  /** The state that four words of the code stand for: each word is a column. */
  function Rows(x0: uint32, x1: uint32, x2: uint32, x3: uint32): State {
    Transpose(State(Unpack(x0), Unpack(x1), Unpack(x2), Unpack(x3)))
  }

  // ---------------------------------------------------------------- sums of words

  /** rk ^ b0 ^ b1 ^ b2 ^ b3 on words. */
  function Five(rk: uint32, b0: uint32, b1: uint32, b2: uint32, b3: uint32): uint32 {
    Xor(Xor(Xor(Xor(rk, b0), b1), b2), b3)
  }

  /** rk ^ b0 ^ (b1 << 8) ^ (b2 << 16) ^ (b3 << 24) on bytes. */
  function WithBytes(rk: uint32, b0: byte, b1: byte, b2: byte, b3: byte): uint32 {
    Five(rk, b0 as uint32, (b1 as uint32) << 8, (b2 as uint32) << 16, (b3 as uint32) << 24)
  }

  lemma XorAssoc(x: uint32, y: uint32, z: uint32)
    ensures Xor(Xor(x, y), z) == Xor(x, Xor(y, z))
  {
  }

  lemma FourXor(x: uint32, y: uint32, z: uint32, w: uint32)
    ensures Xor(Xor(Xor(x, y), z), w) == x ^ y ^ z ^ w
  {
  }

  lemma FiveApart(rk: uint32, x: uint32, y: uint32, z: uint32, w: uint32)
    ensures Five(rk, x, y, z, w) == Xor(rk, x ^ y ^ z ^ w)
  {
    FourXor(x, y, z, w);
    XorAssoc(rk, x, y);
    XorAssoc(rk, Xor(x, y), z);
    XorAssoc(rk, Xor(Xor(x, y), z), w);
    hide Xor;
  }

  lemma WithBytesGather(rk: uint32, b0: byte, b1: byte, b2: byte, b3: byte)
    ensures WithBytes(rk, b0, b1, b2, b3) == Xor(rk, Gather(b0, b1, b2, b3))
  {
    hide Xor, Five;
    FiveApart(rk, b0 as uint32, (b1 as uint32) << 8, (b2 as uint32) << 16, (b3 as uint32) << 24);
  }

  lemma WithBytesIs(rk: uint32, b0: byte, b1: byte, b2: byte, b3: byte)
    ensures Unpack(WithBytes(rk, b0, b1, b2, b3)) == AddWord(Word(b0, b1, b2, b3), Unpack(rk))
  {
    hide WithBytes, Xor, Gather, Unpack, Pack, Add;
    WithBytesGather(rk, b0, b1, b2, b3);
    GatherIsPack(b0, b1, b2, b3);
    XorBytes(rk, Gather(b0, b1, b2, b3));
    UnpackPack(Word(b0, b1, b2, b3));
    AddWordComm(Unpack(rk), Word(b0, b1, b2, b3));
  }

  lemma AddWordComm(a: Word, b: Word)
    ensures AddWord(a, b) == AddWord(b, a)
  {
    AddComm(a.b0, b.b0);
    AddComm(a.b1, b.b1);
    AddComm(a.b2, b.b2);
    AddComm(a.b3, b.b3);
    hide Add;
  }

  lemma FiveBytes(r: byte, a: byte, b: byte, c: byte, d: byte)
    ensures Add(Add(Add(Add(r, a), b), c), d) == Add(Add(Add(a, b), Add(c, d)), r)
  {
    AddAssoc(r, a, b);
    AddAssoc(Add(r, Add(a, b)), c, d);
    AddAssoc(r, Add(a, b), Add(c, d));
    AddComm(r, Add(Add(a, b), Add(c, d)));
    hide Add;
  }

  /** Five table words, as a column. */
  lemma FiveIs(rk: uint32, c0: Word, c1: Word, c2: Word, c3: Word)
    ensures Unpack(Five(rk, Pack(c0), Pack(c1), Pack(c2), Pack(c3)))
         == AddWord(AddWord(AddWord(c0, c1), AddWord(c2, c3)), Unpack(rk))
  {
    hide Xor, Unpack, Pack, Add;
    UnpackPack(c0);
    UnpackPack(c1);
    UnpackPack(c2);
    UnpackPack(c3);
    XorBytes(rk, Pack(c0));
    XorBytes(Xor(rk, Pack(c0)), Pack(c1));
    XorBytes(Xor(Xor(rk, Pack(c0)), Pack(c1)), Pack(c2));
    XorBytes(Xor(Xor(Xor(rk, Pack(c0)), Pack(c1)), Pack(c2)), Pack(c3));
    var r := Unpack(rk);
    FiveBytes(r.b0, c0.b0, c1.b0, c2.b0, c3.b0);
    FiveBytes(r.b1, c0.b1, c1.b1, c2.b1, c3.b1);
    FiveBytes(r.b2, c0.b2, c1.b2, c2.b2, c3.b2);
    FiveBytes(r.b3, c0.b3, c1.b3, c2.b3, c3.b3);
  }

  // ---------------------------------------------------------------- columns from tables

  lemma ForwardSum(s: Word)
    ensures AddWord(AddWord(AesTables.Forward(s.b0), AesTables.Turned(AesTables.Forward(s.b1), 1)),
                    AddWord(AesTables.Turned(AesTables.Forward(s.b2), 2), AesTables.Turned(AesTables.Forward(s.b3), 3)))
         == MixColumn(s)
  {
    TurnedIs(AesTables.Forward(s.b1));
    TurnedIs(AesTables.Forward(s.b2));
    TurnedIs(AesTables.Forward(s.b3));
    hide Mult, Add, AesTables.Turned;
  }

  lemma BackwardSum(s: Word)
    ensures AddWord(AddWord(AesTables.Backward(s.b0), AesTables.Turned(AesTables.Backward(s.b1), 1)),
                    AddWord(AesTables.Turned(AesTables.Backward(s.b2), 2),
                            AesTables.Turned(AesTables.Backward(s.b3), 3)))
         == InvMixColumn(s)
  {
    TurnedIs(AesTables.Backward(s.b1));
    TurnedIs(AesTables.Backward(s.b2));
    TurnedIs(AesTables.Backward(s.b3));
    hide Mult, Add, AesTables.Turned;
  }

  lemma TurnedIs(c: Word)
    ensures AesTables.Turned(c, 1) == Word(c.b3, c.b0, c.b1, c.b2)
    ensures AesTables.Turned(c, 2) == Word(c.b2, c.b3, c.b0, c.b1)
    ensures AesTables.Turned(c, 3) == Word(c.b1, c.b2, c.b3, c.b0)
  {
    assert AesTables.Turned(c, 1) == InvRotWord(c);
    assert AesTables.Turned(c, 2) == InvRotWord(AesTables.Turned(c, 1));
    assert AesTables.Turned(c, 3) == InvRotWord(AesTables.Turned(c, 2));
  }

  /** One column of AES_FROUND; a, b, c, d are the words its bytes 0, 1, 2 and 3 come from. */
  method FColumn(t: Tables, rk: uint32, a: uint32, b: uint32, c: uint32, d: uint32) returns (x: uint32)
    requires t.Correct()
    ensures Unpack(x) == AddWord(MixColumn(SubWord(Word(Byte0(a), Byte1(b), Byte2(c), Byte3(d)))), Unpack(rk))
  {
    hide SubByte, InvSubByte, Xor, Unpack, Pack, Byte0, Byte1, Byte2, Byte3, Mult, AesTables.Forward,
         AesTables.Backward, AesTables.Turned, MixColumn, AddWord, Ix, Byte, Five;
    ghost var s := SubWord(Word(Byte0(a), Byte1(b), Byte2(c), Byte3(d)));
    ByteIx(Byte0(a));
    ByteIx(Byte1(b));
    ByteIx(Byte2(c));
    ByteIx(Byte3(d));
    var b0 := t.FT0[Ix(Byte0(a))];
    var b1 := t.FT1[Ix(Byte1(b))];
    var b2 := t.FT2[Ix(Byte2(c))];
    var b3 := t.FT3[Ix(Byte3(d))];
    x := Five(rk, b0, b1, b2, b3);
    FiveIs(rk, AesTables.Forward(s.b0), AesTables.Turned(AesTables.Forward(s.b1), 1),
           AesTables.Turned(AesTables.Forward(s.b2), 2), AesTables.Turned(AesTables.Forward(s.b3), 3));
    ForwardSum(s);
  }

  /** One column of AES_RROUND. */
  method RColumn(t: Tables, rk: uint32, a: uint32, b: uint32, c: uint32, d: uint32) returns (x: uint32)
    requires t.Correct()
    ensures Unpack(x) == AddWord(InvMixColumn(InvSubWord(Word(Byte0(a), Byte1(b), Byte2(c), Byte3(d)))), Unpack(rk))
  {
    hide SubByte, InvSubByte, Xor, Unpack, Pack, Byte0, Byte1, Byte2, Byte3, Mult, AesTables.Forward,
         AesTables.Backward, AesTables.Turned, InvMixColumn, AddWord, Ix, Byte, Five;
    ghost var s := InvSubWord(Word(Byte0(a), Byte1(b), Byte2(c), Byte3(d)));
    ByteIx(Byte0(a));
    ByteIx(Byte1(b));
    ByteIx(Byte2(c));
    ByteIx(Byte3(d));
    var b0 := t.RT0[Ix(Byte0(a))];
    var b1 := t.RT1[Ix(Byte1(b))];
    var b2 := t.RT2[Ix(Byte2(c))];
    var b3 := t.RT3[Ix(Byte3(d))];
    x := Five(rk, b0, b1, b2, b3);
    FiveIs(rk, AesTables.Backward(s.b0), AesTables.Turned(AesTables.Backward(s.b1), 1),
           AesTables.Turned(AesTables.Backward(s.b2), 2), AesTables.Turned(AesTables.Backward(s.b3), 3));
    BackwardSum(s);
  }

  /** One column of the last round of encryption, or one word of a key schedule. */
  method SColumn(t: Tables, rk: uint32, a: uint32, b: uint32, c: uint32, d: uint32) returns (x: uint32)
    requires t.Correct()
    ensures Unpack(x) == AddWord(SubWord(Word(Byte0(a), Byte1(b), Byte2(c), Byte3(d))), Unpack(rk))
  {
    hide SubByte, InvSubByte, WithBytes, Unpack, Byte0, Byte1, Byte2, Byte3, AddWord, Ix, Byte, AesTables.Column;
    ByteIx(Byte0(a));
    ByteIx(Byte1(b));
    ByteIx(Byte2(c));
    ByteIx(Byte3(d));
    var b0 := t.FSb[Ix(Byte0(a))];
    var b1 := t.FSb[Ix(Byte1(b))];
    var b2 := t.FSb[Ix(Byte2(c))];
    var b3 := t.FSb[Ix(Byte3(d))];
    x := WithBytes(rk, b0, b1, b2, b3);
    WithBytesIs(rk, b0, b1, b2, b3);
  }

  /** One column of the last round of decryption. */
  method InvSColumn(t: Tables, rk: uint32, a: uint32, b: uint32, c: uint32, d: uint32) returns (x: uint32)
    requires t.Correct()
    ensures Unpack(x) == AddWord(InvSubWord(Word(Byte0(a), Byte1(b), Byte2(c), Byte3(d))), Unpack(rk))
  {
    hide SubByte, InvSubByte, WithBytes, Unpack, Byte0, Byte1, Byte2, Byte3, AddWord, Ix, Byte, AesTables.Column;
    ByteIx(Byte0(a));
    ByteIx(Byte1(b));
    ByteIx(Byte2(c));
    ByteIx(Byte3(d));
    var b0 := t.RSb[Ix(Byte0(a))];
    var b1 := t.RSb[Ix(Byte1(b))];
    var b2 := t.RSb[Ix(Byte2(c))];
    var b3 := t.RSb[Ix(Byte3(d))];
    x := WithBytes(rk, b0, b1, b2, b3);
    WithBytesIs(rk, b0, b1, b2, b3);
  }

  // ---------------------------------------------------------------- rounds

  lemma FRoundIs(y0: uint32, y1: uint32, y2: uint32, y3: uint32, k: State)
    ensures Transpose(State(
              AddWord(MixColumn(SubWord(Word(Byte0(y0), Byte1(y1), Byte2(y2), Byte3(y3)))), k.w0),
              AddWord(MixColumn(SubWord(Word(Byte0(y1), Byte1(y2), Byte2(y3), Byte3(y0)))), k.w1),
              AddWord(MixColumn(SubWord(Word(Byte0(y2), Byte1(y3), Byte2(y0), Byte3(y1)))), k.w2),
              AddWord(MixColumn(SubWord(Word(Byte0(y3), Byte1(y0), Byte2(y1), Byte3(y2)))), k.w3)))
         == Round(Rows(y0, y1, y2, y3), k)
  {
    hide SubByte, MixColumn, AddWord, Byte0, Byte1, Byte2, Byte3;
  }

  lemma LastFRoundIs(y0: uint32, y1: uint32, y2: uint32, y3: uint32, k: State)
    ensures Transpose(State(
              AddWord(SubWord(Word(Byte0(y0), Byte1(y1), Byte2(y2), Byte3(y3))), k.w0),
              AddWord(SubWord(Word(Byte0(y1), Byte1(y2), Byte2(y3), Byte3(y0))), k.w1),
              AddWord(SubWord(Word(Byte0(y2), Byte1(y3), Byte2(y0), Byte3(y1))), k.w2),
              AddWord(SubWord(Word(Byte0(y3), Byte1(y0), Byte2(y1), Byte3(y2))), k.w3)))
         == LastRound(Rows(y0, y1, y2, y3), k)
  {
    hide SubByte, AddWord, Byte0, Byte1, Byte2, Byte3;
  }

  lemma RRoundIs(y0: uint32, y1: uint32, y2: uint32, y3: uint32, k: State)
    ensures Transpose(State(
              AddWord(InvMixColumn(InvSubWord(Word(Byte0(y0), Byte1(y3), Byte2(y2), Byte3(y1)))), k.w0),
              AddWord(InvMixColumn(InvSubWord(Word(Byte0(y1), Byte1(y0), Byte2(y3), Byte3(y2)))), k.w1),
              AddWord(InvMixColumn(InvSubWord(Word(Byte0(y2), Byte1(y1), Byte2(y0), Byte3(y3)))), k.w2),
              AddWord(InvMixColumn(InvSubWord(Word(Byte0(y3), Byte1(y2), Byte2(y1), Byte3(y0)))), k.w3)))
         == InvRound(Rows(y0, y1, y2, y3), k)
  {
    hide InvSubByte, InvMixColumn, AddWord, Byte0, Byte1, Byte2, Byte3;
  }

  lemma LastRRoundIs(y0: uint32, y1: uint32, y2: uint32, y3: uint32, k: State)
    ensures Transpose(State(
              AddWord(InvSubWord(Word(Byte0(y0), Byte1(y3), Byte2(y2), Byte3(y1))), k.w0),
              AddWord(InvSubWord(Word(Byte0(y1), Byte1(y0), Byte2(y3), Byte3(y2))), k.w1),
              AddWord(InvSubWord(Word(Byte0(y2), Byte1(y1), Byte2(y0), Byte3(y3))), k.w2),
              AddWord(InvSubWord(Word(Byte0(y3), Byte1(y2), Byte2(y1), Byte3(y0))), k.w3)))
         == AddRoundKey(InvShiftRows(InvSubBytes(Rows(y0, y1, y2, y3))), k)
  {
    hide InvSubByte, AddWord, Byte0, Byte1, Byte2, Byte3;
  }

  /** Four words of a schedule are a round key. */
  ghost predicate IsRoundKey(rk: seq<uint32>, i: nat, k: State) {
    i + 4 <= |rk| && k == State(Unpack(rk[i]), Unpack(rk[i + 1]), Unpack(rk[i + 2]), Unpack(rk[i + 3]))
  }

  ghost predicate Schedule(rk: seq<uint32>, keys: seq<State>) {
    |keys| == ROUNDS + 1 && forall r :: 0 <= r <= ROUNDS ==> IsRoundKey(rk, 4 * r, keys[r])
  }

  /** AES_FROUND */
  method FRound(t: Tables, rk: array<uint32>, i: nat, y0: uint32, y1: uint32, y2: uint32, y3: uint32, ghost k: State)
      returns (x0: uint32, x1: uint32, x2: uint32, x3: uint32)
    requires t.Correct() && IsRoundKey(rk[..], i, k)
    ensures Rows(x0, x1, x2, x3) == Round(Rows(y0, y1, y2, y3), k)
  {
    FRoundIs(y0, y1, y2, y3, k);
    hide Unpack, MixColumn, AddWord, Byte0, Byte1, Byte2, Byte3, Round, SubWord;
    x0 := FColumn(t, rk[i], y0, y1, y2, y3);
    x1 := FColumn(t, rk[i + 1], y1, y2, y3, y0);
    x2 := FColumn(t, rk[i + 2], y2, y3, y0, y1);
    x3 := FColumn(t, rk[i + 3], y3, y0, y1, y2);
  }

  /** AES_RROUND */
  method RRound(t: Tables, rk: array<uint32>, i: nat, y0: uint32, y1: uint32, y2: uint32, y3: uint32, ghost k: State)
      returns (x0: uint32, x1: uint32, x2: uint32, x3: uint32)
    requires t.Correct() && IsRoundKey(rk[..], i, k)
    ensures Rows(x0, x1, x2, x3) == InvRound(Rows(y0, y1, y2, y3), k)
  {
    RRoundIs(y0, y1, y2, y3, k);
    hide Unpack, InvMixColumn, AddWord, Byte0, Byte1, Byte2, Byte3, InvRound, InvSubWord;
    x0 := RColumn(t, rk[i], y0, y3, y2, y1);
    x1 := RColumn(t, rk[i + 1], y1, y0, y3, y2);
    x2 := RColumn(t, rk[i + 2], y2, y1, y0, y3);
    x3 := RColumn(t, rk[i + 3], y3, y2, y1, y0);
  }
}
