/** AES-256 (FIPS 197). */
module Fips197 {
  // The state in rows, round keys in columns, as in aes/spec_AES256_HL.v.

  import opened ByteIndex
  import opened Gf256

  datatype Word = Word(b0: byte, b1: byte, b2: byte, b3: byte)

  /** Four rows, or four columns. */
  datatype State = State(w0: Word, w1: Word, w2: Word, w3: Word)

  const ROUNDS: nat := 14

  // ---------------------------------------------------------------- bytes

  function Bit(b: byte, i: bv8): byte { (b >> (i & 7)) & 1 }

  /** Bit i of the affine transformation of section 5.1.1, without the constant. */
  function AffineBit(b: byte, i: bv8): byte {
    (Bit(b, i) ^ Bit(b, i + 4) ^ Bit(b, i + 5) ^ Bit(b, i + 6) ^ Bit(b, i + 7)) << (i & 7)
  }

  function Affine(b: byte): byte {
    AffineBit(b, 0) ^ AffineBit(b, 1) ^ AffineBit(b, 2) ^ AffineBit(b, 3)
    ^ AffineBit(b, 4) ^ AffineBit(b, 5) ^ AffineBit(b, 6) ^ AffineBit(b, 7) ^ 0x63
  }

  function Rotate(b: byte, n: bv8): byte
    requires n <= 8
  {
    (b << n) | (b >> (8 - n))
  }

  /** The inverse of Affine. */
  function InvAffine(b: byte): byte {
    Rotate(b, 1) ^ Rotate(b, 3) ^ Rotate(b, 6) ^ 0x05
  }

  ghost function SubByte(b: byte): byte {
    Affine(Inverse(b))
  }

  ghost function InvSubByte(b: byte): byte {
    Inverse(InvAffine(b))
  }

  lemma AffineRotates(b: byte)
    ensures Affine(b) == b ^ Rotate(b, 1) ^ Rotate(b, 2) ^ Rotate(b, 3) ^ Rotate(b, 4) ^ 0x63
  {
  }

  lemma AffineTwoWays(b: byte)
    ensures InvAffine(Affine(b)) == b && Affine(InvAffine(b)) == b
  {
  }

  lemma SubByteTwoWays(b: byte)
    ensures InvSubByte(SubByte(b)) == b && SubByte(InvSubByte(b)) == b
  {
    hide Affine, InvAffine, Inverse;
    AffineTwoWays(Inverse(b));
    AffineTwoWays(b);
    InverseTwice(b);
    InverseTwice(InvAffine(b));
  }

  // ---------------------------------------------------------------- the cipher (section 5.1)

  ghost function SubWord(w: Word): Word {
    Word(SubByte(w.b0), SubByte(w.b1), SubByte(w.b2), SubByte(w.b3))
  }

  ghost function SubBytes(s: State): State {
    State(SubWord(s.w0), SubWord(s.w1), SubWord(s.w2), SubWord(s.w3))
  }

  function RotWord(w: Word): Word {
    Word(w.b1, w.b2, w.b3, w.b0)
  }

  function ShiftRows(s: State): State {
    State(s.w0, RotWord(s.w1), RotWord(RotWord(s.w2)), RotWord(RotWord(RotWord(s.w3))))
  }

  function Transpose(s: State): State {
    State(Word(s.w0.b0, s.w1.b0, s.w2.b0, s.w3.b0), Word(s.w0.b1, s.w1.b1, s.w2.b1, s.w3.b1),
          Word(s.w0.b2, s.w1.b2, s.w2.b2, s.w3.b2), Word(s.w0.b3, s.w1.b3, s.w2.b3, s.w3.b3))
  }

  function AddWord(v: Word, w: Word): Word {
    Word(Add(v.b0, w.b0), Add(v.b1, w.b1), Add(v.b2, w.b2), Add(v.b3, w.b3))
  }

  function AddState(s: State, t: State): State {
    State(AddWord(s.w0, t.w0), AddWord(s.w1, t.w1), AddWord(s.w2, t.w2), AddWord(s.w3, t.w3))
  }

  function Mult2(b: byte): byte { Mult(2, b) }
  function Mult3(b: byte): byte { Mult(3, b) }

  function MixColumn(c: Word): Word {
    Word(Add(Add(Mult2(c.b0), Mult3(c.b1)), Add(c.b2, c.b3)),
         Add(Add(c.b0, Mult2(c.b1)), Add(Mult3(c.b2), c.b3)),
         Add(Add(c.b0, c.b1), Add(Mult2(c.b2), Mult3(c.b3))),
         Add(Add(Mult3(c.b0), c.b1), Add(c.b2, Mult2(c.b3))))
  }

  /** MixColumn with doubling as the only product. */
  function Mixed(c: Word): Word {
    Word(Blend(c.b0, c.b1, c.b2, c.b3), Blend(c.b1, c.b2, c.b3, c.b0),
         Blend(c.b2, c.b3, c.b0, c.b1), Blend(c.b3, c.b0, c.b1, c.b2))
  }

  /** 2 p + 3 q + r + s */
  function Blend(p: byte, q: byte, r: byte, s: byte): byte {
    Sum5(Xtime(p), Xtime(q), q, r, s)
  }

  lemma MixColumnIs(c: Word)
    ensures MixColumn(c) == Mixed(c)
  {
    Doubling(c.b0);
    Doubling(c.b1);
    Doubling(c.b2);
    Doubling(c.b3);
    Orders(Xtime(c.b0), Xtime(c.b1), c.b1, c.b2, c.b3);
    Orders(Xtime(c.b1), Xtime(c.b2), c.b2, c.b3, c.b0);
    Orders(Xtime(c.b2), Xtime(c.b3), c.b3, c.b0, c.b1);
    Orders(Xtime(c.b3), Xtime(c.b0), c.b0, c.b1, c.b2);
    hide Mult, Xtime, Add, Sum5;
  }

  /** The four rows of the matrix add up in different orders. */
  lemma Orders(x: byte, y: byte, q: byte, r: byte, s: byte)
    ensures Add(Add(x, Add(y, q)), Add(r, s)) == Sum5(x, y, q, r, s)
    ensures Add(Add(s, x), Add(Add(y, q), r)) == Sum5(x, y, q, r, s)
    ensures Add(Add(r, s), Add(x, Add(y, q))) == Sum5(x, y, q, r, s)
    ensures Add(Add(Add(y, q), r), Add(s, x)) == Sum5(x, y, q, r, s)
  {
    var t := Add(y, q);
    AddComm(s, x);
    AddComm(r, s);
    AddFour(x, s, t, r);
    AddComm(Add(x, t), Add(r, s));
    AddComm(Add(t, r), Add(s, x));
    hide Add;
  }

  function Sum5(x: byte, y: byte, q: byte, r: byte, s: byte): byte { Add(Add(x, Add(y, q)), Add(r, s)) }

  /** On every column of a state given in columns. */
  function MixAll(c: State): State {
    State(MixColumn(c.w0), MixColumn(c.w1), MixColumn(c.w2), MixColumn(c.w3))
  }

  function MixColumns(s: State): State {
    Transpose(MixAll(Transpose(s)))
  }

  /** The round key k is in columns. */
  function AddRoundKey(s: State, k: State): State {
    Transpose(AddState(Transpose(s), k))
  }

  ghost function Round(s: State, k: State): State {
    AddRoundKey(MixColumns(ShiftRows(SubBytes(s))), k)
  }

  ghost function LastRound(s: State, k: State): State {
    AddRoundKey(ShiftRows(SubBytes(s)), k)
  }

  /** After r of the rounds that mix columns. */
  ghost function Rounds(keys: seq<State>, s: State, r: nat): State
    requires r < |keys|
  {
    if r == 0 then AddRoundKey(s, keys[0]) else Round(Rounds(keys, s, r - 1), keys[r])
  }

  ghost function Cipher(keys: seq<State>, s: State): State
    requires |keys| == ROUNDS + 1
  {
    LastRound(Rounds(keys, s, ROUNDS - 1), keys[ROUNDS])
  }

  // ---------------------------------------------------------------- key expansion (section 5.2)

  /** x^n */
  function XPower(n: nat): byte {
    if n == 0 then 1 else Xtime(XPower(n - 1))
  }

  function Rcon(i: nat): Word
    requires i > 0
  {
    Word(XPower(i - 1), 0, 0, 0)
  }

  /** The constants are x^(i-1) in the first byte: 1, and then each twice the one before. */
  lemma RconDoubles(i: nat)
    requires i > 0
    ensures Rcon(1) == Word(1, 0, 0, 0) && Rcon(i + 1) == Word(Mult(2, Rcon(i).b0), 0, 0, 0)
  {
    Doubling(XPower(i - 1));
    hide Mult, Xtime;
  }

  /** The first n words. */
  ghost function KeyWords(key: seq<Word>, n: nat): (w: seq<Word>)
    requires |key| == 8
    ensures |w| == n
  {
    if n == 0 then [] else
      var w := KeyWords(key, n - 1);
      w + [if n <= 8 then key[n - 1] else NextKeyWord(w)]
  }

  ghost function NextKeyWord(w: seq<Word>): Word
    requires |w| >= 8
  {
    var i := |w|;
    var temp := w[i - 1];
    AddWord(w[i - 8], if i % 8 == 0 then AddWord(SubWord(RotWord(temp)), Rcon(i / 8))
                      else if i % 8 == 4 then SubWord(temp)
                      else temp)
  }

  ghost function RoundKey(key: seq<Word>, r: nat): State
    requires |key| == 8 && r <= ROUNDS
  {
    var w := KeyWords(key, 60);
    State(w[4 * r], w[4 * r + 1], w[4 * r + 2], w[4 * r + 3])
  }

  ghost function KeyExpansion(key: seq<Word>): (k: seq<State>)
    requires |key| == 8
    ensures |k| == ROUNDS + 1
  {
    seq(ROUNDS + 1, r requires 0 <= r <= ROUNDS => RoundKey(key, r))
  }

  // ---------------------------------------------------------------- the equivalent inverse cipher (section 5.3.5)

  ghost function InvSubWord(w: Word): Word {
    Word(InvSubByte(w.b0), InvSubByte(w.b1), InvSubByte(w.b2), InvSubByte(w.b3))
  }

  ghost function InvSubBytes(s: State): State {
    State(InvSubWord(s.w0), InvSubWord(s.w1), InvSubWord(s.w2), InvSubWord(s.w3))
  }

  function InvRotWord(w: Word): Word {
    Word(w.b3, w.b0, w.b1, w.b2)
  }

  function InvShiftRows(s: State): State {
    State(s.w0, InvRotWord(s.w1), InvRotWord(InvRotWord(s.w2)), InvRotWord(InvRotWord(InvRotWord(s.w3))))
  }

  /** One row of a matrix times a column. */
  function Dot(p: byte, q: byte, r: byte, s: byte, c: Word): byte {
    Add(Add(Mult(p, c.b0), Mult(q, c.b1)), Add(Mult(r, c.b2), Mult(s, c.b3)))
  }

  function InvMixColumn(c: Word): Word {
    Word(Dot(0x0e, 0x0b, 0x0d, 0x09, c), Dot(0x09, 0x0e, 0x0b, 0x0d, c),
         Dot(0x0d, 0x09, 0x0e, 0x0b, c), Dot(0x0b, 0x0d, 0x09, 0x0e, c))
  }

  function InvMixAll(c: State): State {
    State(InvMixColumn(c.w0), InvMixColumn(c.w1), InvMixColumn(c.w2), InvMixColumn(c.w3))
  }

  function InvMixColumns(s: State): State {
    Transpose(InvMixAll(Transpose(s)))
  }

  ghost function InvRound(s: State, k: State): State {
    AddRoundKey(InvMixColumns(InvShiftRows(InvSubBytes(s))), k)
  }

  ghost function InvRounds(keys: seq<State>, s: State, r: nat): State
    requires r < |keys|
  {
    if r == 0 then AddRoundKey(s, keys[0]) else InvRound(InvRounds(keys, s, r - 1), keys[r])
  }

  /** The round keys in reverse order, all but the first and the last mixed. */
  function DecryptionKeys(keys: seq<State>): (d: seq<State>)
    requires |keys| == ROUNDS + 1
    ensures |d| == ROUNDS + 1
  {
    seq(ROUNDS + 1, r requires 0 <= r <= ROUNDS =>
      if r == 0 || r == ROUNDS then keys[ROUNDS - r] else InvMixAll(keys[ROUNDS - r]))
  }

  ghost function EqInvCipher(d: seq<State>, s: State): State
    requires |d| == ROUNDS + 1
  {
    AddRoundKey(InvShiftRows(InvSubBytes(InvRounds(d, s, ROUNDS - 1))), d[ROUNDS])
  }

  // ---------------------------------------------------------------- mixing can be undone

  lemma DotLinear(p: byte, q: byte, r: byte, s: byte, c: Word, d: Word)
    ensures Dot(p, q, r, s, AddWord(c, d)) == Add(Dot(p, q, r, s, c), Dot(p, q, r, s, d))
  {
    hide Mult, Add;
    MultLinear(p, c.b0, d.b0);
    MultLinear(q, c.b1, d.b1);
    MultLinear(r, c.b2, d.b2);
    MultLinear(s, c.b3, d.b3);
    AddFour(Mult(p, c.b0), Mult(p, d.b0), Mult(q, c.b1), Mult(q, d.b1));
    AddFour(Mult(r, c.b2), Mult(r, d.b2), Mult(s, c.b3), Mult(s, d.b3));
    AddFour(Add(Mult(p, c.b0), Mult(q, c.b1)), Add(Mult(p, d.b0), Mult(q, d.b1)),
            Add(Mult(r, c.b2), Mult(s, c.b3)), Add(Mult(r, d.b2), Mult(s, d.b3)));
  }

  lemma InvMixLinear(c: Word, d: Word)
    ensures InvMixColumn(AddWord(c, d)) == AddWord(InvMixColumn(c), InvMixColumn(d))
  {
    hide Dot, Add;
    DotLinear(0x0e, 0x0b, 0x0d, 0x09, c, d);
    DotLinear(0x09, 0x0e, 0x0b, 0x0d, c, d);
    DotLinear(0x0d, 0x09, 0x0e, 0x0b, c, d);
    DotLinear(0x0b, 0x0d, 0x09, 0x0e, c, d);
  }

  /** A column times one byte. */
  function Scale(c: Word, b: byte): Word {
    Word(Mult(c.b0, b), Mult(c.b1, b), Mult(c.b2, b), Mult(c.b3, b))
  }

  lemma DotScale(p: byte, q: byte, r: byte, s: byte, c: Word, b: byte)
    ensures Dot(p, q, r, s, Scale(c, b)) == Mult(Dot(p, q, r, s, c), b)
  {
    hide Mult, Add;
    MultAssoc(p, c.b0, b);
    MultAssoc(q, c.b1, b);
    MultAssoc(r, c.b2, b);
    MultAssoc(s, c.b3, b);
    MultLeft(Mult(p, c.b0), Mult(q, c.b1), b);
    MultLeft(Mult(r, c.b2), Mult(s, c.b3), b);
    MultLeft(Add(Mult(p, c.b0), Mult(q, c.b1)), Add(Mult(r, c.b2), Mult(s, c.b3)), b);
  }

  lemma InvMixScale(c: Word, b: byte)
    ensures InvMixColumn(Scale(c, b)) == Scale(InvMixColumn(c), b)
  {
    hide Dot, Mult;
    DotScale(0x0e, 0x0b, 0x0d, 0x09, c, b);
    DotScale(0x09, 0x0e, 0x0b, 0x0d, c, b);
    DotScale(0x0d, 0x09, 0x0e, 0x0b, c, b);
    DotScale(0x0b, 0x0d, 0x09, 0x0e, c, b);
  }

  /** The matrix of MixColumn by columns. */
  lemma MixIsSum(c: Word)
    ensures MixColumn(c)
         == AddWord(AddWord(Scale(Word(2, 1, 1, 3), c.b0), Scale(Word(3, 2, 1, 1), c.b1)),
                    AddWord(Scale(Word(1, 3, 2, 1), c.b2), Scale(Word(1, 1, 3, 2), c.b3)))
  {
    hide Mult, Add;
    OneMult(c.b0);
    OneMult(c.b1);
    OneMult(c.b2);
    OneMult(c.b3);
  }

  /** Inverse matrix times matrix. */
  lemma Entries()
    ensures InvMixColumn(Word(2, 1, 1, 3)) == Word(1, 0, 0, 0) && InvMixColumn(Word(3, 2, 1, 1)) == Word(0, 1, 0, 0)
    ensures InvMixColumn(Word(1, 3, 2, 1)) == Word(0, 0, 1, 0) && InvMixColumn(Word(1, 1, 3, 2)) == Word(0, 0, 0, 1)
  {
    SmallProducts();
    hide Mult;
  }

  lemma SmallProducts()
    ensures Mult(0x0e, 1) == 0x0e && Mult(0x0e, 2) == 0x1c && Mult(0x0e, 3) == 0x12
    ensures Mult(0x0b, 1) == 0x0b && Mult(0x0b, 2) == 0x16 && Mult(0x0b, 3) == 0x1d
    ensures Mult(0x0d, 1) == 0x0d && Mult(0x0d, 2) == 0x1a && Mult(0x0d, 3) == 0x17
    ensures Mult(0x09, 1) == 0x09 && Mult(0x09, 2) == 0x12 && Mult(0x09, 3) == 0x1b
  {
  }

  lemma ScaleUnits(c: Word)
    ensures AddWord(AddWord(Scale(Word(1, 0, 0, 0), c.b0), Scale(Word(0, 1, 0, 0), c.b1)),
                    AddWord(Scale(Word(0, 0, 1, 0), c.b2), Scale(Word(0, 0, 0, 1), c.b3))) == c
  {
    UnitProducts(c.b0);
    UnitProducts(c.b1);
    UnitProducts(c.b2);
    UnitProducts(c.b3);
    AddZero(0);
    hide Mult, Add;
  }

  lemma UnitProducts(b: byte)
    ensures Mult(1, b) == b && Mult(0, b) == 0 && Add(b, 0) == b && Add(0, b) == b
  {
    OneMult(b);
    ZeroProducts(0, b);
  }

  lemma InvMixMix(c: Word)
    ensures InvMixColumn(MixColumn(c)) == c
  {
    hide Mult, Add, InvMixColumn, Scale, AddWord, MixColumn;
    var x0, x1 := Scale(Word(2, 1, 1, 3), c.b0), Scale(Word(3, 2, 1, 1), c.b1);
    var x2, x3 := Scale(Word(1, 3, 2, 1), c.b2), Scale(Word(1, 1, 3, 2), c.b3);
    MixIsSum(c);
    InvMixLinear(AddWord(x0, x1), AddWord(x2, x3));
    InvMixLinear(x0, x1);
    InvMixLinear(x2, x3);
    InvMixScale(Word(2, 1, 1, 3), c.b0);
    InvMixScale(Word(3, 2, 1, 1), c.b1);
    InvMixScale(Word(1, 3, 2, 1), c.b2);
    InvMixScale(Word(1, 1, 3, 2), c.b3);
    Entries();
    ScaleUnits(c);
  }

  // ---------------------------------------------------------------- decryption undoes encryption

  lemma TransposeTwice(s: State)
    ensures Transpose(Transpose(s)) == s
  {
  }

  lemma AddWordCancel(a: Word, b: Word)
    ensures AddWord(AddWord(a, b), b) == a
  {
    AddCancel(a.b0, b.b0);
    AddCancel(a.b1, b.b1);
    AddCancel(a.b2, b.b2);
    AddCancel(a.b3, b.b3);
    hide Add;
  }

  lemma AddStateCancel(s: State, k: State)
    ensures AddState(AddState(s, k), k) == s
  {
    AddWordCancel(s.w0, k.w0);
    AddWordCancel(s.w1, k.w1);
    AddWordCancel(s.w2, k.w2);
    AddWordCancel(s.w3, k.w3);
    hide AddWord;
  }

  lemma AddRoundKeyTwice(s: State, k: State)
    ensures AddRoundKey(AddRoundKey(s, k), k) == s
  {
    AddStateCancel(Transpose(s), k);
    TransposeTwice(AddState(Transpose(s), k));
    TransposeTwice(s);
    hide AddState, Transpose;
  }

  /** Substituting and shifting, undone in the other order. */
  lemma ShiftSub(s: State)
    ensures InvShiftRows(InvSubBytes(ShiftRows(SubBytes(s)))) == s
  {
    hide SubByte, InvSubByte;
    SubWordBack(s.w0);
    SubWordBack(s.w1);
    SubWordBack(s.w2);
    SubWordBack(s.w3);
  }

  lemma SubWordBack(w: Word)
    ensures InvSubWord(SubWord(w)) == w
  {
    SubByteTwoWays(w.b0);
    SubByteTwoWays(w.b1);
    SubByteTwoWays(w.b2);
    SubByteTwoWays(w.b3);
    hide SubByte, InvSubByte;
  }

  /** InvMixColumns of a mixed state plus a key is the state plus the mixed key. */
  lemma InvMixAdd(s: State, k: State)
    ensures InvMixColumns(AddRoundKey(MixColumns(s), k)) == AddRoundKey(s, InvMixAll(k))
  {
    var c := Transpose(s);
    hide MixColumn, InvMixColumn, AddWord;
    TransposeTwice(s);
    TransposeTwice(MixAll(c));
    TransposeTwice(AddState(MixAll(c), k));
    InvMixLinear(MixColumn(c.w0), k.w0);
    InvMixLinear(MixColumn(c.w1), k.w1);
    InvMixLinear(MixColumn(c.w2), k.w2);
    InvMixLinear(MixColumn(c.w3), k.w3);
    InvMixMix(c.w0);
    InvMixMix(c.w1);
    InvMixMix(c.w2);
    InvMixMix(c.w3);
    hide Transpose;
  }

  /** One inverse round against one round. */
  lemma RoundBack(s: State, k: State)
    ensures InvRound(ShiftRows(SubBytes(Round(s, k))), InvMixAll(k)) == ShiftRows(SubBytes(s))
  {
    hide AddRoundKey, MixColumns, InvMixColumns, ShiftRows, SubBytes, InvShiftRows, InvSubBytes, InvMixAll;
    var t := ShiftRows(SubBytes(s));
    ShiftSub(Round(s, k));
    InvMixAdd(t, k);
    AddRoundKeyTwice(t, InvMixAll(k));
  }

  lemma LastRoundBack(keys: seq<State>, s: State)
    requires |keys| == ROUNDS + 1
    ensures InvRounds(DecryptionKeys(keys), Cipher(keys, s), 0) == ShiftRows(SubBytes(Rounds(keys, s, ROUNDS - 1)))
  {
    hide AddRoundKey, ShiftRows, SubBytes, Rounds;
    AddRoundKeyTwice(ShiftRows(SubBytes(Rounds(keys, s, ROUNDS - 1))), keys[ROUNDS]);
  }

  /** After r rounds of decryption the state is that of encryption before its last r + 1 substitutions were undone. */
  lemma {:induction false} HalfWay(keys: seq<State>, s: State, r: nat)
    requires |keys| == ROUNDS + 1 && r < ROUNDS
    ensures InvRounds(DecryptionKeys(keys), Cipher(keys, s), r) == ShiftRows(SubBytes(Rounds(keys, s, ROUNDS - 1 - r)))
    decreases r
  {
    hide AddRoundKey, ShiftRows, SubBytes, Round, InvRound, InvMixAll;
    if r == 0 {
      LastRoundBack(keys, s);
    } else {
      HalfWay(keys, s, r - 1);
      hide Cipher;
      var n := ROUNDS - 1 - r;
      RoundBack(Rounds(keys, s, n), keys[n + 1]);
      assert DecryptionKeys(keys)[r] == InvMixAll(keys[n + 1]);
    }
  }

  /** The equivalent inverse cipher undoes the cipher, for any round keys. */
  lemma DecryptEncrypt(keys: seq<State>, s: State)
    requires |keys| == ROUNDS + 1
    ensures EqInvCipher(DecryptionKeys(keys), Cipher(keys, s)) == s
  {
    HalfWay(keys, s, ROUNDS - 1);
    hide AddRoundKey, ShiftRows, SubBytes, InvRounds, Cipher, InvShiftRows, InvSubBytes;
    ShiftSub(Rounds(keys, s, 0));
    AddRoundKeyTwice(s, keys[0]);
  }
}
