/**
 * The AES-256 example of appendix C.3 of FIPS 197: all sixty words of the key schedule and the state after each of the
 * fourteen rounds are checked, one by one, against the definitions of module Fips197; the substitute of a byte is
 * recognised by a product in the field, and needs no table.
 */
module Fips197Example {
  import opened ByteIndex
  import opened Gf256
  import opened Fips197
  import opened Aes
  import opened AesContext

  // ---------------------------------------------------------------- substitution on given bytes

  /** s is the substitute of b, as multiplication tells. */
  predicate Substitutes(b: byte, s: byte) {
    if b == 0 then s == 0x63 else MultBits(b, InvAffine(s)) == 1
  }

  lemma SubByteIs(b: byte, s: byte)
    requires Substitutes(b, s)
    ensures SubByte(b) == s
  {
    MultByBits(b, InvAffine(s));
    AffineTwoWays(s);
    AffineOfZero();
    hide MultBits, Mult, Affine, InvAffine, Inverse;
    if b != 0 { InverseUnique(b, InvAffine(s)); }
  }

  lemma AffineOfZero()
    ensures Affine(0) == 0x63
  {
  }

  predicate WordSubstitutes(w: Word, s: Word) {
    Substitutes(w.b0, s.b0) && Substitutes(w.b1, s.b1) && Substitutes(w.b2, s.b2) && Substitutes(w.b3, s.b3)
  }

  lemma SubWordIs(w: Word, s: Word)
    requires WordSubstitutes(w, s)
    ensures SubWord(w) == s
  {
    SubByteIs(w.b0, s.b0);
    SubByteIs(w.b1, s.b1);
    SubByteIs(w.b2, s.b2);
    SubByteIs(w.b3, s.b3);
    hide SubByte, Substitutes;
  }

  // ---------------------------------------------------------------- the key schedule

  /** The bytes 00 01 .. 1f in words. */
  function Key(): (key: seq<Word>)
    ensures |key| == 8
  {
    [Word(0x00, 0x01, 0x02, 0x03), Word(0x04, 0x05, 0x06, 0x07),
     Word(0x08, 0x09, 0x0a, 0x0b), Word(0x0c, 0x0d, 0x0e, 0x0f),
     Word(0x10, 0x11, 0x12, 0x13), Word(0x14, 0x15, 0x16, 0x17),
     Word(0x18, 0x19, 0x1a, 0x1b), Word(0x1c, 0x1d, 0x1e, 0x1f)]
  }

  /** The round keys in columns. */
  function RoundKeys(r: nat): State {
    match r
    case 0 => State(Word(0x00, 0x01, 0x02, 0x03), Word(0x04, 0x05, 0x06, 0x07),
                    Word(0x08, 0x09, 0x0a, 0x0b), Word(0x0c, 0x0d, 0x0e, 0x0f))
    case 1 => State(Word(0x10, 0x11, 0x12, 0x13), Word(0x14, 0x15, 0x16, 0x17),
                    Word(0x18, 0x19, 0x1a, 0x1b), Word(0x1c, 0x1d, 0x1e, 0x1f))
    case 2 => State(Word(0xa5, 0x73, 0xc2, 0x9f), Word(0xa1, 0x76, 0xc4, 0x98),
                    Word(0xa9, 0x7f, 0xce, 0x93), Word(0xa5, 0x72, 0xc0, 0x9c))
    case 3 => State(Word(0x16, 0x51, 0xa8, 0xcd), Word(0x02, 0x44, 0xbe, 0xda),
                    Word(0x1a, 0x5d, 0xa4, 0xc1), Word(0x06, 0x40, 0xba, 0xde))
    case 4 => State(Word(0xae, 0x87, 0xdf, 0xf0), Word(0x0f, 0xf1, 0x1b, 0x68),
                    Word(0xa6, 0x8e, 0xd5, 0xfb), Word(0x03, 0xfc, 0x15, 0x67))
    case 5 => State(Word(0x6d, 0xe1, 0xf1, 0x48), Word(0x6f, 0xa5, 0x4f, 0x92),
                    Word(0x75, 0xf8, 0xeb, 0x53), Word(0x73, 0xb8, 0x51, 0x8d))
    case 6 => State(Word(0xc6, 0x56, 0x82, 0x7f), Word(0xc9, 0xa7, 0x99, 0x17),
                    Word(0x6f, 0x29, 0x4c, 0xec), Word(0x6c, 0xd5, 0x59, 0x8b))
    case 7 => State(Word(0x3d, 0xe2, 0x3a, 0x75), Word(0x52, 0x47, 0x75, 0xe7),
                    Word(0x27, 0xbf, 0x9e, 0xb4), Word(0x54, 0x07, 0xcf, 0x39))
    case 8 => State(Word(0x0b, 0xdc, 0x90, 0x5f), Word(0xc2, 0x7b, 0x09, 0x48),
                    Word(0xad, 0x52, 0x45, 0xa4), Word(0xc1, 0x87, 0x1c, 0x2f))
    case 9 => State(Word(0x45, 0xf5, 0xa6, 0x60), Word(0x17, 0xb2, 0xd3, 0x87),
                    Word(0x30, 0x0d, 0x4d, 0x33), Word(0x64, 0x0a, 0x82, 0x0a))
    case 10 => State(Word(0x7c, 0xcf, 0xf7, 0x1c), Word(0xbe, 0xb4, 0xfe, 0x54),
                     Word(0x13, 0xe6, 0xbb, 0xf0), Word(0xd2, 0x61, 0xa7, 0xdf))
    case 11 => State(Word(0xf0, 0x1a, 0xfa, 0xfe), Word(0xe7, 0xa8, 0x29, 0x79),
                     Word(0xd7, 0xa5, 0x64, 0x4a), Word(0xb3, 0xaf, 0xe6, 0x40))
    case 12 => State(Word(0x25, 0x41, 0xfe, 0x71), Word(0x9b, 0xf5, 0x00, 0x25),
                     Word(0x88, 0x13, 0xbb, 0xd5), Word(0x5a, 0x72, 0x1c, 0x0a))
    case 13 => State(Word(0x4e, 0x5a, 0x66, 0x99), Word(0xa9, 0xf2, 0x4f, 0xe0),
                     Word(0x7e, 0x57, 0x2b, 0xaa), Word(0xcd, 0xf8, 0xcd, 0xea))
    case _ => State(Word(0x24, 0xfc, 0x79, 0xcc), Word(0xbf, 0x09, 0x79, 0xe9),
                    Word(0x37, 0x1a, 0xc2, 0x3c), Word(0x6d, 0x68, 0xde, 0x36))
  }

  ghost predicate Known(r: nat) {
    && r <= ROUNDS
    && var w := KeyWords(Key(), 64);
      State(w[4 * r], w[4 * r + 1], w[4 * r + 2], w[4 * r + 3]) == RoundKeys(r)
  }

  /** Round key k after p and q, where u is the substitute of the last word of q, turned for an even number. */
  lemma NextRoundKey(r: nat, p: State, q: State, u: Word, k: State)
    requires 2 <= r <= ROUNDS && p == RoundKeys(r - 2) && q == RoundKeys(r - 1) && k == RoundKeys(r)
    requires WordSubstitutes(if r % 2 == 0 then RotWord(q.w3) else q.w3, u)
    requires k.w0 == AddWord(p.w0, if r % 2 == 0 then AddWord(u, Rcon(r / 2)) else u)
    requires k.w1 == AddWord(p.w1, k.w0) && k.w2 == AddWord(p.w2, k.w1) && k.w3 == AddWord(p.w3, k.w2)
    requires Known(r - 2) && Known(r - 1)
    ensures Known(r)
  {
    hide WordSubstitutes, RoundKeys, KeyWords, AddWord, SubWord, RotWord, Rcon, Key;
    SubWordIs(if r % 2 == 0 then RotWord(q.w3) else q.w3, u);
    Positions(r);
    NextWords(Key(), 4 * r);
    NextWords(Key(), 4 * r + 1);
    NextWords(Key(), 4 * r + 2);
    NextWords(Key(), 4 * r + 3);
  }

  lemma Positions(r: nat)
    ensures 4 * r % 8 == if r % 2 == 0 then 0 else 4
    ensures r % 2 == 0 ==> 4 * r / 8 == r / 2
    ensures (4 * r + 1) % 4 == 1 && (4 * r + 2) % 4 == 2 && (4 * r + 3) % 4 == 3
    ensures (4 * r + 1) % 8 != 0 && (4 * r + 1) % 8 != 4 && (4 * r + 2) % 8 != 0 && (4 * r + 2) % 8 != 4
    ensures (4 * r + 3) % 8 != 0 && (4 * r + 3) % 8 != 4
  {
  }

  lemma FirstKeys()
    ensures Known(0) && Known(1)
  {
    FirstWords();
    hide KeyWords;
  }

  lemma FirstWords()
    ensures forall i :: 0 <= i < 8 ==> KeyWords(Key(), 64)[i] == Key()[i]
  {
    forall i | 0 <= i < 8 ensures KeyWords(Key(), 64)[i] == Key()[i] { KeyWordIs(Key(), i, 64); }
  }

  lemma KeysFrom2()
    requires Known(0) && Known(1)
    ensures Known(2) && Known(3) && Known(4) && Known(5)
  {
    hide Known;
    NextRoundKey(2, RoundKeys(0), RoundKeys(1), Word(0xa4, 0x72, 0xc0, 0x9c), RoundKeys(2));
    NextRoundKey(3, RoundKeys(1), RoundKeys(2), Word(0x06, 0x40, 0xba, 0xde), RoundKeys(3));
    NextRoundKey(4, RoundKeys(2), RoundKeys(3), Word(0x09, 0xf4, 0x1d, 0x6f), RoundKeys(4));
    NextRoundKey(5, RoundKeys(3), RoundKeys(4), Word(0x7b, 0xb0, 0x59, 0x85), RoundKeys(5));
  }

  lemma KeysFrom6()
    requires Known(4) && Known(5)
    ensures Known(6) && Known(7) && Known(8)
  {
    hide Known;
    NextRoundKey(6, RoundKeys(4), RoundKeys(5), Word(0x6c, 0xd1, 0x5d, 0x8f), RoundKeys(6));
    NextRoundKey(7, RoundKeys(5), RoundKeys(6), Word(0x50, 0x03, 0xcb, 0x3d), RoundKeys(7));
    NextRoundKey(8, RoundKeys(6), RoundKeys(7), Word(0xc5, 0x8a, 0x12, 0x20), RoundKeys(8));
  }

  lemma KeysFrom9()
    requires Known(7) && Known(8)
    ensures Known(9) && Known(10) && Known(11)
  {
    hide Known;
    NextRoundKey(9, RoundKeys(7), RoundKeys(8), Word(0x78, 0x17, 0x9c, 0x15), RoundKeys(9));
    NextRoundKey(10, RoundKeys(8), RoundKeys(9), Word(0x67, 0x13, 0x67, 0x43), RoundKeys(10));
    NextRoundKey(11, RoundKeys(9), RoundKeys(10), Word(0xb5, 0xef, 0x5c, 0x9e), RoundKeys(11));
  }

  lemma KeysFrom12()
    requires Known(10) && Known(11)
    ensures Known(12) && Known(13) && Known(14)
  {
    hide Known;
    NextRoundKey(12, RoundKeys(10), RoundKeys(11), Word(0x79, 0x8e, 0x09, 0x6d), RoundKeys(12));
    NextRoundKey(13, RoundKeys(11), RoundKeys(12), Word(0xbe, 0x40, 0x9c, 0x67), RoundKeys(13));
    NextRoundKey(14, RoundKeys(12), RoundKeys(13), Word(0x41, 0xbd, 0x87, 0xbd), RoundKeys(14));
  }

  lemma AllKeys()
    ensures forall r :: 0 <= r <= ROUNDS ==> Known(r)
  {
    hide Known;
    FirstKeys();
    KeysFrom2();
    KeysFrom6();
    KeysFrom9();
    KeysFrom12();
  }

  /** The key schedule of the example. */
  lemma Expanded(r: nat)
    requires r <= ROUNDS
    ensures KeyExpansion(Key())[r] == RoundKeys(r)
  {
    AllKeys();
    RoundKeyIs(Key(), r);
    assert Known(r);
    hide KeyExpansion, KeyWords, RoundKeys;
  }

  // ---------------------------------------------------------------- the rounds

  /** The state in rows after r rounds. */
  function States(r: nat): State {
    match r
    case 0 => State(Word(0x00, 0x40, 0x80, 0xc0), Word(0x10, 0x50, 0x90, 0xd0),
                    Word(0x20, 0x60, 0xa0, 0xe0), Word(0x30, 0x70, 0xb0, 0xf0))
    case 1 => State(Word(0x4f, 0x43, 0xef, 0x01), Word(0x63, 0xe0, 0xa7, 0xa4),
                    Word(0x76, 0xaa, 0x21, 0xe7), Word(0x06, 0x85, 0x32, 0x05))
    case 2 => State(Word(0x18, 0x8a, 0x78, 0xc4), Word(0x59, 0x1c, 0xed, 0x2f),
                    Word(0xfb, 0x00, 0x8a, 0x61), Word(0xc2, 0xa0, 0xad, 0x09))
    case 3 => State(Word(0x97, 0xcb, 0xa9, 0x8e), Word(0x5c, 0x9f, 0x3a, 0xe1),
                    Word(0x66, 0x3f, 0x28, 0x0f), Word(0xc1, 0xa8, 0xdf, 0x63))
    case 4 => State(Word(0x1c, 0xa4, 0xf9, 0x04), Word(0x05, 0x17, 0x21, 0x70),
                    Word(0xf2, 0xe0, 0xc5, 0x15), Word(0x71, 0x4f, 0xc1, 0x54))
    case 5 => State(Word(0xc3, 0x1b, 0xa2, 0xa8), Word(0x57, 0x45, 0xc7, 0xdc),
                    Word(0xaa, 0xb7, 0xbd, 0x99), Word(0xe1, 0xb0, 0x28, 0xfa))
    case 6 => State(Word(0x7f, 0xcb, 0xc1, 0x83), Word(0x07, 0x4e, 0x0c, 0x75),
                    Word(0x41, 0x24, 0x81, 0xd5), Word(0x43, 0x3e, 0x5d, 0x4c))
    case 7 => State(Word(0xd6, 0x6c, 0x5a, 0xb9), Word(0x53, 0xa0, 0xca, 0x6c),
                    Word(0xa4, 0xbc, 0xab, 0x5e), Word(0x69, 0x0f, 0x5d, 0x7d))
    case 8 => State(Word(0x5a, 0x5f, 0x05, 0x68), Word(0xa8, 0xd2, 0xe1, 0xf3),
                    Word(0x58, 0x8d, 0xa3, 0xb9), Word(0x39, 0x7d, 0x88, 0xc5))
    case 9 => State(Word(0x4a, 0xc5, 0x64, 0x2a), Word(0x82, 0x7e, 0x3d, 0xf3),
                    Word(0x48, 0x7e, 0xe5, 0xe8), Word(0x51, 0x47, 0x0c, 0xc9))
    case 10 => State(Word(0xc1, 0xca, 0x70, 0x3b), Word(0x49, 0x3b, 0xe9, 0x52),
                     Word(0x07, 0x3a, 0xaa, 0xb5), Word(0xf6, 0xa0, 0x31, 0xec))
    case 11 => State(Word(0x5f, 0xba, 0x50, 0x66), Word(0x9c, 0xc6, 0x40, 0x67),
                     Word(0x6a, 0x34, 0x9f, 0x76), Word(0xbf, 0xaa, 0xa7, 0x53))
    case 12 => State(Word(0x51, 0x43, 0x14, 0x01), Word(0x66, 0x53, 0xfb, 0x92),
                     Word(0x04, 0x95, 0x86, 0x25), Word(0x95, 0x03, 0xe4, 0x21))
    case _ => State(Word(0x62, 0x99, 0xc9, 0x23), Word(0x7b, 0x9d, 0x45, 0xf5),
                    Word(0xce, 0x5a, 0xec, 0x6d), Word(0xb9, 0xaa, 0xf4, 0xa5))
  }

  /** u is the substituted state; the columns are those of u shifted. */
  lemma RoundIs(s: State, u: State, k: State, t: State)
    requires WordSubstitutes(s.w0, u.w0) && WordSubstitutes(s.w1, u.w1)
    requires WordSubstitutes(s.w2, u.w2) && WordSubstitutes(s.w3, u.w3)
    requires Word(t.w0.b0, t.w1.b0, t.w2.b0, t.w3.b0) == AddWord(Mixed(Word(u.w0.b0, u.w1.b1, u.w2.b2, u.w3.b3)), k.w0)
    requires Word(t.w0.b1, t.w1.b1, t.w2.b1, t.w3.b1) == AddWord(Mixed(Word(u.w0.b1, u.w1.b2, u.w2.b3, u.w3.b0)), k.w1)
    requires Word(t.w0.b2, t.w1.b2, t.w2.b2, t.w3.b2) == AddWord(Mixed(Word(u.w0.b2, u.w1.b3, u.w2.b0, u.w3.b1)), k.w2)
    requires Word(t.w0.b3, t.w1.b3, t.w2.b3, t.w3.b3) == AddWord(Mixed(Word(u.w0.b3, u.w1.b0, u.w2.b1, u.w3.b2)), k.w3)
    ensures Round(s, k) == t
  {
    SubWordIs(s.w0, u.w0);
    SubWordIs(s.w1, u.w1);
    SubWordIs(s.w2, u.w2);
    SubWordIs(s.w3, u.w3);
    var c := Transpose(ShiftRows(u));
    MixColumnIs(c.w0);
    MixColumnIs(c.w1);
    MixColumnIs(c.w2);
    MixColumnIs(c.w3);
    TransposeTwice(MixAll(c));
    hide WordSubstitutes, SubWord, MixColumn, Mixed, AddWord;
  }

  lemma LastRoundIs(s: State, u: State, k: State, t: State)
    requires WordSubstitutes(s.w0, u.w0) && WordSubstitutes(s.w1, u.w1)
    requires WordSubstitutes(s.w2, u.w2) && WordSubstitutes(s.w3, u.w3)
    requires Word(t.w0.b0, t.w1.b0, t.w2.b0, t.w3.b0) == AddWord(Word(u.w0.b0, u.w1.b1, u.w2.b2, u.w3.b3), k.w0)
    requires Word(t.w0.b1, t.w1.b1, t.w2.b1, t.w3.b1) == AddWord(Word(u.w0.b1, u.w1.b2, u.w2.b3, u.w3.b0), k.w1)
    requires Word(t.w0.b2, t.w1.b2, t.w2.b2, t.w3.b2) == AddWord(Word(u.w0.b2, u.w1.b3, u.w2.b0, u.w3.b1), k.w2)
    requires Word(t.w0.b3, t.w1.b3, t.w2.b3, t.w3.b3) == AddWord(Word(u.w0.b3, u.w1.b0, u.w2.b1, u.w3.b2), k.w3)
    ensures LastRound(s, k) == t
  {
    SubWordIs(s.w0, u.w0);
    SubWordIs(s.w1, u.w1);
    SubWordIs(s.w2, u.w2);
    SubWordIs(s.w3, u.w3);
    hide WordSubstitutes, SubWord, AddWord;
  }

  lemma Round1()
    ensures Round(States(0), RoundKeys(1)) == States(1)
  {
    var u := State(Word(0x63, 0x09, 0xcd, 0xba), Word(0xca, 0x53, 0x60, 0x70),
                   Word(0xb7, 0xd0, 0xe0, 0xe1), Word(0x04, 0x51, 0xe7, 0x8c));
    RoundIs(States(0), u, RoundKeys(1), States(1));
    hide States, RoundKeys, Round;
  }

  lemma Round2()
    ensures Round(States(1), RoundKeys(2)) == States(2)
  {
    var u := State(Word(0x84, 0x1a, 0xdf, 0x7c), Word(0xfb, 0xe1, 0x5c, 0x49),
                   Word(0x38, 0xac, 0xfd, 0x94), Word(0x6f, 0x97, 0x23, 0x6b));
    RoundIs(States(1), u, RoundKeys(2), States(2));
    hide States, RoundKeys, Round;
  }

  lemma Round3()
    ensures Round(States(2), RoundKeys(3)) == States(3)
  {
    var u := State(Word(0xad, 0x7e, 0xbc, 0x1c), Word(0xcb, 0x9c, 0x55, 0x15),
                   Word(0x0f, 0x63, 0x7e, 0xef), Word(0x25, 0xe0, 0x95, 0x01));
    RoundIs(States(2), u, RoundKeys(3), States(3));
    hide States, RoundKeys, Round;
  }

  lemma Round4()
    ensures Round(States(3), RoundKeys(4)) == States(4)
  {
    var u := State(Word(0x88, 0x1f, 0xd3, 0x19), Word(0x4a, 0xdb, 0x80, 0xf8),
                   Word(0x33, 0x75, 0x34, 0x76), Word(0x78, 0xc2, 0x9e, 0xfb));
    RoundIs(States(3), u, RoundKeys(4), States(4));
    hide States, RoundKeys, Round;
  }

  lemma Round5()
    ensures Round(States(4), RoundKeys(5)) == States(5)
  {
    var u := State(Word(0x9c, 0x49, 0x99, 0xf2), Word(0x6b, 0xf0, 0xfd, 0x51),
                   Word(0x89, 0xe1, 0xa6, 0x59), Word(0xa3, 0x84, 0x78, 0x20));
    RoundIs(States(4), u, RoundKeys(5), States(5));
    hide States, RoundKeys, Round;
  }

  lemma Round6()
    ensures Round(States(5), RoundKeys(6)) == States(6)
  {
    var u := State(Word(0x2e, 0xaf, 0x3a, 0xc2), Word(0x5b, 0x6e, 0xc6, 0x86),
                   Word(0xac, 0xa9, 0x7a, 0xee), Word(0xf8, 0xe7, 0x34, 0x2d));
    RoundIs(States(5), u, RoundKeys(6), States(6));
    hide States, RoundKeys, Round;
  }

  lemma Round7()
    ensures Round(States(6), RoundKeys(7)) == States(7)
  {
    var u := State(Word(0xd2, 0x1f, 0x78, 0xec), Word(0xc5, 0x2f, 0xfe, 0x9d),
                   Word(0x83, 0x36, 0x0c, 0x03), Word(0x1a, 0xb2, 0x4c, 0x29));
    RoundIs(States(6), u, RoundKeys(7), States(7));
    hide States, RoundKeys, Round;
  }

  lemma Round8()
    ensures Round(States(7), RoundKeys(8)) == States(8)
  {
    var u := State(Word(0xf6, 0x50, 0xbe, 0x56), Word(0xed, 0xe0, 0x74, 0x50),
                   Word(0x49, 0x65, 0x62, 0x58), Word(0xf9, 0x76, 0x4c, 0xff));
    RoundIs(States(7), u, RoundKeys(8), States(8));
    hide States, RoundKeys, Round;
  }

  lemma Round9()
    ensures Round(States(8), RoundKeys(9)) == States(9)
  {
    var u := State(Word(0xbe, 0xcf, 0x6b, 0x45), Word(0xc2, 0xb5, 0xf8, 0x0d),
                   Word(0x6a, 0x5d, 0x0a, 0x56), Word(0x12, 0xff, 0xc4, 0xa6));
    RoundIs(States(8), u, RoundKeys(9), States(9));
    hide States, RoundKeys, Round;
  }

  lemma Round10()
    ensures Round(States(9), RoundKeys(10)) == States(10)
  {
    var u := State(Word(0xd6, 0xa6, 0x43, 0xe5), Word(0x13, 0xf3, 0x27, 0x0d),
                   Word(0x52, 0xf3, 0xd9, 0x9b), Word(0xd1, 0xa0, 0xfe, 0xdd));
    RoundIs(States(9), u, RoundKeys(10), States(10));
    hide States, RoundKeys, Round;
  }

  lemma Round11()
    ensures Round(States(10), RoundKeys(11)) == States(11)
  {
    var u := State(Word(0x78, 0x74, 0x51, 0xe2), Word(0x3b, 0xe2, 0x1e, 0x00),
                   Word(0xc5, 0x80, 0xac, 0xd5), Word(0x42, 0xe0, 0xc7, 0xce));
    RoundIs(States(10), u, RoundKeys(11), States(11));
    hide States, RoundKeys, Round;
  }

  lemma Round12()
    ensures Round(States(11), RoundKeys(12)) == States(12)
  {
    var u := State(Word(0xcf, 0xf4, 0x53, 0x33), Word(0xde, 0xb4, 0x09, 0x85),
                   Word(0x02, 0x18, 0xdb, 0x38), Word(0x08, 0xac, 0x5c, 0xed));
    RoundIs(States(11), u, RoundKeys(12), States(12));
    hide States, RoundKeys, Round;
  }

  lemma Round13()
    ensures Round(States(12), RoundKeys(13)) == States(13)
  {
    var u := State(Word(0xd1, 0x1a, 0xfa, 0x7c), Word(0x33, 0xed, 0x0f, 0x4f),
                   Word(0xf2, 0x2a, 0x44, 0x3f), Word(0x2a, 0x7b, 0x69, 0xfd));
    RoundIs(States(12), u, RoundKeys(13), States(13));
    hide States, RoundKeys, Round;
  }

  lemma Round14()
    ensures LastRound(States(13), RoundKeys(14)) == State(Word(0x8e, 0x51, 0xea, 0x4b), Word(0xa2, 0x67, 0xfc, 0x49),
                                                           Word(0xb7, 0x45, 0x49, 0x60), Word(0xca, 0xbf, 0x90, 0x89))
  {
    var u := State(Word(0xaa, 0xee, 0xdd, 0x26), Word(0x21, 0x5e, 0x6e, 0xe6),
                   Word(0x8b, 0xbe, 0xce, 0x3c), Word(0x56, 0xac, 0xbf, 0x06));
    LastRoundIs(States(13), u, RoundKeys(14), State(Word(0x8e, 0x51, 0xea, 0x4b), Word(0xa2, 0x67, 0xfc, 0x49),
                                                      Word(0xb7, 0x45, 0x49, 0x60), Word(0xca, 0xbf, 0x90, 0x89)));
    hide States, RoundKeys, LastRound;
  }

  lemma RoundAt(r: nat)
    requires 0 < r < ROUNDS
    ensures Round(States(r - 1), RoundKeys(r)) == States(r)
  {
    hide States, RoundKeys, Round;
    match r
    case 1 => Round1();
    case 2 => Round2();
    case 3 => Round3();
    case 4 => Round4();
    case 5 => Round5();
    case 6 => Round6();
    case 7 => Round7();
    case 8 => Round8();
    case 9 => Round9();
    case 10 => Round10();
    case 11 => Round11();
    case 12 => Round12();
    case _ => Round13();
  }

  lemma {:induction false} RoundsAre(keys: seq<State>, s: State, r: nat)
    requires |keys| == ROUNDS + 1 && (forall i :: 0 <= i <= ROUNDS ==> keys[i] == RoundKeys(i)) && r < ROUNDS
    requires AddRoundKey(s, RoundKeys(0)) == States(0)
    ensures Rounds(keys, s, r) == States(r)
  {
    hide States, RoundKeys, Round, AddRoundKey;
    if r > 0 {
      RoundsAre(keys, s, r - 1);
      RoundAt(r);
    }
  }

  // ---------------------------------------------------------------- the example

  function Block(): (b: seq<byte>)
    ensures |b| == 16
  {
    [0x00, 0x11, 0x22, 0x33, 0x44, 0x55, 0x66, 0x77, 0x88, 0x99, 0xaa, 0xbb, 0xcc, 0xdd, 0xee, 0xff]
  }

  lemma FirstKeyAdded()
    ensures AddRoundKey(InState(Block()), RoundKeys(0)) == States(0)
  {
  }

  /** The bytes 00 01 .. 1f. */
  function KeyBytes(): (key: seq<byte>)
    ensures |key| == 32
  {
    [0x00, 0x01, 0x02, 0x03, 0x04, 0x05, 0x06, 0x07, 0x08, 0x09, 0x0a, 0x0b, 0x0c, 0x0d, 0x0e, 0x0f]
    + [0x10, 0x11, 0x12, 0x13, 0x14, 0x15, 0x16, 0x17, 0x18, 0x19, 0x1a, 0x1b, 0x1c, 0x1d, 0x1e, 0x1f]
  }

  lemma KeyOfBytes()
    ensures KeyOf(KeyBytes()) == Key()
  {
  }

  /** What the cipher makes of the block under the key. */
  lemma CipherOfExample()
    ensures OutBytes(Cipher(KeyExpansion(KeyOf(KeyBytes())), InState(Block())))
         == [0x8e, 0xa2, 0xb7, 0xca, 0x51, 0x67, 0x45, 0xbf, 0xea, 0xfc, 0x49, 0x90, 0x4b, 0x49, 0x60, 0x89]
  {
    KeyOfBytes();
    var keys := KeyExpansion(Key());
    forall i | 0 <= i <= ROUNDS ensures keys[i] == RoundKeys(i) { Expanded(i); }
    FirstKeyAdded();
    Round14();
    hide Round, KeyExpansion, KeyOf, KeyBytes, Block, InState, States, RoundKeys, LastRound, AddRoundKey, Rounds;
    RoundsAre(keys, InState(Block()), ROUNDS - 1);
  }
}
