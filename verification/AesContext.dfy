/** The AES-256 context of aes.c. */
module AesContext {
  // Key schedules for both directions, and the two block functions.

  import opened ByteIndex
  import opened Gf256
  import opened Fips197
  import opened AesWords
  import opened Aes
  import AesTables

  // ---------------------------------------------------------------- the words of the key schedule

  lemma {:induction false} KeyWordsPrefix(key: seq<Word>, m: nat, n: nat)
    requires |key| == 8 && m <= n
    ensures KeyWords(key, n)[..m] == KeyWords(key, m)
    decreases n
  {
    hide NextKeyWord;
    if m < n { KeyWordsPrefix(key, m, n - 1); }
  }

  /** Each word from those before it. */
  lemma {:induction false} KeyWordIs(key: seq<Word>, k: nat, n: nat)
    requires |key| == 8 && k < n
    ensures KeyWords(key, n)[k] == if k < 8 then key[k] else NextKeyWord(KeyWords(key, n)[..k])
  {
    hide NextKeyWord;
    KeyWordsPrefix(key, k + 1, n);
    KeyWordsPrefix(key, k, n);
    assert KeyWords(key, n)[k] == KeyWords(key, n)[..k + 1][k];
  }

  lemma RoundKeyIs(key: seq<Word>, r: nat)
    requires |key| == 8 && r <= ROUNDS
    ensures var w := KeyWords(key, 64);
      KeyExpansion(key)[r] == State(w[4 * r], w[4 * r + 1], w[4 * r + 2], w[4 * r + 3])
  {
    hide KeyWords;
    KeyWordsPrefix(key, 60, 64);
    var w, v := KeyWords(key, 64), KeyWords(key, 60);
    assert forall i :: 0 <= i < 60 ==> w[i] == w[..60][i] == v[i];
  }

  /** The three kinds of words. */
  lemma NextWords(key: seq<Word>, k: nat)
    requires |key| == 8 && 8 <= k < 64
    ensures var w := KeyWords(key, 64);
      w[k] == AddWord(w[k - 8], if k % 8 == 0 then AddWord(SubWord(RotWord(w[k - 1])), Rcon(k / 8))
                                else if k % 8 == 4 then SubWord(w[k - 1]) else w[k - 1])
  {
    KeyWordIs(key, k, 64);
    hide KeyWords, AddWord, SubWord, RotWord, Rcon;
    var w := KeyWords(key, 64);
    assert w[..k][k - 8] == w[k - 8] && w[..k][k - 1] == w[k - 1];
  }

  lemma AddWordShuffle(a: Word, b: Word, c: Word)
    ensures AddWord(b, AddWord(a, c)) == AddWord(a, AddWord(b, c))
  {
    AddShuffle(a.b0, b.b0, c.b0);
    AddShuffle(a.b1, b.b1, c.b1);
    AddShuffle(a.b2, b.b2, c.b2);
    AddShuffle(a.b3, b.b3, c.b3);
    hide Add;
  }

  lemma AddShuffle(a: byte, b: byte, c: byte)
    ensures Add(b, Add(a, c)) == Add(a, Add(b, c))
  {
    AddAssoc(a, b, c);
    AddAssoc(b, a, c);
    AddComm(a, b);
    hide Add;
  }

  lemma SubRot(x: uint32)
    ensures SubWord(RotWord(Unpack(x)))
      == Word(SubByte(Byte1(x)), SubByte(Byte2(x)), SubByte(Byte3(x)), SubByte(Byte0(x)))
    ensures SubWord(Unpack(x)) == SubWord(Word(Byte0(x), Byte1(x), Byte2(x), Byte3(x)))
  {
    hide SubByte, Byte0, Byte1, Byte2, Byte3;
  }

  /** The first n words of the buffer are those of the expansion. */
  ghost predicate Expanded(rk: seq<uint32>, w: seq<Word>, n: nat) {
    n <= |rk| && n <= |w| && forall k :: 0 <= k < n ==> Unpack(rk[k]) == w[k]
  }

  lemma ExpandedNext(rk: seq<uint32>, w: seq<Word>, n: nat, x: uint32)
    requires Expanded(rk, w, n) && n < |rk| && n < |w| && Unpack(x) == w[n]
    ensures Expanded(rk[n := x], w, n + 1)
  {
    hide Unpack;
  }

  // ---------------------------------------------------------------- the context

  /** mbedtls_aes_context; rk always points to the start of buf. */
  class Context {
    var nr: nat
    const buf: array<uint32>

    ghost predicate Fits() {
      buf.Length == 68
    }

    /** Set up with the round keys ks, in the order they are used. */
    ghost predicate Uses(ks: seq<State>)
      reads this, buf
    {
      Fits() && nr == ROUNDS && Schedule(buf[..], ks)
    }

    constructor ()
      ensures Fits() && fresh(buf)
    {
      nr := 0;
      buf := new uint32[68](_ => 0);
    }

    /** mbedtls_aes_setkey_enc for 256 bits; the tables are made if they are not there yet. */
    method SetKeyEnc(t: Tables, key: seq<byte>) returns (ret: int)
      requires Fits() && |key| == 32 && t.Fits() && (t.done ==> t.Correct()) && buf !in t.Repr
      modifies this, buf, t.Repr
      ensures t.done && t.Correct() && ret == 0
      ensures Uses(KeyExpansion(KeyOf(key)))
    {
      hide Schedule, Expanded, AesTables.Column, SubByte, InvSubByte;
      if !t.done {
        t.GenTables();
        t.done := true;
      }
      nr := 14;
      LoadKey(key);
      ExpandAll(t, KeyOf(key));
      ScheduleIs(buf[..], KeyOf(key));
      ret := 0;
    }

    /** The first loop of mbedtls_aes_setkey_enc. */
    method LoadKey(key: seq<byte>)
      requires Fits() && |key| == 32
      modifies buf
      ensures Expanded(buf[..], KeyWords(KeyOf(key), 64), 8)
    {
      hide Expanded, Pack, Unpack, KeyWords;
      ghost var w := KeyWords(KeyOf(key), 64);
      StartExpansion(buf[..], w);
      for i := 0 to 8
        invariant Expanded(buf[..], w, i)
      {
        var keyWord := Pack(WordAt(key, 4 * i));
        UnpackPack(WordAt(key, 4 * i));
        KeyWordIs(KeyOf(key), i, 64);
        Put(keyWord, w, i);
      }
    }

    /** The second loop of mbedtls_aes_setkey_enc. */
    method ExpandAll(t: Tables, ghost key: seq<Word>)
      requires Fits() && t.Correct() && |key| == 8 && buf !in t.Repr
      requires Expanded(buf[..], KeyWords(key, 64), 8)
      modifies buf
      ensures Expanded(buf[..], KeyWords(key, 64), 64)
    {
      hide Expanded, KeyWords, AesTables.Tables.Correct, SubByte, InvSubByte;
      for i := 0 to 7
        invariant Expanded(buf[..], KeyWords(key, 64), 8 * i + 8)
      {
        ExpandHalf(t, key, i);
        ExpandOther(t, key, i);
      }
    }

    /** The first four words of a turn of the loop. */
    method ExpandHalf(t: Tables, ghost key: seq<Word>, i: nat)
      requires Fits() && t.Correct() && |key| == 8 && i < 7 && buf !in t.Repr
      requires Expanded(buf[..], KeyWords(key, 64), 8 * i + 8)
      modifies buf
      ensures Expanded(buf[..], KeyWords(key, 64), 8 * i + 12)
    {
      hide Expanded, KeyWords, AesTables.Tables.Correct, SubByte, InvSubByte;
      ExpandFirst(t, key, i);
      XorNext(key, 8 * i + 9);
      XorNext(key, 8 * i + 10);
      XorNext(key, 8 * i + 11);
    }

    /** The word with the round constant. */
    method ExpandFirst(t: Tables, ghost key: seq<Word>, i: nat)
      requires Fits() && t.Correct() && |key| == 8 && i < 7 && buf !in t.Repr
      requires Expanded(buf[..], KeyWords(key, 64), 8 * i + 8)
      modifies buf
      ensures Expanded(buf[..], KeyWords(key, 64), 8 * i + 9)
    {
      hide Unpack, Pack, KeyWords, AddWord, SubWord, RotWord, Rcon, AesTables.Column, SubByte, InvSubByte;
      ghost var w := KeyWords(key, 64);
      var n := 8 * i + 8;
      RoundConstant(t, i);
      hide AesTables.Tables.Correct;
      ExpandedAt(buf[..], w, n, n - 8);
      ExpandedAt(buf[..], w, n, n - 1);
      hide Expanded;
      var x := RotColumn(t, buf[8 * i], t.RCON[i], buf[8 * i + 7]);
      NextWords(key, n);
      AddWordShuffle(w[n - 8], SubWord(RotWord(w[n - 1])), Rcon(i + 1));
      Put(x, w, n);
    }

    /** The other four. */
    method ExpandOther(t: Tables, ghost key: seq<Word>, i: nat)
      requires Fits() && t.Correct() && |key| == 8 && i < 7 && buf !in t.Repr
      requires Expanded(buf[..], KeyWords(key, 64), 8 * i + 12)
      modifies buf
      ensures Expanded(buf[..], KeyWords(key, 64), 8 * i + 16)
    {
      hide Unpack, Pack, KeyWords, AddWord, SubWord, RotWord, Rcon, AesTables.Tables.Correct, Byte0, Byte1, Byte2,
        Byte3;
      ghost var w := KeyWords(key, 64);
      var n := 8 * i + 12;
      var rk0, rk7 := buf[8 * i + 4], buf[8 * i + 11];
      var x := SColumn(t, rk0, rk7, rk7, rk7, rk7);
      SubRot(rk7);
      NextWords(key, n);
      AddWordComm(w[n - 8], SubWord(w[n - 1]));
      Put(x, w, n);
      XorNext(key, n + 1);
      XorNext(key, n + 2);
      XorNext(key, n + 3);
    }

    /** A word that is the sum of the one before it and the one eight before. */
    method XorNext(ghost key: seq<Word>, n: nat)
      requires Fits() && |key| == 8 && 8 <= n < 64 && n % 4 != 0 && Expanded(buf[..], KeyWords(key, 64), n)
      modifies buf
      ensures Expanded(buf[..], KeyWords(key, 64), n + 1)
    {
      hide Unpack, KeyWords, AddWord, SubWord, RotWord, Rcon, Xor;
      NextWords(key, n);
      XorBytes(buf[n - 8], buf[n - 1]);
      Put(Xor(buf[n - 8], buf[n - 1]), KeyWords(key, 64), n);
    }

    method Put(x: uint32, ghost w: seq<Word>, n: nat)
      requires Fits() && n < |w| && n < 68 && Expanded(buf[..], w, n) && Unpack(x) == w[n]
      modifies buf
      ensures Expanded(buf[..], w, n + 1)
    {
      hide Unpack, Expanded;
      ExpandedNext(buf[..], w, n, x);
      ghost var rk := buf[..];
      buf[n] := x;
      assert buf[..] == rk[n := x];
    }

    /** mbedtls_aes_setkey_dec: the schedule of the equivalent inverse cipher. */
    method SetKeyDec(t: Tables, key: seq<byte>) returns (ret: int)
      requires Fits() && |key| == 32 && t.Fits() && (t.done ==> t.Correct()) && buf !in t.Repr
      modifies this, buf, t.Repr
      ensures t.done && t.Correct() && ret == 0
      ensures Uses(DecryptionKeys(KeyExpansion(KeyOf(key))))
    {
      hide Schedule, Expanded, AesTables.Tables.Correct, SubByte, InvSubByte, KeyExpansion, DecryptionKeys, InvMixAll;
      hide AesTables.Tables.Fits;
      var cty := new Context();
      ret := cty.SetKeyEnc(t, key);
      nr := cty.nr;
      ReverseKeys(t, cty, KeyExpansion(KeyOf(key)));
    }

    /** The rest of mbedtls_aes_setkey_dec, with the encryption schedule in cty. */
    method ReverseKeys(t: Tables, cty: Context, ghost keys: seq<State>)
      requires Fits() && t.Correct() && cty.Uses(keys) && |keys| == ROUNDS + 1 && buf !in t.Repr && cty.buf != buf
      modifies buf
      ensures Schedule(buf[..], DecryptionKeys(keys))
    {
      hide Schedule, Expanded, AesTables.Tables.Correct, SubByte, InvSubByte, DecryptionKeys, InvMixAll, FlatKeys,
        Columns;
      ghost var d := FlatKeys(DecryptionKeys(keys));
      StartExpansion(buf[..], d);
      var rk, sk := 0, 4 * cty.nr;
      FirstKey(cty.buf[..], keys);
      CopyFour(cty, sk, rk, d);
      rk, sk := 4, sk + 4;
      var i := cty.nr - 1;
      sk := sk - 8;
      while i > 0
        invariant 0 <= i < 14 && sk == 4 * i && rk == 4 * (14 - i)
        invariant Expanded(buf[..], d, rk)
      {
        MiddleKey(cty.buf[..], keys, i);
        MixFour(t, cty, sk, rk, d);
        rk, sk := rk + 4, sk + 4;
        i, sk := i - 1, sk - 8;
      }
      LastKey(cty.buf[..], keys);
      CopyFour(cty, sk, rk, d);
      FlatSchedule(buf[..], DecryptionKeys(keys));
    }

    method CopyFour(cty: Context, sk: nat, rk: nat, ghost d: seq<Word>)
      requires Fits() && cty.Fits() && cty.buf != buf && sk <= 64 && rk + 4 <= |d| <= 68 && Expanded(buf[..], d, rk)
      requires Columns(cty.buf[..], sk, d, rk)
      modifies buf
      ensures Expanded(buf[..], d, rk + 4)
    {
      hide Unpack, Expanded;
      for j := 0 to 4
        invariant Expanded(buf[..], d, rk + j)
      {
        var keyWord := cty.buf[sk + j];
        Put(keyWord, d, rk + j);
      }
    }

    method MixFour(t: Tables, cty: Context, sk: nat, rk: nat, ghost d: seq<Word>)
      requires Fits() && cty.Fits() && cty.buf != buf && sk <= 64 && rk + 4 <= |d| <= 68 && Expanded(buf[..], d, rk)
      requires t.Correct() && buf !in t.Repr && MixedColumns(cty.buf[..], sk, d, rk)
      modifies buf
      ensures Expanded(buf[..], d, rk + 4)
    {
      hide Unpack, Expanded, InvMixColumn, AesTables.Tables.Correct, SubByte, InvSubByte;
      for j := 0 to 4
        invariant Expanded(buf[..], d, rk + j)
      {
        var keyWord := MixColumnOf(t, cty.buf[sk + j]);
        Put(keyWord, d, rk + j);
      }
    }

    /** mbedtls_aes_encrypt */
    method Encrypt(t: Tables, input: seq<byte>, output: array<byte>, ghost keys: seq<State>)
      requires t.Correct() && |keys| == ROUNDS + 1 && Uses(keys) && |input| == 16
      requires output.Length >= 16 && output !in t.Repr
      modifies output
      ensures output[..16] == OutBytes(Cipher(keys, InState(input))) && output[16..] == old(output[16..])
    {
      hide Rows, Round, LastRound, AddRoundKey, Xor, Pack, SubWord, Unpack, AddWord, Byte0, Byte1, Byte2, Byte3,
           OutBytes, InState, AesTables.Tables.Correct, IsRoundKey;
      var x0 := Xor(Pack(WordAt(input, 0)), buf[0]);
      var x1 := Xor(Pack(WordAt(input, 4)), buf[1]);
      var x2 := Xor(Pack(WordAt(input, 8)), buf[2]);
      var x3 := Xor(Pack(WordAt(input, 12)), buf[3]);
      FirstRoundIs(buf[..], input, keys[0]);
      ghost var rest := output[16..];
      var rk := 4;
      var i := nr / 2 - 1;
      var y0: uint32, y1: uint32, y2: uint32, y3: uint32;
      while i > 0
        invariant 0 <= i <= 6 && rk == 52 - 8 * i
        invariant Rows(x0, x1, x2, x3) == Rounds(keys, InState(input), 12 - 2 * i)
        invariant output[16..] == rest
      {
        ghost var r := 13 - 2 * i;
        y0, y1, y2, y3 := FRound(t, buf, rk, x0, x1, x2, x3, keys[r]);
        x0, x1, x2, x3 := FRound(t, buf, rk + 4, y0, y1, y2, y3, keys[r + 1]);
        rk := rk + 8;
        i := i - 1;
      }
      y0, y1, y2, y3 := FRound(t, buf, rk, x0, x1, x2, x3, keys[13]);
      LastF(t, y0, y1, y2, y3, output, keys[14]);
    }

    /** The last round of mbedtls_aes_encrypt and its output. */
    method LastF(t: Tables, y0: uint32, y1: uint32, y2: uint32, y3: uint32, output: array<byte>, ghost k: State)
      requires t.Correct() && Fits() && IsRoundKey(buf[..], 56, k) && output.Length >= 16 && output !in t.Repr
      modifies output
      ensures output[..16] == OutBytes(LastRound(Rows(y0, y1, y2, y3), k)) && output[16..] == old(output[16..])
    {
      LastFRoundIs(y0, y1, y2, y3, k);
      hide LastRound, SubWord, Unpack, AddWord, Byte0, Byte1, Byte2, Byte3, OutBytes, AesTables.Tables.Correct;
      var x0 := SColumn(t, buf[56], y0, y1, y2, y3);
      var x1 := SColumn(t, buf[57], y1, y2, y3, y0);
      var x2 := SColumn(t, buf[58], y2, y3, y0, y1);
      var x3 := SColumn(t, buf[59], y3, y0, y1, y2);
      PutWords(output, x0, x1, x2, x3);
    }

    /** mbedtls_aes_decrypt */
    method Decrypt(t: Tables, input: seq<byte>, output: array<byte>, ghost keys: seq<State>)
      requires t.Correct() && |keys| == ROUNDS + 1 && Uses(keys) && |input| == 16
      requires output.Length >= 16 && output !in t.Repr
      modifies output
      ensures output[..16] == OutBytes(EqInvCipher(keys, InState(input))) && output[16..] == old(output[16..])
    {
      hide Rows, InvRound, AddRoundKey, Xor, Pack, InvSubWord, Unpack, AddWord, Byte0, Byte1, Byte2, Byte3,
           OutBytes, InState, AesTables.Tables.Correct, IsRoundKey, InvSubBytes, InvShiftRows;
      var x0 := Xor(Pack(WordAt(input, 0)), buf[0]);
      var x1 := Xor(Pack(WordAt(input, 4)), buf[1]);
      var x2 := Xor(Pack(WordAt(input, 8)), buf[2]);
      var x3 := Xor(Pack(WordAt(input, 12)), buf[3]);
      FirstRoundIs(buf[..], input, keys[0]);
      ghost var rest := output[16..];
      var rk := 4;
      var i := nr / 2 - 1;
      var y0: uint32, y1: uint32, y2: uint32, y3: uint32;
      while i > 0
        invariant 0 <= i <= 6 && rk == 52 - 8 * i
        invariant Rows(x0, x1, x2, x3) == InvRounds(keys, InState(input), 12 - 2 * i)
        invariant output[16..] == rest
      {
        ghost var r := 13 - 2 * i;
        y0, y1, y2, y3 := RRound(t, buf, rk, x0, x1, x2, x3, keys[r]);
        x0, x1, x2, x3 := RRound(t, buf, rk + 4, y0, y1, y2, y3, keys[r + 1]);
        rk := rk + 8;
        i := i - 1;
      }
      y0, y1, y2, y3 := RRound(t, buf, rk, x0, x1, x2, x3, keys[13]);
      LastR(t, y0, y1, y2, y3, output, keys[14]);
    }

    /** The last round of mbedtls_aes_decrypt and its output. */
    method LastR(t: Tables, y0: uint32, y1: uint32, y2: uint32, y3: uint32, output: array<byte>, ghost k: State)
      requires t.Correct() && Fits() && IsRoundKey(buf[..], 56, k) && output.Length >= 16 && output !in t.Repr
      modifies output
      ensures output[..16] == OutBytes(AddRoundKey(InvShiftRows(InvSubBytes(Rows(y0, y1, y2, y3))), k))
      ensures output[16..] == old(output[16..])
    {
      LastRRoundIs(y0, y1, y2, y3, k);
      hide AddRoundKey, InvShiftRows, InvSubBytes, InvSubWord, Unpack, AddWord, Byte0, Byte1, Byte2, Byte3, OutBytes,
           AesTables.Tables.Correct;
      var x0 := InvSColumn(t, buf[56], y0, y3, y2, y1);
      var x1 := InvSColumn(t, buf[57], y1, y0, y3, y2);
      var x2 := InvSColumn(t, buf[58], y2, y1, y0, y3);
      var x3 := InvSColumn(t, buf[59], y3, y2, y1, y0);
      PutWords(output, x0, x1, x2, x3);
    }
  }

  // ---------------------------------------------------------------- decryption keys

  function Col(s: State, j: nat): Word {
    if j == 0 then s.w0 else if j == 1 then s.w1 else if j == 2 then s.w2 else s.w3
  }

  function FlatKeys(ks: seq<State>): (w: seq<Word>)
    requires |ks| == ROUNDS + 1
    ensures |w| == 60
  {
    seq(60, k requires 0 <= k < 60 => Col(ks[k / 4], k % 4))
  }

  /** Four words of the schedule rk are the four columns of d from n. */
  ghost predicate Columns(rk: seq<uint32>, i: nat, d: seq<Word>, n: nat) {
    && i + 4 <= |rk| && n + 4 <= |d|
    && Unpack(rk[i]) == d[n] && Unpack(rk[i + 1]) == d[n + 1]
    && Unpack(rk[i + 2]) == d[n + 2] && Unpack(rk[i + 3]) == d[n + 3]
  }

  ghost predicate MixedColumns(rk: seq<uint32>, i: nat, d: seq<Word>, n: nat) {
    && i + 4 <= |rk| && n + 4 <= |d|
    && InvMixColumn(Unpack(rk[i])) == d[n] && InvMixColumn(Unpack(rk[i + 1])) == d[n + 1]
    && InvMixColumn(Unpack(rk[i + 2])) == d[n + 2] && InvMixColumn(Unpack(rk[i + 3])) == d[n + 3]
  }

  lemma FlatColumns(ks: seq<State>, r: nat)
    requires |ks| == ROUNDS + 1 && r <= ROUNDS
    ensures var d := FlatKeys(ks);
      d[4 * r] == ks[r].w0 && d[4 * r + 1] == ks[r].w1 && d[4 * r + 2] == ks[r].w2 && d[4 * r + 3] == ks[r].w3
  {
  }

  lemma FirstKey(rk: seq<uint32>, keys: seq<State>)
    requires Schedule(rk, keys)
    ensures Columns(rk, 56, FlatKeys(DecryptionKeys(keys)), 0)
  {
    assert IsRoundKey(rk, 4 * ROUNDS, keys[ROUNDS]);
    FlatColumns(DecryptionKeys(keys), 0);
    hide Unpack, FlatKeys, Schedule;
  }

  lemma LastKey(rk: seq<uint32>, keys: seq<State>)
    requires Schedule(rk, keys)
    ensures Columns(rk, 0, FlatKeys(DecryptionKeys(keys)), 56)
  {
    assert IsRoundKey(rk, 4 * 0, keys[0]);
    FlatColumns(DecryptionKeys(keys), ROUNDS);
    hide Unpack, FlatKeys, Schedule;
  }

  lemma MiddleKey(rk: seq<uint32>, keys: seq<State>, i: nat)
    requires Schedule(rk, keys) && 0 < i < ROUNDS
    ensures MixedColumns(rk, 4 * i, FlatKeys(DecryptionKeys(keys)), 4 * (14 - i))
  {
    hide Unpack, FlatKeys, InvMixColumn, DecryptionKeys;
    assert IsRoundKey(rk, 4 * i, keys[i]);
    MiddleIs(keys, i);
    FlatColumns(DecryptionKeys(keys), ROUNDS - i);
  }

  lemma MiddleIs(keys: seq<State>, i: nat)
    requires |keys| == ROUNDS + 1 && 0 < i < ROUNDS
    ensures DecryptionKeys(keys)[ROUNDS - i] == InvMixAll(keys[i])
  {
    hide InvMixAll;
  }

  lemma FlatSchedule(rk: seq<uint32>, ks: seq<State>)
    requires |ks| == ROUNDS + 1 && Expanded(rk, FlatKeys(ks), 60)
    ensures Schedule(rk, ks)
  {
    hide Unpack, FlatKeys;
    forall r | 0 <= r <= ROUNDS ensures IsRoundKey(rk, 4 * r, ks[r]) {
      FlatColumns(ks, r);
    }
  }

  /** One word of a decryption key. */
  method MixColumnOf(t: Tables, sk: uint32) returns (x: uint32)
    requires t.Correct()
    ensures Unpack(x) == InvMixColumn(Unpack(sk))
  {
    hide SubByte, InvSubByte, Xor, Pack, Byte0, Byte1, Byte2, Byte3, Mult, AesTables.Forward, AesTables.Backward,
         AesTables.Turned, InvMixColumn, AddWord, Ix, Byte;
    var s0, s1 := t.FSb[Ix(Byte0(sk))], t.FSb[Ix(Byte1(sk))];
    var s2, s3 := t.FSb[Ix(Byte2(sk))], t.FSb[Ix(Byte3(sk))];
    ThereAndBack(Byte0(sk), s0);
    ThereAndBack(Byte1(sk), s1);
    ThereAndBack(Byte2(sk), s2);
    ThereAndBack(Byte3(sk), s3);
    var b0 := t.RT0[Ix(s0)];
    var b1 := t.RT1[Ix(s1)];
    var b2 := t.RT2[Ix(s2)];
    var b3 := t.RT3[Ix(s3)];
    x := Xor(Xor(Xor(b0, b1), b2), b3);
    ghost var s := Unpack(sk);
    FourIs(AesTables.Backward(s.b0), AesTables.Turned(AesTables.Backward(s.b1), 1),
           AesTables.Turned(AesTables.Backward(s.b2), 2), AesTables.Turned(AesTables.Backward(s.b3), 3));
    BackwardSum(s);
  }

  lemma ThereAndBack(b: byte, s: byte)
    ensures Byte(Ix(b)) == b && Byte(Ix(s)) == s
    ensures s == SubByte(Byte(Ix(b))) ==> InvSubByte(Byte(Ix(s))) == b
  {
    ByteIx(b);
    ByteIx(s);
    SubByteTwoWays(b);
    hide SubByte, InvSubByte, Ix, Byte;
  }

  lemma FourIs(c0: Word, c1: Word, c2: Word, c3: Word)
    ensures Unpack(Xor(Xor(Xor(Pack(c0), Pack(c1)), Pack(c2)), Pack(c3))) == AddWord(AddWord(c0, c1), AddWord(c2, c3))
  {
    hide Xor, Unpack, Pack, Add;
    UnpackPack(c0);
    UnpackPack(c1);
    UnpackPack(c2);
    UnpackPack(c3);
    XorBytes(Pack(c0), Pack(c1));
    XorBytes(Xor(Pack(c0), Pack(c1)), Pack(c2));
    XorBytes(Xor(Xor(Pack(c0), Pack(c1)), Pack(c2)), Pack(c3));
    AddAssoc(Add(c0.b0, c1.b0), c2.b0, c3.b0);
    AddAssoc(Add(c0.b1, c1.b1), c2.b1, c3.b1);
    AddAssoc(Add(c0.b2, c1.b2), c2.b2, c3.b2);
    AddAssoc(Add(c0.b3, c1.b3), c2.b3, c3.b3);
  }

  // ---------------------------------------------------------------- a block in and out

  /** Reading the input and adding the first round key. */
  lemma FirstRoundIs(rk: seq<uint32>, input: seq<byte>, k: State)
    requires |input| == 16 && IsRoundKey(rk, 0, k)
    ensures Rows(Xor(Pack(WordAt(input, 0)), rk[0]), Xor(Pack(WordAt(input, 4)), rk[1]),
                 Xor(Pack(WordAt(input, 8)), rk[2]), Xor(Pack(WordAt(input, 12)), rk[3]))
         == AddRoundKey(InState(input), k)
  {
    hide Xor, Unpack, Pack, AddWord;
    XorBytes(Pack(WordAt(input, 0)), rk[0]);
    XorBytes(Pack(WordAt(input, 4)), rk[1]);
    XorBytes(Pack(WordAt(input, 8)), rk[2]);
    XorBytes(Pack(WordAt(input, 12)), rk[3]);
    UnpackPack(WordAt(input, 0));
    UnpackPack(WordAt(input, 4));
    UnpackPack(WordAt(input, 8));
    UnpackPack(WordAt(input, 12));
    assert Transpose(InState(input)) == State(WordAt(input, 0), WordAt(input, 4), WordAt(input, 8), WordAt(input, 12));
  }

  function WordBytes(x: uint32): (b: seq<byte>)
    ensures |b| == 4
  {
    [Byte0(x), Byte1(x), Byte2(x), Byte3(x)]
  }

  lemma OutWords(x0: uint32, x1: uint32, x2: uint32, x3: uint32)
    ensures OutBytes(Rows(x0, x1, x2, x3)) == WordBytes(x0) + WordBytes(x1) + WordBytes(x2) + WordBytes(x3)
  {
    hide Byte0, Byte1, Byte2, Byte3;
    FourWords(Unpack(x0), Unpack(x1), Unpack(x2), Unpack(x3));
  }

  lemma FourWords(w0: Word, w1: Word, w2: Word, w3: Word)
    ensures OutBytes(Transpose(State(w0, w1, w2, w3))) == Listed(w0) + Listed(w1) + Listed(w2) + Listed(w3)
  {
  }

  function Listed(w: Word): seq<byte> {
    [w.b0, w.b1, w.b2, w.b3]
  }

  /** PUT_UINT32_LE, four times. */
  method PutWords(output: array<byte>, x0: uint32, x1: uint32, x2: uint32, x3: uint32)
    requires output.Length >= 16
    modifies output
    ensures output[..16] == OutBytes(Rows(x0, x1, x2, x3)) && output[16..] == old(output[16..])
  {
    OutWords(x0, x1, x2, x3);
    hide Rows, OutBytes, WordBytes;
    ghost var was := output[..];
    PutWord(output, 0, x0);
    assert output[..] == WordBytes(x0) + was[4..];
    PutWord(output, 4, x1);
    assert output[..] == WordBytes(x0) + WordBytes(x1) + was[8..];
    PutWord(output, 8, x2);
    assert output[..] == WordBytes(x0) + WordBytes(x1) + WordBytes(x2) + was[12..];
    PutWord(output, 12, x3);
    assert output[..] == WordBytes(x0) + WordBytes(x1) + WordBytes(x2) + WordBytes(x3) + was[16..];
  }

  method PutWord(output: array<byte>, i: nat, x: uint32)
    requires i + 4 <= output.Length
    modifies output
    ensures output[..] == old(output[..i]) + WordBytes(x) + old(output[i + 4..])
  {
    hide Byte0, Byte1, Byte2, Byte3;
    output[i] := Byte0(x);
    output[i + 1] := Byte1(x);
    output[i + 2] := Byte2(x);
    output[i + 3] := Byte3(x);
  }

  lemma RoundConstant(t: Tables, i: nat)
    requires t.Correct() && i < 10
    ensures t.RCON.Length == 10 && Unpack(t.RCON[i]) == Rcon(i + 1)
  {
    hide AesTables.Tables.Boxes, AesTables.Tables.Mixers, Unpack, Pack, Rcon;
    UnpackPack(Rcon(i + 1));
  }

  /** A word that starts a turn of the loop. */
  method RotColumn(t: Tables, rk0: uint32, rcon: uint32, rk7: uint32) returns (x: uint32)
    requires t.Correct()
    ensures Unpack(x) == AddWord(SubWord(RotWord(Unpack(rk7))), AddWord(Unpack(rk0), Unpack(rcon)))
  {
    hide Unpack, Pack, AddWord, Xor, WithBytes, AesTables.Column, SubByte, InvSubByte, Byte0, Byte1, Byte2, Byte3, Ix,
      Byte;
    ByteIx(Byte0(rk7));
    ByteIx(Byte1(rk7));
    ByteIx(Byte2(rk7));
    ByteIx(Byte3(rk7));
    var b0 := t.FSb[Ix(Byte1(rk7))];
    var b1 := t.FSb[Ix(Byte2(rk7))];
    var b2 := t.FSb[Ix(Byte3(rk7))];
    var b3 := t.FSb[Ix(Byte0(rk7))];
    x := WithBytes(Xor(rk0, rcon), b0, b1, b2, b3);
    SubRot(rk7);
    WithBytesIs(Xor(rk0, rcon), b0, b1, b2, b3);
    XorBytes(rk0, rcon);
  }

  lemma ExpandedAt(rk: seq<uint32>, w: seq<Word>, n: nat, k: nat)
    requires Expanded(rk, w, n) && k < n
    ensures n <= |rk| && n <= |w| && Unpack(rk[k]) == w[k]
  {
  }

  lemma StartExpansion(rk: seq<uint32>, w: seq<Word>)
    ensures Expanded(rk, w, 0)
  {
  }

  lemma ScheduleIs(rk: seq<uint32>, key: seq<Word>)
    requires |key| == 8 && Expanded(rk, KeyWords(key, 64), 64)
    ensures Schedule(rk, KeyExpansion(key))
  {
    hide Unpack, KeyWords, KeyExpansion;
    forall r | 0 <= r <= ROUNDS ensures IsRoundKey(rk, 4 * r, KeyExpansion(key)[r]) {
      RoundKeyIs(key, r);
    }
  }

  // ---------------------------------------------------------------- the pair of directions

  /** Decryption of an encrypted block, with the two schedules of one key, gives the block back. */
  lemma DecryptUndoesEncrypt(key: seq<byte>, block: seq<byte>)
    requires |key| == 32 && |block| == 16
    ensures var keys := KeyExpansion(KeyOf(key));
      var c := OutBytes(Cipher(keys, InState(block)));
      OutBytes(EqInvCipher(DecryptionKeys(keys), InState(c))) == block
  {
    hide Cipher, EqInvCipher, DecryptionKeys, KeyExpansion, InState, OutBytes;
    var keys := KeyExpansion(KeyOf(key));
    DecryptEncrypt(keys, InState(block));
    InOut(Cipher(keys, InState(block)));
    OutIn(block);
  }

  /** The same for the code: two contexts set up with one key. */
  method RoundTrip(t: Tables, key: seq<byte>, block: array<byte>)
    requires t.Fits() && (t.done ==> t.Correct()) && |key| == 32 && block.Length == 16 && block !in t.Repr
    modifies block, t.Repr
    ensures block[..] == old(block[..])
  {
    hide AesTables.Tables.Correct, Cipher, EqInvCipher, DecryptionKeys, KeyExpansion, InState, OutBytes, Schedule;
    ghost var keys := KeyExpansion(KeyOf(key));
    ghost var text := block[..];
    var enc := new Context();
    var dec := new Context();
    var ret := enc.SetKeyEnc(t, key);
    ret := dec.SetKeyDec(t, key);
    enc.Encrypt(t, block[..], block, keys);
    assert block[..] == block[..16];
    dec.Decrypt(t, block[..], block, DecryptionKeys(keys));
    assert block[..] == block[..16];
    DecryptUndoesEncrypt(key, text);
  }
}
