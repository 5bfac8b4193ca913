/** The modes of aes.c over any block cipher, in the loops of the C code; input and output may be one buffer. */
module AesModes {
  import opened ByteIndex
  import opened ByteXor
  import opened Buffers
  import opened Streams
  import opened Sp800_38A

  const INVALID_INPUT_LENGTH: int := -0x0022

  /** mbedtls_aes_crypt_ecb, to the bytes of output from at on. */
  method Ecb(c: BlockCipher, encrypt: bool, input: seq<byte>, output: array<byte>, at: nat)
    requires Proper(c) && IsBlock(input) && at + 16 <= output.Length
    modifies output
    ensures output[..] == old(output[..at]) + (if encrypt then c.E(input) else c.D(input)) + old(output[at + 16..])
  {
    assert IsBlock(c.E(input)) && IsBlock(c.D(input));
    Copy(output, at, if encrypt then c.E(input) else c.D(input));
  }

  // ---------------------------------------------------------------- CBC

  /** The bytes of output from pos on are set to the exclusive or of two blocks, one of which may be there already. */
  method XorInto(output: array<byte>, pos: nat, input: array<byte>, iv: array<byte>)
    requires pos + 16 <= output.Length && pos + 16 <= input.Length && iv.Length == 16 && iv != output
    modifies output
    ensures output[..] == old(output[..pos]) + XorBlock(old(input[pos..pos + 16]), iv[..]) + old(output[pos + 16..])
  {
    hide Xor;
    ghost var x := XorBlock(input[pos..pos + 16], iv[..]);
    for i := 0 to 16
      invariant forall k :: 0 <= k < i ==> output[pos + k] == x[k]
      invariant forall k :: pos + i <= k < pos + 16 ==> input[k] == old(input[k])
      invariant output[..pos] == old(output[..pos]) && output[pos + 16..] == old(output[pos + 16..])
    {
      output[pos + i] := Xor(input[pos + i], iv[i]);
    }
  }

  /** The body of the encryption loop. */
  method CbcEncBlock(c: BlockCipher, iv: array<byte>, input: array<byte>, output: array<byte>, pos: nat)
    requires Proper(c) && iv.Length == 16 && iv != input && iv != output
    requires pos + 16 <= input.Length && pos + 16 <= output.Length
    modifies iv, output
    ensures var (iv', y) := CbcEnc(c)(old(iv[..]), old(input[pos..pos + 16]));
      IsBlock(y) && iv[..] == iv' && output[..] == old(output[..pos]) + y + old(output[pos + 16..])
  {
    hide XorBlock;
    XorInto(output, pos, input, iv);
    ghost var x := output[pos..pos + 16];
    assert IsBlock(x) && x == XorBlock(old(input[pos..pos + 16]), iv[..]);
    Ecb(c, true, output[pos..pos + 16], output, pos);
    assert IsBlock(c.E(x));
    assert output[pos..pos + 16] == c.E(x);
    Copy(iv, 0, output[pos..pos + 16]);
  }

  /** The body of the decryption loop. */
  method CbcDecBlock(c: BlockCipher, iv: array<byte>, input: array<byte>, output: array<byte>, pos: nat)
    requires Proper(c) && iv.Length == 16 && iv != input && iv != output
    requires pos + 16 <= input.Length && pos + 16 <= output.Length
    modifies iv, output
    ensures var (iv', y) := CbcDec(c)(old(iv[..]), old(input[pos..pos + 16]));
      IsBlock(y) && iv[..] == iv' && output[..] == old(output[..pos]) + y + old(output[pos + 16..])
  {
    hide XorBlock;
    var temp := input[pos..pos + 16];
    assert IsBlock(temp) && IsBlock(c.D(temp));
    Ecb(c, false, temp, output, pos);
    hide Proper;
    ghost var front, x, back := old(output[..pos]), c.D(temp), old(output[pos + 16..]);
    Middle(output[..], front, x, back);
    XorInto(output, pos, output, iv);
    Copy(iv, 0, temp);
  }

  lemma Middle(s: seq<byte>, front: seq<byte>, x: seq<byte>, back: seq<byte>)
    requires s == front + x + back
    ensures s[..|front|] == front && s[|front|..|front| + |x|] == x && s[|front| + |x|..] == back
  {
  }

  /** mbedtls_aes_crypt_cbc */
  method CryptCbc(c: BlockCipher, encrypt: bool, length: nat, iv: array<byte>, input: array<byte>, output: array<byte>)
      returns (ret: int)
    requires Proper(c) && iv.Length == 16 && iv != input && iv != output
    requires length <= input.Length && length <= output.Length
    modifies iv, output
    ensures ret == if length % 16 == 0 then 0 else -0x0022
    ensures length % 16 != 0 ==> iv[..] == old(iv[..]) && output[..] == old(output[..])
    ensures length % 16 == 0 ==>
      (iv[..], output[..length])
      == Cbc(if encrypt then CbcEnc(c) else CbcDec(c), old(iv[..]), old(input[..length]))
    ensures output[length..] == old(output[length..])
  {
    hide XorBlock, Cbc, Proper;
    if length % 16 != 0 {
      return INVALID_INPUT_LENGTH;
    }
    ghost var f := if encrypt then CbcEnc(c) else CbcDec(c);
    ghost var iv0, in0, tail := iv[..], input[..length], output[length..];
    CbcStart(f, iv0);
    var pos := 0;
    while pos < length
      invariant 0 <= pos <= length && pos % 16 == 0 && iv.Length == 16
      invariant (iv[..], output[..pos]) == Cbc(f, iv0, in0[..pos])
      invariant forall k :: pos <= k < length ==> input[k] == in0[k]
      invariant output[length..] == tail
    {
      ghost var p, done := input[pos..pos + 16], output[..pos];
      assert p == in0[pos..pos + 16];
      if encrypt {
        CbcEncBlock(c, iv, input, output, pos);
      } else {
        CbcDecBlock(c, iv, input, output, pos);
      }
      CbcNext(f, iv0, in0, pos);
      assert output[..pos + 16] == done + f(Cbc(f, iv0, in0[..pos]).0, p).1;
      pos := pos + 16;
    }
    assert in0[..length] == in0;
    ret := 0;
  }

  lemma CbcStart(f: (seq<byte>, seq<byte>) -> (seq<byte>, seq<byte>), iv: seq<byte>)
    ensures Cbc(f, iv, []) == (iv, [])
  {
  }

  lemma CbcNext(f: (seq<byte>, seq<byte>) -> (seq<byte>, seq<byte>), iv: seq<byte>, m: seq<byte>, pos: nat)
    requires pos % 16 == 0 && pos + 16 <= |m|
    ensures var (iv1, y) := Cbc(f, iv, m[..pos]);
      var (iv2, z) := f(iv1, m[pos..pos + 16]);
      Cbc(f, iv, m[..pos + 16]) == (iv2, y + z)
  {
    var a, p := m[..pos], m[pos..pos + 16];
    assert m[..pos + 16] == a + p;
    BlocksNext(a, p);
    RunNext(f, iv, Blocks(a), p);
    var ys := Run(f, iv, Blocks(a)).1;
    var z := f(Run(f, iv, Blocks(a)).0, p).1;
    assert (ys + [z])[..|ys|] == ys;
  }

  // ---------------------------------------------------------------- CFB

  lemma RunPrefix<S>(f: (S, byte) -> (S, byte), s: S, m: seq<byte>, pos: nat)
    requires pos < |m|
    ensures var (s1, ys) := Run(f, s, m[..pos]);
      Run(f, s, m[..pos + 1]) == (f(s1, m[pos]).0, ys + [f(s1, m[pos]).1])
  {
    assert m[..pos + 1] == m[..pos] + [m[pos]];
    RunNext(f, s, m[..pos], m[pos]);
  }

  /** mbedtls_aes_crypt_cfb128; the offset into the register is passed in and back. */
  method CryptCfb128(c: BlockCipher, encrypt: bool, length: nat, ivOff: nat, iv: array<byte>, input: array<byte>,
                     output: array<byte>) returns (n: nat)
    requires Proper(c) && iv.Length == 16 && iv != input && iv != output && ivOff < 16
    requires length <= input.Length && length <= output.Length
    modifies iv, output
    ensures (Register(iv[..], n), output[..length])
         == Run(Cfb128(c, encrypt), Register(old(iv[..]), ivOff), old(input[..length]))
    ensures n < 16 && output[length..] == old(output[length..])
  {
    hide Xor, Run, Proper;
    ghost var s0, in0, tail := Register(iv[..], ivOff), input[..length], output[length..];
    n := ivOff;
    RunStart(Cfb128(c, encrypt), s0);
    for pos := 0 to length
      invariant n < 16 && (Register(iv[..], n), output[..pos]) == Run(Cfb128(c, encrypt), s0, in0[..pos])
      invariant forall k :: pos <= k < length ==> input[k] == in0[k]
      invariant output[length..] == tail
    {
      RunPrefix(Cfb128(c, encrypt), s0, in0, pos);
      ghost var done := output[..pos];
      n := Cfb128Byte(c, encrypt, n, iv, input, output, pos);
      assert output[..pos + 1] == done + [output[pos]];
    }
    assert in0[..length] == in0;
  }

  /** The bodies of the two loops of mbedtls_aes_crypt_cfb128. */
  method Cfb128Byte(c: BlockCipher, encrypt: bool, off: nat, iv: array<byte>, input: array<byte>, output: array<byte>,
                    pos: nat)
      returns (n: nat)
    requires Proper(c) && iv.Length == 16 && iv != input && iv != output && off < 16
    requires pos < input.Length && pos < output.Length
    modifies iv, output
    ensures n < 16
    ensures (Register(iv[..], n), output[pos]) == Cfb128(c, encrypt)(Register(old(iv[..]), off), old(input[pos]))
    ensures forall k :: 0 <= k < output.Length && k != pos ==> output[k] == old(output[k])
  {
    hide Xor, Proper;
    n := off;
    ghost var iv0, x := iv[..], input[pos];
    if n == 0 {
      EcbInPlace(c, iv);
    }
    ghost var iv1 := iv[..];
    assert iv1 == Refresh(c, Register(iv0, off));
    if encrypt {
      XorComm(iv[n], input[pos]);
      output[pos] := Xor(iv[n], input[pos]);
      iv[n] := output[pos];
    } else {
      var b := input[pos];
      output[pos] := Xor(b, iv[n]);
      iv[n] := b;
    }
    assert iv[..] == iv1[n := if encrypt then output[pos] else x];
    n := (n + 1) % 16;
  }

  method EcbInPlace(c: BlockCipher, iv: array<byte>)
    requires Proper(c) && iv.Length == 16
    modifies iv
    ensures iv[..] == c.E(old(iv[..]))
  {
    assert IsBlock(iv[..]);
    Ecb(c, true, iv[..], iv, 0);
  }

  lemma RunStart<S>(f: (S, byte) -> (S, byte), s: S)
    ensures Run(f, s, []) == (s, [])
  {
  }

  /** mbedtls_aes_crypt_cfb8 */
  method CryptCfb8(c: BlockCipher, encrypt: bool, length: nat, iv: array<byte>, input: array<byte>, output: array<byte>)
    requires Proper(c) && iv.Length == 16 && iv != input && iv != output
    requires length <= input.Length && length <= output.Length
    modifies iv, output
    ensures (iv[..], output[..length]) == Run(Cfb8(c, encrypt), old(iv[..]), old(input[..length]))
    ensures output[length..] == old(output[length..])
  {
    hide Xor, Run, Proper;
    ghost var iv0, in0, tail := iv[..], input[..length], output[length..];
    RunStart(Cfb8(c, encrypt), iv0);
    for pos := 0 to length
      invariant (iv[..], output[..pos]) == Run(Cfb8(c, encrypt), iv0, in0[..pos])
      invariant forall k :: pos <= k < length ==> input[k] == in0[k]
      invariant output[length..] == tail
    {
      RunPrefix(Cfb8(c, encrypt), iv0, in0, pos);
      ghost var done := output[..pos];
      Cfb8Byte(c, encrypt, iv, input, output, pos);
      assert output[..pos + 1] == done + [output[pos]];
    }
    assert in0[..length] == in0;
  }

  /** The loop body of mbedtls_aes_crypt_cfb8. */
  method Cfb8Byte(c: BlockCipher, encrypt: bool, iv: array<byte>, input: array<byte>, output: array<byte>, pos: nat)
    requires Proper(c) && iv.Length == 16 && iv != input && iv != output
    requires pos < input.Length && pos < output.Length
    modifies iv, output
    ensures (iv[..], output[pos]) == Cfb8(c, encrypt)(old(iv[..]), old(input[pos]))
    ensures forall k :: 0 <= k < output.Length && k != pos ==> output[k] == old(output[k])
  {
    hide Xor;
    ghost var iv0, x := iv[..], input[pos];
    var ov := new byte[17];
    Copy(ov, 0, iv[..]);
    assert IsBlock(iv0) && IsBlock(c.E(iv0));
    hide Proper;
    EcbInPlace(c, iv);
    if !encrypt {
      ov[16] := input[pos];
    }
    XorComm(iv[0], input[pos]);
    var b := Xor(iv[0], input[pos]);
    output[pos] := b;
    if encrypt {
      ov[16] := b;
    }
    assert ov[..16] == iv0;
    assert ov[1..17] == ov[..16][1..] + [ov[16]];
    Copy(iv, 0, ov[1..17]);
    assert iv[..] == iv0[1..] + [if encrypt then b else x];
    assert output[pos] == b == Xor(x, c.E(iv0)[0]);
  }

  // ---------------------------------------------------------------- CTR

  /** mbedtls_aes_crypt_ctr; the offset into the stream block is passed in and back. */
  method CryptCtr(c: BlockCipher, length: nat, ncOff: nat, nonceCounter: array<byte>, streamBlock: array<byte>,
                  input: array<byte>, output: array<byte>) returns (n: nat)
    requires Proper(c) && nonceCounter.Length == 16 && streamBlock.Length == 16 && nonceCounter != streamBlock &&
      ncOff < 16
    requires nonceCounter != input && nonceCounter != output && streamBlock != input && streamBlock != output
    requires length <= input.Length && length <= output.Length
    modifies nonceCounter, streamBlock, output
    ensures (Stream(nonceCounter[..], streamBlock[..], n), output[..length])
         == Run(Ctr(c), Stream(old(nonceCounter[..]), old(streamBlock[..]), ncOff), old(input[..length]))
    ensures n < 16 && output[length..] == old(output[length..])
  {
    hide Xor, Run, Proper;
    ghost var s0 := Stream(nonceCounter[..], streamBlock[..], ncOff);
    ghost var in0, tail := input[..length], output[length..];
    n := ncOff;
    RunStart(Ctr(c), s0);
    for pos := 0 to length
      invariant n < 16 && (Stream(nonceCounter[..], streamBlock[..], n), output[..pos]) == Run(Ctr(c), s0, in0[..pos])
      invariant forall k :: pos <= k < length ==> input[k] == in0[k]
      invariant output[length..] == tail
    {
      RunPrefix(Ctr(c), s0, in0, pos);
      ghost var done := output[..pos];
      n := CtrByte(c, n, nonceCounter, streamBlock, input, output, pos);
      assert output[..pos + 1] == done + [output[pos]];
    }
    assert in0[..length] == in0;
  }

  /** The loop body of mbedtls_aes_crypt_ctr. */
  method CtrByte(c: BlockCipher, off: nat, nonceCounter: array<byte>, streamBlock: array<byte>,
                 input: array<byte>, output: array<byte>, pos: nat) returns (n: nat)
    requires Proper(c) && nonceCounter.Length == 16 && streamBlock.Length == 16 && nonceCounter != streamBlock &&
      off < 16
    requires nonceCounter != input && nonceCounter != output && streamBlock != input && streamBlock != output
    requires pos < input.Length && pos < output.Length
    modifies nonceCounter, streamBlock, output
    ensures n < 16
    ensures (Stream(nonceCounter[..], streamBlock[..], n), output[pos])
         == Ctr(c)(Stream(old(nonceCounter[..]), old(streamBlock[..]), off), old(input[pos]))
    ensures forall k :: 0 <= k < output.Length && k != pos ==> output[k] == old(output[k])
  {
    hide Xor, Increment;
    n := off;
    if n == 0 {
      ghost var ctr := nonceCounter[..];
      assert IsBlock(ctr) && IsBlock(c.E(ctr));
      Ecb(c, true, nonceCounter[..], streamBlock, 0);
      assert streamBlock[..] == c.E(ctr);
      StepCounter(nonceCounter);
    }
    hide Proper;
    ghost var t := Stream(nonceCounter[..], streamBlock[..], n);
    assert t == Refill(c, Stream(old(nonceCounter[..]), old(streamBlock[..]), off));
    var b := input[pos];
    output[pos] := Xor(b, streamBlock[n]);
    n := (n + 1) % 16;
  }

  /** The loop that adds one to the counter. */
  method StepCounter(a: array<byte>)
    modifies a
    ensures a[..] == Increment(old(a[..]))
  {
    ghost var a0 := a[..];
    NothingCarried(a0);
    hide Carrying, Increment;
    var i := a.Length;
    while i > 0
      invariant 0 <= i <= a.Length && Carrying(a0, a[..], i)
    {
      ghost var now := a[..];
      CarryAt(a0, now, i);
      a[i - 1] := a[i - 1] + 1;
      assert a[..] == now[i - 1 := now[i - 1] + 1];
      if a[i - 1] != 0 {
        return;
      }
      i := i - 1;
    }
    AllCarried(a0, a[..]);
  }

  /** One is still to be added to the first i bytes; the rest is as it will be. */
  ghost predicate Carrying(a: seq<byte>, now: seq<byte>, i: nat) {
    i <= |a| == |now| && now[..i] == a[..i] && Increment(a) == Increment(a[..i]) + now[i..]
  }

  lemma NothingCarried(a: seq<byte>)
    ensures Carrying(a, a, |a|)
  {
    assert a[..|a|] == a && Increment(a) == Increment(a) + [];
  }

  lemma AllCarried(a: seq<byte>, now: seq<byte>)
    requires Carrying(a, now, 0)
    ensures now == Increment(a)
  {
    assert now[0..] == now;
  }

  lemma CarryAt(a: seq<byte>, now: seq<byte>, i: nat)
    requires 0 < i && Carrying(a, now, i)
    ensures |now| == |a| && var next := now[i - 1 := now[i - 1] + 1];
      if next[i - 1] == 0 then Carrying(a, next, i - 1) else next == Increment(a)
  {
    assert now[..i][i - 1] == a[i - 1];
    IncrementAt(a, i, a[i - 1] + 1);
    CarryWith(a, now, i, a[i - 1] + 1);
    hide Increment, Carrying;
  }

  lemma IncrementAt(a: seq<byte>, i: nat, x: byte)
    requires 0 < i <= |a| && x == a[i - 1] + 1
    ensures Increment(a[..i]) == if x == 0 then Increment(a[..i - 1]) + [x] else a[..i - 1] + [x]
  {
    assert a[..i][..i - 1] == a[..i - 1];
  }

  lemma CarryWith(a: seq<byte>, now: seq<byte>, i: nat, x: byte)
    requires 0 < i && Carrying(a, now, i)
    requires Increment(a[..i]) == if x == 0 then Increment(a[..i - 1]) + [x] else a[..i - 1] + [x]
    ensures |now| == |a| && var next := now[i - 1 := x];
      if x == 0 then Carrying(a, next, i - 1) else next == Increment(a)
  {
    hide Increment;
    var next := now[i - 1 := x];
    assert now[..i - 1] == now[..i][..i - 1] == a[..i - 1];
    assert next[i - 1..] == [x] + now[i..] && next[..i - 1] == a[..i - 1];
    assert next == a[..i - 1] + next[i - 1..];
  }
}
