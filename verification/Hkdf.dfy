/** HKDF over HMAC-SHA-256: sha/hkdf.c, and RFC 5869 which it follows. */
module Hkdf {
  import opened Wrappers
  import opened Fips180
  import opened Buffers
  import opened HmacSha256
  import opened Sha256
  import Limbs

  /** T(n) of RFC 5869 section 2.3; the counter is one byte. */
  function T(prk: seq<byte>, info: seq<byte>, n: nat): (t: seq<byte>)
    ensures |t| == if n == 0 then 0 else DIGEST
  {
    if n == 0 then [] else Mac(prk, T(prk, info, n - 1) + info + [Counter(n)])
  }

  function Counter(n: nat): byte {
    (n % 256) as byte
  }

  /** T(1) | T(2) | ... | T(n) */
  function Okm(prk: seq<byte>, info: seq<byte>, n: nat): (t: seq<byte>)
    ensures |t| == DIGEST * n
  {
    if n == 0 then [] else Okm(prk, info, n - 1) + T(prk, info, n)
  }

  /** The expanded key: the first len bytes. */
  function Expanded(prk: seq<byte>, info: seq<byte>, len: nat): (k: seq<byte>)
    ensures |k| == len
  {
    Okm(prk, info, BlocksFor(len))[..len]
  }

  lemma {:induction false} OkmPrefix(prk: seq<byte>, info: seq<byte>, m: nat, n: nat)
    requires m <= n
    ensures Okm(prk, info, m) == Okm(prk, info, n)[..DIGEST * m]
    decreases n
  {
    hide T;
    if m < n { OkmPrefix(prk, info, m, n - 1); }
  }

  /** A shorter key is the start of a longer one from the same secret. */
  lemma ShorterIsPrefix(prk: seq<byte>, info: seq<byte>, a: nat, b: nat)
    requires a <= b
    ensures Expanded(prk, info, a) == Expanded(prk, info, b)[..a]
  {
    hide Okm;
    OkmPrefix(prk, info, BlocksFor(a), BlocksFor(b));
  }

  /**
   * The key expanded to at most 255 blocks, on its own bytes: the first block is the code of info and 1, and each other
   * one that of the block before, info and its number.
   */
  lemma ExpandedBlock(prk: seq<byte>, info: seq<byte>, len: nat, j: nat)
    requires 32 * j + 32 <= len <= 255 * 32
    ensures var k := Expanded(prk, info, len);
      && k[..32] == Mac(prk, info + [1])
      && (j > 0 ==> k[32 * j..32 * j + 32] == Mac(prk, k[32 * (j - 1)..32 * j] + info + [(j + 1) as byte]))
  {
    hide Mac, Expanded;
    FirstExpanded(prk, info, len);
    if j > 0 { LaterExpanded(prk, info, len, j); }
  }

  lemma FirstExpanded(prk: seq<byte>, info: seq<byte>, len: nat)
    requires 32 <= len
    ensures Expanded(prk, info, len)[..32] == Mac(prk, info + [1])
  {
    FirstT(prk, info);
    hide Mac, Expanded, T;
    BlockIsT(prk, info, len, 0);
    assert Expanded(prk, info, len)[0..32] == Expanded(prk, info, len)[..32];
  }

  lemma LaterExpanded(prk: seq<byte>, info: seq<byte>, len: nat, j: nat)
    requires 0 < j && 32 * j + 32 <= len <= 255 * 32
    ensures var k := Expanded(prk, info, len);
      k[32 * j..32 * j + 32] == Mac(prk, k[32 * (j - 1)..32 * j] + info + [(j + 1) as byte])
  {
    hide Mac, Expanded, T;
    BlockIsT(prk, info, len, j);
    BlockIsT(prk, info, len, j - 1);
    LaterT(prk, info, j);
    assert 32 * (j - 1) + 32 == 32 * j;
  }

  lemma FirstT(prk: seq<byte>, info: seq<byte>)
    ensures T(prk, info, 1) == Mac(prk, info + [1])
  {
    hide Mac;
    assert [] + info + [1] == info + [1];
  }

  lemma LaterT(prk: seq<byte>, info: seq<byte>, j: nat)
    requires 0 < j < 255
    ensures T(prk, info, j + 1) == Mac(prk, T(prk, info, j) + info + [(j + 1) as byte])
  {
    hide Mac;
  }

  lemma BlockIsT(prk: seq<byte>, info: seq<byte>, len: nat, j: nat)
    requires 32 * j + 32 <= len
    ensures Expanded(prk, info, len)[32 * j..32 * j + 32] == T(prk, info, j + 1)
  {
    hide T, BlocksFor;
    var n := BlocksFor(len);
    OkmPrefix(prk, info, j + 1, n);
    var out, head := Okm(prk, info, n), Okm(prk, info, j) + T(prk, info, j + 1);
    assert out[..32 * (j + 1)] == head;
    hide Okm;
    assert out[..len][32 * j..32 * j + 32] == out[..32 * (j + 1)][32 * j..];
  }

  /** HKDF_extract with a salt: always succeeds. */
  method Extract(outKey: array<byte>, secret: seq<byte>, salt: seq<byte>) returns (outLen: nat, ret: int)
    requires outKey.Length >= DIGEST
    modifies outKey
    ensures ret == 1 && outLen == DIGEST && outKey[..DIGEST] == Mac(salt, secret)
    ensures outKey[DIGEST..] == old(outKey[DIGEST..])
  {
    hide Mac;
    Hmac(salt, secret, outKey);
    outLen, ret := 32, 1;
  }

  /** HKDF_expand; sizes are numbers below sizes (2^32 or 2^64) and wrap around. */
  method Expand(outKey: array<byte>, outLen: nat, prk: seq<byte>, info: seq<byte>, sizes: nat) returns (ret: int)
    requires outLen <= outKey.Length && outLen < sizes && sizes >= 0x1_0000_0000
    modifies outKey
    ensures ret == if outLen <= 255 * DIGEST then 1 else 0
    ensures outLen <= 255 * DIGEST ==> outKey[..outLen] == Expanded(prk, info, outLen)
    ensures outLen > 255 * DIGEST ==> outKey[..] == old(outKey[..])
    ensures outKey[outLen..] == old(outKey[outLen..])
  {
    hide T, Okm, Mac, Stands, InnerPad, OuterPad, Expanded, BlocksFor, Digest;
    var previous := new byte[64];
    var n, tooLarge := BlockCount(outLen, sizes);
    if tooLarge {
      return 0;
    }
    var hmac := new HmacContext();
    hmac.Init(Some(prk));
    Blocks(hmac, previous, outKey, outLen, prk, info, n);
    ret := 1;
  }

  /** The loop of HKDF_expand. */
  method Blocks(hmac: HmacContext, previous: array<byte>, outKey: array<byte>, outLen: nat,
                ghost prk: seq<byte>, info: seq<byte>, n: nat)
    requires hmac.Ready() && hmac.text == [] && hmac.key == prk && n == BlocksFor(outLen)
    requires outLen <= outKey.Length && previous.Length == 64 && previous != outKey
    requires previous !in hmac.Repr && outKey !in hmac.Repr
    modifies hmac.Repr, previous, outKey
    ensures outKey[..outLen] == Expanded(prk, info, outLen) && outKey[outLen..] == old(outKey[outLen..])
  {
    hide T, Okm, Mac, Stands, InnerPad, OuterPad, Digest;
    OkmStart(prk, info);
    var done := 0;
    for i := 0 to n
      modifies hmac.Repr, previous, outKey
      invariant hmac.Keyed() && hmac.key == prk && (i == 0 ==> hmac.Ready() && hmac.text == [])
      invariant i > 0 ==> previous[..32] == T(prk, info, i)
      invariant done == (if i < n then 32 * i else outLen)
      invariant outKey[..done] == Okm(prk, info, i)[..done]
      invariant outKey[outLen..] == old(outKey[outLen..])
    {
      Block(hmac, previous, info, i);
      ghost var sofar := outKey[..done];
      var todo := Emit(outKey, outLen, previous, done);
      NextOkm(prk, info, i, done, todo, sofar, outKey[..done + todo], previous[..32]);
      done := done + todo;
    }
  }

  /** The length check of HKDF_expand. */
  method BlockCount(outLen: nat, sizes: nat) returns (n: nat, tooLarge: bool)
    requires outLen < sizes && sizes >= 0x1_0000_0000
    ensures tooLarge == (outLen > 255 * DIGEST)
    ensures !tooLarge ==> n == BlocksFor(outLen)
  {
    Wraps(outLen + 31, sizes);
    Wraps(outLen + 32, sizes);
    n := (outLen + 32 - 1) % sizes / 32;
    tooLarge := (outLen + 32) % sizes < outLen || n > 255;
  }

  lemma Wraps(a: nat, size: nat)
    requires a < 2 * size
    ensures a % size == if a < size then a else a - size
  {
    if a >= size { Limbs.RemainderIs(a, size, 1, a - size); } else { Limbs.RemainderIs(a, size, 0, a); }
  }

  /** The first half of the loop body of HKDF_expand: the next T. */
  method Block(hmac: HmacContext, previous: array<byte>, info: seq<byte>, i: nat)
    requires hmac.Keyed() && (i == 0 ==> hmac.Ready() && hmac.text == [])
    requires previous.Length == 64 && previous !in hmac.Repr && (i > 0 ==> previous[..32] == T(hmac.key, info, i))
    modifies hmac.Repr, previous
    ensures hmac.Keyed() && hmac.key == old(hmac.key) && previous[..32] == T(hmac.key, info, i + 1)
  {
    hide T, Mac, Stands, InnerPad, OuterPad;
    ghost var prk := hmac.key;
    var ctr := Counter(i + 1);
    if i != 0 {
      hmac.Init(None);
      hmac.Update(previous[..32]);
    }
    hmac.Update(info);
    hmac.Update([ctr]);
    OkmStart(prk, info);
    NextT(prk, info, i, hmac.text, ctr);
    hmac.Final(previous);
  }

  /** The second half of the loop body of HKDF_expand. */
  method Emit(outKey: array<byte>, outLen: nat, previous: array<byte>, done: nat) returns (todo: nat)
    requires done <= outLen <= outKey.Length && previous.Length == 64 && previous != outKey
    modifies outKey
    ensures todo == if done + 32 > outLen then outLen - done else 32
    ensures outKey[..done + todo] == old(outKey[..done]) + previous[..todo]
    ensures outKey[outLen..] == old(outKey[outLen..])
  {
    todo := 32;
    if done + todo > outLen {
      todo := outLen - done;
    }
    Copy(outKey, done, previous[..todo]);
  }

  lemma OkmStart(prk: seq<byte>, info: seq<byte>)
    ensures Okm(prk, info, 0) == [] && T(prk, info, 0) == []
  {
  }

  lemma NextT(prk: seq<byte>, info: seq<byte>, i: nat, text: seq<byte>, ctr: byte)
    requires text == (if i == 0 then [] else T(prk, info, i)) + info + [ctr] && ctr == Counter(i + 1)
    ensures Mac(prk, text) == T(prk, info, i + 1)
  {
    hide Mac, Counter;
  }

  lemma NextOkm(prk: seq<byte>, info: seq<byte>, i: nat, done: nat, todo: nat, before: seq<byte>, after: seq<byte>,
                t: seq<byte>)
    requires t == T(prk, info, i + 1) && done == 32 * i && todo <= 32
    requires before == Okm(prk, info, i)[..done] && after == before + t[..todo]
    ensures after == Okm(prk, info, i + 1)[..done + todo]
  {
    hide T, Mac;
  }

  /** HKDF: extract, then expand. */
  method Hkdf(outKey: array<byte>, outLen: nat, secret: seq<byte>, salt: seq<byte>, info: seq<byte>, sizes: nat)
      returns (ret: int)
    requires outLen <= outKey.Length && outLen < sizes && sizes >= 0x1_0000_0000
    modifies outKey
    ensures ret == if outLen <= 255 * DIGEST then 1 else 0
    ensures ret == 1 ==> outKey[..outLen] == Expanded(Mac(salt, secret), info, outLen)
    ensures ret == 0 ==> outKey[..] == old(outKey[..])
  {
    hide Expanded, Mac;
    var prk := new byte[64];
    var prkLen, extr1 := Extract(prk, secret, salt);
    var extr2 := Expand(outKey, outLen, prk[..prkLen], info, sizes);
    if extr1 == 0 || extr2 == 0 {
      return 0;
    }
    return 1;
  }
}
