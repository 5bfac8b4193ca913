/** HMAC over SHA-256: sha/hmac.c, and RFC 2104 section 2 which it follows. */
module HmacSha256 {
  import opened Wrappers
  import opened Fips180
  import opened Buffers
  import opened ByteXor
  import opened Sha256

  /** RFC 2104: keys longer than a block are hashed, then the key is filled up with zeros. */
  function KeyBlock(key: seq<byte>): (k: seq<byte>)
    ensures |k| == BLOCK
  {
    if |key| > BLOCK then Digest(key) + Zeros(BLOCK - DIGEST) else key + Zeros(BLOCK - |key|)
  }

  function XorAll(k: seq<byte>, x: byte): (r: seq<byte>)
    ensures |r| == |k|
  {
    seq(|k|, i requires 0 <= i < |k| => Xor(k[i], x))
  }

  function InnerPad(key: seq<byte>): (r: seq<byte>)
    ensures |r| == BLOCK
  {
    XorAll(KeyBlock(key), 0x36)
  }

  function OuterPad(key: seq<byte>): (r: seq<byte>)
    ensures |r| == BLOCK
  {
    XorAll(KeyBlock(key), 0x5c)
  }

  /** H(K xor opad, H(K xor ipad, text)) */
  function Mac(key: seq<byte>, text: seq<byte>): (d: seq<byte>)
    ensures |d| == DIGEST
  {
    Digest(OuterPad(key) + Digest(InnerPad(key) + text))
  }

  /** How many codes make up len bytes. */
  function BlocksFor(len: nat): (n: nat)
    ensures DIGEST * n >= len && (n > 0 ==> DIGEST * (n - 1) < len)
  {
    (len + 31) / 32
  }

  /** The pads byte by byte: the key block combined with 0x36 and 0x5c; they differ by 0x6a everywhere. */
  lemma PadBytes(key: seq<byte>, i: nat)
    requires i < 64
    ensures InnerPad(key)[i] == KeyBlock(key)[i] ^ 0x36 && OuterPad(key)[i] == KeyBlock(key)[i] ^ 0x5c
    ensures InnerPad(key)[i] ^ OuterPad(key)[i] == 0x6a
    ensures |key| <= 64 ==> KeyBlock(key)[i] == if i < |key| then key[i] else 0
  {
    hide Digest;
    PadDifference(KeyBlock(key)[i]);
  }

  lemma PadDifference(b: byte)
    ensures (b ^ 0x36) ^ (b ^ 0x5c) == 0x6a
  {
  }

  /** RFC 2104 for a key of at most a block, on the bytes of the two pads. */
  lemma MacOfShortKey(key: seq<byte>, text: seq<byte>, ipad: seq<byte>, opad: seq<byte>)
    requires |key| <= 64 && |ipad| == |opad| == 64
    requires forall i :: 0 <= i < 64 ==> ipad[i] == (if i < |key| then key[i] else 0) ^ 0x36
    requires forall i :: 0 <= i < 64 ==> opad[i] == (if i < |key| then key[i] else 0) ^ 0x5c
    ensures Mac(key, text) == Digest(opad + Digest(ipad + text))
  {
    hide Digest, InnerPad, OuterPad, KeyBlock;
    forall i | 0 <= i < 64 ensures ipad[i] == InnerPad(key)[i] && opad[i] == OuterPad(key)[i] { PadBytes(key, i); }
    assert ipad == InnerPad(key) && opad == OuterPad(key);
  }

  /** Trailing zeros of a key that fits a block do not matter. */
  lemma ShortKeys(key: seq<byte>, n: nat, text: seq<byte>)
    requires |key| + n <= BLOCK
    ensures Mac(key + Zeros(n), text) == Mac(key, text)
  {
    ZerosSplit(n, BLOCK - |key| - n);
    hide Digest, Zeros;
    assert key + Zeros(n) + Zeros(BLOCK - |key| - n) == key + (Zeros(n) + Zeros(BLOCK - |key| - n));
    assert KeyBlock(key + Zeros(n)) == KeyBlock(key);
  }

  /** A long key and its digest are the same key. */
  lemma LongKeys(key: seq<byte>, text: seq<byte>)
    requires |key| > BLOCK
    ensures Mac(key, text) == Mac(Digest(key), text)
  {
    hide Digest, Zeros;
    assert KeyBlock(Digest(key)) == KeyBlock(key);
  }

  // ---------------------------------------------------------------- the context

  /**
   * An HMAC_CTX: the running hash md and the saved hashes i and o of the two padded keys.
   * The ghost key is held nowhere else; the ghost text is what has been absorbed since the last Init.
   */
  class HmacContext {
    const md: Context
    const i: Context
    const o: Context
    ghost var key: seq<byte>
    ghost var text: seq<byte>

    ghost const Repr: set<object> := {this} + md.Repr + i.Repr + o.Repr

    ghost predicate Fits() {
      && md.Fits() && i.Fits() && o.Fits()
      && this !in md.Repr + i.Repr + o.Repr
      && md.Repr !! i.Repr && md.Repr !! o.Repr && i.Repr !! o.Repr
    }

    /** The saved hashes stand for key. */
    ghost predicate Keyed()
      reads Repr
    {
      Fits() && i.Valid() && o.Valid() && i.msg == InnerPad(key) && o.msg == OuterPad(key)
    }

    ghost predicate Ready()
      reads Repr
    {
      Keyed() && md.Valid() && md.msg == InnerPad(key) + text
    }

    /** An uninitialised context. */
    constructor ()
      ensures Fits() && fresh(Repr)
    {
      md := new Context();
      i := new Context();
      o := new Context();
    }

    /** HMAC_Init; without a key the last one is used again. */
    method Init(k: Option<seq<byte>>)
      requires Fits() && (k.None? ==> Keyed())
      modifies Repr
      ensures Ready() && text == []
      ensures key == if k.Some? then k.value else old(key)
    {
      hide Stands, Digest, InnerPad, OuterPad;
      if k.Some? {
        SaveKey(k.value);
      }
      md.CopyFrom(i);
      text := [];
      assert InnerPad(key) + text == InnerPad(key);
    }

    /** The part of HMAC_Init that needs a key. */
    method SaveKey(k: seq<byte>)
      requires Fits()
      modifies Repr
      ensures Keyed() && key == k
    {
      hide Stands, Digest, KeyBlock, Absorb;
      var ctxKey := BlockKey(k);
      var pad := PadOf(ctxKey, 0x36);
      HashFirst(i, pad);
      pad := PadOf(ctxKey, 0x5c);
      HashFirst(o, pad);
      key := k;
    }

    /** The part of HMAC_Init that brings the key to the length of a block; md is used for hashing. */
    method BlockKey(k: seq<byte>) returns (ctxKey: array<byte>)
      requires Fits()
      modifies md.Repr
      ensures fresh(ctxKey) && ctxKey.Length == BLOCK && ctxKey[..] == KeyBlock(k)
    {
      hide Stands, Digest, Absorb;
      ctxKey := new byte[BLOCK];
      if BLOCK < |k| {
        HashFirst(md, k);
        md.Final(ctxKey);
        Fill(ctxKey, 32, 32, 0);
        ZerosAre(ctxKey[32..]);
        assert ctxKey[..] == Digest(k) + Zeros(32);
      } else {
        Copy(ctxKey, 0, k);
        Fill(ctxKey, |k|, BLOCK - |k|, 0);
        ZerosAre(ctxKey[|k|..]);
        assert ctxKey[..] == k + Zeros(BLOCK - |k|);
      }
    }

    /** One of the two loops that fill pad. */
    method PadOf(ctxKey: array<byte>, x: byte) returns (pad: seq<byte>)
      requires ctxKey.Length == BLOCK
      ensures pad == XorAll(ctxKey[..], x)
    {
      hide Xor, Digest, KeyBlock;
      var buf := new byte[BLOCK];
      for j := 0 to BLOCK
        invariant forall n :: 0 <= n < j ==> buf[n] == Xor(ctxKey[n], x)
      {
        var aux := ctxKey[j];
        XorComm(x, aux);
        buf[j] := Xor(x, aux);
      }
      pad := buf[..];
    }

    /** HMAC_Update */
    method Update(data: seq<byte>)
      requires Ready()
      modifies this`text, md.Repr
      ensures Ready() && key == old(key) && text == old(text) + data
    {
      hide Stands, InnerPad, OuterPad;
      md.Update(data);
      assert InnerPad(key) + text + data == InnerPad(key) + (text + data);
      text := text + data;
    }

    /** HMAC_Final: the code goes to out; the saved hashes, and so the key, stay. */
    method Final(out: array<byte>)
      requires Ready() && out.Length >= DIGEST && out !in Repr
      modifies md.Repr, out
      ensures Keyed() && key == old(key)
      ensures out[..DIGEST] == Mac(key, old(text)) && out[DIGEST..] == old(out[DIGEST..])
    {
      hide Stands, InnerPad, OuterPad, Digest;
      var buf := new byte[DIGEST];
      md.Final(buf);
      assert buf[..] == buf[..DIGEST];
      md.CopyFrom(o);
      md.Update(buf[..]);
      md.Final(out);
    }
  }

  /** SHA256_Init and a first SHA256_Update. */
  method HashFirst(c: Context, data: seq<byte>)
    requires c.Fits()
    modifies c.Repr
    ensures c.Valid() && c.msg == data
  {
    hide Stands, Digest, Absorb;
    c.Init();
    c.Update(data);
    assert [] + data == data;
  }

  /** HMAC in one call. */
  method Hmac(key: seq<byte>, d: seq<byte>, md: array<byte>)
    requires md.Length >= DIGEST
    modifies md
    ensures md[..DIGEST] == Mac(key, d) && md[DIGEST..] == old(md[DIGEST..])
  {
    hide Mac, Stands, InnerPad, OuterPad;
    var c := new HmacContext();
    c.Init(Some(key));
    c.Update(d);
    assert [] + d == d;
    c.Final(md);
  }
}
