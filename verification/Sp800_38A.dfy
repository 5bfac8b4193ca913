/** Modes of operation (NIST SP 800-38A). */
module Sp800_38A {
  // Over any 16-byte block cipher, as steps on a carried state.

  import opened ByteIndex
  import opened ByteXor
  import opened Streams
  import Limbs

  /** A key's forward and inverse cipher functions. */
  datatype BlockCipher = BlockCipher(E: seq<byte> -> seq<byte>, D: seq<byte> -> seq<byte>)

  predicate IsBlock(b: seq<byte>) {
    |b| == 16
  }

  ghost predicate Proper(c: BlockCipher) {
    forall b :: IsBlock(b) ==> IsBlock(c.E(b)) && IsBlock(c.D(b)) && c.D(c.E(b)) == b
  }

  function XorBlock(a: seq<byte>, b: seq<byte>): (r: seq<byte>)
    requires |a| == |b|
    ensures |r| == |a|
  {
    seq(|a|, i requires 0 <= i < |a| => Xor(a[i], b[i]))
  }

  lemma XorBlockTwice(a: seq<byte>, b: seq<byte>)
    requires |a| == |b|
    ensures XorBlock(XorBlock(a, b), b) == a
  {
    forall i | 0 <= i < |a| ensures Xor(Xor(a[i], b[i]), b[i]) == a[i] { XorTwice(a[i], b[i]); }
    hide Xor;
  }

  // ---------------------------------------------------------------- CBC (section 6.2), block by block

  function CbcEnc(c: BlockCipher): (seq<byte>, seq<byte>) -> (seq<byte>, seq<byte>) {
    (iv: seq<byte>, p: seq<byte>) =>
      if |iv| == |p| then var y := c.E(XorBlock(p, iv)); (y, y) else (iv, p)
  }

  function CbcDec(c: BlockCipher): (seq<byte>, seq<byte>) -> (seq<byte>, seq<byte>) {
    (iv: seq<byte>, y: seq<byte>) =>
      (y, if |iv| == |c.D(y)| then XorBlock(c.D(y), iv) else y)
  }

  lemma CbcUndoes(c: BlockCipher)
    requires Proper(c)
    ensures Undoes(CbcEnc(c), CbcDec(c), IsBlock, IsBlock)
  {
    forall iv, p | IsBlock(iv) && IsBlock(p)
      ensures IsBlock(CbcEnc(c)(iv, p).0) && IsBlock(CbcEnc(c)(iv, p).1)
      ensures CbcDec(c)(iv, CbcEnc(c)(iv, p).1) == (CbcEnc(c)(iv, p).0, p)
    {
      assert IsBlock(XorBlock(p, iv));
      XorBlockTwice(p, iv);
    }
  }

  /** The blocks of a message of whole blocks. */
  function Blocks(m: seq<byte>): (b: seq<seq<byte>>)
    requires |m| % 16 == 0
    ensures 16 * |b| == |m| && forall i :: 0 <= i < |b| ==> IsBlock(b[i])
  {
    if m == [] then [] else Blocks(m[..|m| - 16]) + [m[|m| - 16..]]
  }

  function Join(b: seq<seq<byte>>): seq<byte> {
    if b == [] then [] else Join(b[..|b| - 1]) + b[|b| - 1]
  }

  lemma {:induction false} JoinBlocks(m: seq<byte>)
    requires |m| % 16 == 0
    ensures Join(Blocks(m)) == m
  {
    if m != [] { JoinBlocks(m[..|m| - 16]); }
  }

  lemma {:induction false} BlocksJoin(b: seq<seq<byte>>)
    requires forall i :: 0 <= i < |b| ==> IsBlock(b[i])
    ensures |Join(b)| == 16 * |b| && Blocks(Join(b)) == b
  {
    if b != [] {
      BlocksJoin(b[..|b| - 1]);
      var m := Join(b);
      assert m[..|m| - 16] == Join(b[..|b| - 1]);
    }
  }

  lemma BlocksNext(m: seq<byte>, p: seq<byte>)
    requires |m| % 16 == 0 && IsBlock(p)
    ensures |m + p| % 16 == 0 && Blocks(m + p) == Blocks(m) + [p]
  {
    assert (m + p)[..|m|] == m && (m + p)[|m|..] == p;
  }

  /** CBC on bytes: the last ciphertext block, and the output. */
  function Cbc(f: (seq<byte>, seq<byte>) -> (seq<byte>, seq<byte>), iv: seq<byte>, m: seq<byte>): (seq<byte>, seq<byte>)
    requires |m| % 16 == 0
  {
    var (iv', b) := Run(f, iv, Blocks(m));
    (iv', Join(b))
  }

  /** CBC decryption undoes CBC encryption. */
  lemma CbcRoundTrip(c: BlockCipher, iv: seq<byte>, m: seq<byte>)
    requires Proper(c) && IsBlock(iv) && |m| % 16 == 0
    ensures var (iv', y) := Cbc(CbcEnc(c), iv, m);
      |y| % 16 == 0 && Cbc(CbcDec(c), iv, y) == (iv', m)
  {
    CbcUndoes(c);
    RunBack(CbcEnc(c), CbcDec(c), IsBlock, IsBlock, iv, Blocks(m));
    BlocksJoin(Run(CbcEnc(c), iv, Blocks(m)).1);
    JoinBlocks(m);
  }

  /** The standard's equations: each ciphertext block from the one before it, the first from the iv. */
  lemma {:induction false} CbcEquations(c: BlockCipher, iv: seq<byte>, b: seq<seq<byte>>, j: nat)
    requires Proper(c) && IsBlock(iv) && (forall i :: 0 <= i < |b| ==> IsBlock(b[i])) && j < |b|
    ensures var y := Run(CbcEnc(c), iv, b).1;
      && (j > 0 ==> IsBlock(y[j - 1]))
      && y[j] == c.E(XorBlock(b[j], if j == 0 then iv else y[j - 1]))
    decreases |b|
  {
    var init, x := b[..|b| - 1], b[|b| - 1];
    CbcUndoes(c);
    RunBack(CbcEnc(c), CbcDec(c), IsBlock, IsBlock, iv, init);
    if j < |b| - 1 {
      CbcEquations(c, iv, init, j);
    } else {
      CbcState(c, iv, init);
    }
  }

  lemma {:induction false} CbcState(c: BlockCipher, iv: seq<byte>, b: seq<seq<byte>>)
    requires Proper(c) && IsBlock(iv) && forall i :: 0 <= i < |b| ==> IsBlock(b[i])
    ensures Run(CbcEnc(c), iv, b).0 == if b == [] then iv else Run(CbcEnc(c), iv, b).1[|b| - 1]
  {
    if b != [] {
      CbcUndoes(c);
      RunBack(CbcEnc(c), CbcDec(c), IsBlock, IsBlock, iv, b[..|b| - 1]);
    }
  }

  lemma {:induction false} BlocksConcat(a: seq<byte>, b: seq<byte>)
    requires |a| % 16 == 0 && |b| % 16 == 0
    ensures |a + b| % 16 == 0 && Blocks(a + b) == Blocks(a) + Blocks(b)
    decreases |b|
  {
    if b == [] {
      assert a + b == a;
    } else {
      var init, p := b[..|b| - 16], b[|b| - 16..];
      BlocksConcat(a, init);
      assert a + b == a + init + p;
      BlocksNext(a + init, p);
    }
  }

  lemma {:induction false} JoinConcat(a: seq<seq<byte>>, b: seq<seq<byte>>)
    ensures Join(a + b) == Join(a) + Join(b)
    decreases |b|
  {
    if b == [] {
      assert a + b == a;
    } else {
      var init, last := b[..|b| - 1], b[|b| - 1];
      JoinConcat(a, init);
      assert (a + b)[..|a + b| - 1] == a + init && (a + b)[|a + b| - 1] == last;
      assert Join(a + b) == Join(a + init) + last;
      assert Join(a) + Join(init) + last == Join(a) + (Join(init) + last);
    }
  }

  /** A message in two calls, the iv carried over. */
  lemma CbcSplit(f: (seq<byte>, seq<byte>) -> (seq<byte>, seq<byte>), iv: seq<byte>, a: seq<byte>, b: seq<byte>)
    requires |a| % 16 == 0 && |b| % 16 == 0
    ensures var (iv1, ya) := Cbc(f, iv, a);
      var (iv2, yb) := Cbc(f, iv1, b);
      |a + b| % 16 == 0 && Cbc(f, iv, a + b) == (iv2, ya + yb)
  {
    BlocksConcat(a, b);
    RunSplit(f, iv, Blocks(a), Blocks(b));
    JoinConcat(Run(f, iv, Blocks(a)).1, Run(f, Run(f, iv, Blocks(a)).0, Blocks(b)).1);
  }

  // ---------------------------------------------------------------- CFB, 128-bit segments (section 6.3), byte by byte

  /** The shift register and how many of its bytes have been used. */
  datatype Register = Register(iv: seq<byte>, n: nat)

  predicate InUse(r: Register) {
    |r.iv| == 16 && r.n < 16
  }

  function Refresh(c: BlockCipher, r: Register): seq<byte> {
    if r.n == 0 then c.E(r.iv) else r.iv
  }

  /** One byte; kept is the ciphertext byte. */
  function Cfb128(c: BlockCipher, encrypt: bool): (Register, byte) -> (Register, byte) {
    (r: Register, x: byte) =>
      var iv := Refresh(c, r);
      if r.n < |iv| then
        var y := Xor(x, iv[r.n]);
        (Register(iv[r.n := if encrypt then y else x], (r.n + 1) % 16), y)
      else (r, x)
  }

  predicate AnyByte(b: byte) {
    true
  }

  lemma Cfb128Undoes(c: BlockCipher)
    requires Proper(c)
    ensures Undoes(Cfb128(c, true), Cfb128(c, false), InUse, AnyByte)
  {
    forall r, x | InUse(r) && AnyByte(x)
      ensures InUse(Cfb128(c, true)(r, x).0) && AnyByte(Cfb128(c, true)(r, x).1)
      ensures Cfb128(c, false)(r, Cfb128(c, true)(r, x).1) == (Cfb128(c, true)(r, x).0, x)
    {
      var iv := Refresh(c, r);
      assert IsBlock(r.iv);
      XorTwice(x, iv[r.n]);
      hide Xor;
    }
  }

  lemma Cfb128RoundTrip(c: BlockCipher, r: Register, m: seq<byte>)
    requires Proper(c) && InUse(r)
    ensures var (r', y) := Run(Cfb128(c, true), r, m);
      Run(Cfb128(c, false), r, y) == (r', m)
  {
    Cfb128Undoes(c);
    RunBack(Cfb128(c, true), Cfb128(c, false), InUse, AnyByte, r, m);
  }

  /** The ciphertext since the start of the segment in which the register stood. */
  function History(r: Register, y: seq<byte>): seq<byte>
    requires InUse(r)
  {
    r.iv[..r.n] + y
  }

  /** What enters the cipher for segment q: the initial register, and then the segment before. */
  function SegmentInput(r: Register, h: seq<byte>, q: nat): (b: seq<byte>)
    requires InUse(r) && 16 * q <= |h|
    ensures IsBlock(b)
  {
    if q == 0 then r.iv else h[16 * (q - 1)..16 * q]
  }

  /** The key stream of segment q; the register holds that of a segment already begun. */
  function SegmentKey(c: BlockCipher, r: Register, h: seq<byte>, q: nat): seq<byte>
    requires InUse(r) && 16 * q <= |h|
  {
    if q == 0 && r.n != 0 then r.iv else c.E(SegmentInput(r, h, q))
  }

  /** The register when the ciphertext since the start of the first segment is h. */
  ghost predicate RegisterAt(c: BlockCipher, r: Register, h: seq<byte>, t: Register)
    requires InUse(r)
  {
    var q := |h| / 16;
    && t.n == |h| % 16 && IsBlock(SegmentKey(c, r, h, q))
    && t.iv == if t.n == 0 then SegmentInput(r, h, q) else h[16 * q..] + SegmentKey(c, r, h, q)[t.n..]
  }

  /** The key stream of a segment does not depend on what comes after its start. */
  lemma SameKey(c: BlockCipher, r: Register, h: seq<byte>, g: seq<byte>, q: nat)
    requires InUse(r) && 16 * q <= |h| <= |g| && g[..|h|] == h
    ensures SegmentKey(c, r, h, q) == SegmentKey(c, r, g, q)
  {
    if q > 0 {
      var a, b := 16 * (q - 1), 16 * q;
      assert g[..|h|][a..b] == g[a..b];
    }
  }

  lemma SegmentKeySize(c: BlockCipher, r: Register, h: seq<byte>, q: nat)
    requires Proper(c) && InUse(r) && 16 * q <= |h|
    ensures IsBlock(SegmentKey(c, r, h, q))
  {
    hide SegmentInput;
    assert IsBlock(SegmentInput(r, h, q));
  }

  lemma RefreshIs(c: BlockCipher, r: Register, h: seq<byte>, q: nat, t: Register)
    requires Proper(c) && InUse(r) && r.n <= |h| == 16 * q + t.n && t.n < 16 && IsBlock(SegmentKey(c, r, h, q))
    requires t.iv == if t.n == 0 then SegmentInput(r, h, q) else h[16 * q..] + SegmentKey(c, r, h, q)[t.n..]
    ensures Refresh(c, t) == h[16 * q..] + SegmentKey(c, r, h, q)[t.n..]
  {
    if t.n == 0 {
      assert q == 0 ==> r.n == 0;
      var key := SegmentKey(c, r, h, q);
      assert key == c.E(t.iv);
      hide SegmentKey, SegmentInput;
      assert h[16 * q..] == [] && key[0..] == key;
    }
  }

  lemma IsRegister(c: BlockCipher, r: Register, h: seq<byte>, q: nat, t: Register)
    requires InUse(r) && |h| == 16 * q + t.n && t.n < 16 && IsBlock(SegmentKey(c, r, h, q))
    requires t.iv == if t.n == 0 then SegmentInput(r, h, q) else h[16 * q..] + SegmentKey(c, r, h, q)[t.n..]
    ensures RegisterAt(c, r, h, t)
  {
    assert |h| / 16 == q;
    hide SegmentKey, SegmentInput;
  }

  lemma WithinSegment(c: BlockCipher, r: Register, h: seq<byte>, q: nat, n: nat, y: byte)
    requires InUse(r) && |h| == 16 * q + n && n < 15 && IsBlock(SegmentKey(c, r, h, q))
    ensures RegisterAt(c, r, h + [y], Register(h[16 * q..] + [y] + SegmentKey(c, r, h, q)[n + 1..], n + 1))
  {
    hide SegmentKey, SegmentInput;
    SameKey(c, r, h, h + [y], q);
    assert (h + [y])[16 * q..] == h[16 * q..] + [y];
    IsRegister(c, r, h + [y], q, Register(h[16 * q..] + [y] + SegmentKey(c, r, h, q)[n + 1..], n + 1));
  }

  lemma SegmentEnd(c: BlockCipher, r: Register, h: seq<byte>, q: nat, y: byte)
    requires Proper(c) && InUse(r) && |h| == 16 * q + 15
    ensures RegisterAt(c, r, h + [y], Register(h[16 * q..] + [y], 0))
  {
    assert SegmentInput(r, h + [y], q + 1) == h[16 * q..] + [y];
    SegmentKeySize(c, r, h + [y], q + 1);
    hide SegmentKey, SegmentInput;
    IsRegister(c, r, h + [y], q + 1, Register(h[16 * q..] + [y], 0));
  }

  lemma NextRegister(c: BlockCipher, r: Register, h: seq<byte>, q: nat, n: nat, y: byte)
    requires Proper(c) && InUse(r) && |h| == 16 * q + n && n < 16 && IsBlock(SegmentKey(c, r, h, q))
    ensures RegisterAt(c, r, h + [y], Register(h[16 * q..] + [y] + SegmentKey(c, r, h, q)[n + 1..], (n + 1) % 16))
  {
    hide SegmentKey, RegisterAt;
    if n < 15 {
      WithinSegment(c, r, h, q, n, y);
    } else {
      assert h[16 * q..] + [y] + SegmentKey(c, r, h, q)[16..] == h[16 * q..] + [y];
      SegmentEnd(c, r, h, q, y);
    }
  }

  lemma RegisterStep(c: BlockCipher, r: Register, h: seq<byte>, t: Register, x: byte)
    requires Proper(c) && InUse(r) && r.n <= |h| && RegisterAt(c, r, h, t)
    ensures var (u, y) := Cfb128(c, true)(t, x);
      && IsBlock(SegmentKey(c, r, h, |h| / 16)) && y == Xor(x, SegmentKey(c, r, h, |h| / 16)[|h| % 16])
      && RegisterAt(c, r, h + [y], u)
  {
    hide Xor, SegmentKey, SegmentInput, Refresh;
    var q, n := |h| / 16, |h| % 16;
    RefreshIs(c, r, h, q, t);
    hide RegisterAt;
    var key, iv := SegmentKey(c, r, h, q), Refresh(c, t);
    assert iv[n] == key[n];
    var (u, y) := Cfb128(c, true)(t, x);
    assert u == Register(iv[n := y], (n + 1) % 16) && y == Xor(x, key[n]);
    assert iv[n := y] == h[16 * q..] + [y] + key[n + 1..];
    NextRegister(c, r, h, q, n, y);
  }

  lemma RegisterStart(c: BlockCipher, r: Register)
    requires Proper(c) && InUse(r)
    ensures RegisterAt(c, r, History(r, []), r)
  {
    var h := History(r, []);
    assert h == r.iv[..r.n] && r.iv[..r.n] + r.iv[r.n..] == r.iv;
    assert |h| / 16 == 0 && h[0..] == h;
    SegmentKeySize(c, r, h, 0);
  }

  lemma {:induction false} Cfb128State(c: BlockCipher, r: Register, m: seq<byte>)
    requires Proper(c) && InUse(r)
    ensures var (t, y) := Run(Cfb128(c, true), r, m);
      RegisterAt(c, r, History(r, y), t)
    decreases |m|
  {
    hide RegisterAt, Cfb128;
    if m == [] {
      RegisterStart(c, r);
    } else {
      var init, x := m[..|m| - 1], m[|m| - 1];
      Cfb128State(c, r, init);
      assert m == init + [x];
      RunNext(Cfb128(c, true), r, init, x);
      hide Run;
      var (t, y) := Run(Cfb128(c, true), r, init);
      RegisterStep(c, r, History(r, y), t, x);
      var z := Cfb128(c, true)(t, x).1;
      assert History(r, y) + [z] == History(r, y + [z]);
    }
  }

  /**
   * The equations of section 6.3 for segments of 128 bits, from any register: byte k of the ciphertext is byte k of
   * the message combined with the key stream of its segment, and that is the encryption of the segment before.
   */
  lemma {:induction false} Cfb128Equations(c: BlockCipher, r: Register, m: seq<byte>, k: nat)
    requires Proper(c) && InUse(r) && k < |m|
    ensures var y := Run(Cfb128(c, true), r, m).1;
      var h, j := History(r, y), r.n + k;
      && |h| == r.n + |m| && IsBlock(SegmentKey(c, r, h, j / 16))
      && y[k] == Xor(m[k], SegmentKey(c, r, h, j / 16)[j % 16])
    decreases |m|
  {
    hide Cfb128, RegisterAt, SegmentKey, SegmentInput, Xor;
    var init, x := m[..|m| - 1], m[|m| - 1];
    var (t, y) := Run(Cfb128(c, true), r, init);
    var z := Cfb128(c, true)(t, x).1;
    assert Run(Cfb128(c, true), r, m).1 == y + [z];
    var h, g, q := History(r, y), History(r, y + [z]), (r.n + k) / 16;
    assert |h| == r.n + |init| && |g| == r.n + |m| && g[..|h|] == h;
    SegmentKeySize(c, r, g, q);
    SameKey(c, r, h, g, q);
    if k < |init| {
      Cfb128Equations(c, r, init, k);
    } else {
      Cfb128State(c, r, init);
      RegisterStep(c, r, h, t, x);
    }
  }

  // ---------------------------------------------------------------- CFB with 8-bit segments

  function Cfb8(c: BlockCipher, encrypt: bool): (seq<byte>, byte) -> (seq<byte>, byte) {
    (iv: seq<byte>, x: byte) =>
      var o := c.E(iv);
      if |o| > 0 && |iv| > 0 then
        var y := Xor(x, o[0]);
        (iv[1..] + [if encrypt then y else x], y)
      else (iv, x)
  }

  lemma Cfb8Undoes(c: BlockCipher)
    requires Proper(c)
    ensures Undoes(Cfb8(c, true), Cfb8(c, false), IsBlock, AnyByte)
  {
    forall iv, x | IsBlock(iv) && AnyByte(x)
      ensures IsBlock(Cfb8(c, true)(iv, x).0) && AnyByte(Cfb8(c, true)(iv, x).1)
      ensures Cfb8(c, false)(iv, Cfb8(c, true)(iv, x).1) == (Cfb8(c, true)(iv, x).0, x)
    {
      var o := c.E(iv);
      assert IsBlock(o);
      XorTwice(x, o[0]);
      hide Xor;
      assert Cfb8(c, true)(iv, x) == (iv[1..] + [Xor(x, o[0])], Xor(x, o[0]));
    }
  }

  lemma Cfb8RoundTrip(c: BlockCipher, iv: seq<byte>, m: seq<byte>)
    requires Proper(c) && IsBlock(iv)
    ensures var (iv', y) := Run(Cfb8(c, true), iv, m);
      Run(Cfb8(c, false), iv, y) == (iv', m)
  {
    Cfb8Undoes(c);
    RunBack(Cfb8(c, true), Cfb8(c, false), IsBlock, AnyByte, iv, m);
  }

  /**
   * The equations of section 6.3 for segments of 8 bits: what enters the cipher is each time the last 16 bytes of the
   * iv followed by the ciphertext so far.
   */
  lemma {:induction false} Cfb8Equations(c: BlockCipher, iv: seq<byte>, m: seq<byte>, k: nat)
    requires Proper(c) && IsBlock(iv) && k < |m|
    ensures var y := Run(Cfb8(c, true), iv, m).1;
      IsBlock(c.E((iv + y)[k..k + 16])) && y[k] == Xor(m[k], c.E((iv + y)[k..k + 16])[0])
    decreases |m|
  {
    hide Xor;
    var init, x := m[..|m| - 1], m[|m| - 1];
    var (s, y) := Run(Cfb8(c, true), iv, init);
    var z := Cfb8(c, true)(s, x).1;
    assert Run(Cfb8(c, true), iv, m).1 == y + [z];
    assert (iv + (y + [z]))[k..k + 16] == (iv + y)[k..k + 16];
    if k < |init| {
      Cfb8Equations(c, iv, init, k);
    } else {
      Cfb8State(c, iv, init);
      assert (iv + y)[k..k + 16] == s && IsBlock(c.E(s));
    }
  }

  lemma {:induction false} Cfb8State(c: BlockCipher, iv: seq<byte>, m: seq<byte>)
    requires Proper(c) && IsBlock(iv)
    ensures var (s, y) := Run(Cfb8(c, true), iv, m); s == (iv + y)[|m|..] && IsBlock(s)
    decreases |m|
  {
    hide Xor;
    if m == [] {
      assert iv + [] == iv;
    } else {
      var init, x := m[..|m| - 1], m[|m| - 1];
      Cfb8State(c, iv, init);
      var (s, y) := Run(Cfb8(c, true), iv, init);
      assert IsBlock(c.E(s));
      var z := Cfb8(c, true)(s, x).1;
      assert (iv + (y + [z]))[|m|..] == (iv + y)[|init|..][1..] + [z];
    }
  }

  // ---------------------------------------------------------------- CTR (section 6.5)

  /** A number in bytes, most significant first. */
  function BeVal(s: seq<byte>): nat {
    if s == [] then 0 else 256 * BeVal(s[..|s| - 1]) + Ix(s[|s| - 1])
  }

  function Power256(n: nat): (p: nat)
    ensures p > 0
  {
    if n == 0 then 1 else 256 * Power256(n - 1)
  }

  /** The first byte counts most. */
  lemma {:induction false} FirstByteLeads(x: byte, s: seq<byte>)
    ensures BeVal([x] + s) == Ix(x) * Power256(|s|) + BeVal(s)
    decreases |s|
  {
    var w := [x] + s;
    if s == [] {
      assert w == [x] && w[..0] == [];
      assert BeVal([]) == 0;
    } else {
      var init, last := s[..|s| - 1], s[|s| - 1];
      assert w[..|w| - 1] == [x] + init && w[|w| - 1] == last;
      FirstByteLeads(x, init);
      BeValNext(w);
      BeValNext(s);
      hide BeVal, Ix;
      Limbs.Assoc(256, Ix(x), Power256(|init|));
      Limbs.Assoc(Ix(x), 256, Power256(|init|));
    }
  }

  /** One more, with the carry going to the front; all ones become zeros. */
  function Increment(s: seq<byte>): (r: seq<byte>)
    ensures |r| == |s|
  {
    if s == [] then []
    else
      var init, last := s[..|s| - 1], s[|s| - 1];
      if last + 1 == 0 then Increment(init) + [0] else init + [last + 1]
  }

  lemma ByteIncrement(b: byte)
    ensures Ix(b + 1) == if b + 1 == 0 then 0 else Ix(b) + 1
    ensures b + 1 == 0 ==> Ix(b) == 255
  {
  }

  lemma {:induction false} BeValBound(s: seq<byte>)
    ensures BeVal(s) < Power256(|s|)
  {
    if s != [] { BeValBound(s[..|s| - 1]); }
  }

  /** The counter is a big-endian number modulo 256 to the number of bytes. */
  lemma {:induction false} IncrementIs(s: seq<byte>)
    ensures BeVal(Increment(s)) == (BeVal(s) + 1) % Power256(|s|)
  {
    hide Ix;
    if s != [] {
      var init, last := s[..|s| - 1], s[|s| - 1];
      IncrementIs(init);
      ByteIncrement(last);
      BeValBound(init);
      IncrementEnd(s);
      BeValNext(Increment(s));
      BeValNext(s);
      hide Increment, BeVal;
      CarryOn(BeVal(init), Ix(last), Power256(|init|));
    }
  }

  lemma BeValNext(s: seq<byte>)
    requires s != []
    ensures BeVal(s) == 256 * BeVal(s[..|s| - 1]) + Ix(s[|s| - 1])
  {
  }

  lemma IncrementEnd(s: seq<byte>)
    requires s != []
    ensures var init, last, r := s[..|s| - 1], s[|s| - 1], Increment(s);
      && r[..|r| - 1] == (if last + 1 == 0 then Increment(init) else init)
      && r[|r| - 1] == last + 1
  {
  }

  lemma CarryOn(v: nat, d: nat, p: nat)
    requires v < p && d <= 255
    ensures (256 * v + d + 1) % (256 * p)
         == if d == 255 then 256 * ((v + 1) % p) else 256 * v + d + 1
  {
    if d == 255 && v + 1 == p {
      assert 256 * v + d + 1 == 256 * p;
      Limbs.RemainderIs(256 * p, 256 * p, 1, 0);
      Limbs.RemainderIs(p, p, 1, 0);
    } else {
      Limbs.RemainderIs(256 * v + d + 1, 256 * p, 0, 256 * v + d + 1);
      if d == 255 { Limbs.RemainderIs(v + 1, p, 0, v + 1); }
    }
  }

  /** The counter after j increments. */
  function Later(s: seq<byte>, j: nat): (r: seq<byte>)
    ensures |r| == |s|
  {
    if j == 0 then s else Increment(Later(s, j - 1))
  }

  lemma {:induction false} LaterIs(s: seq<byte>, j: nat)
    ensures BeVal(Later(s, j)) == (BeVal(s) + j) % Power256(|s|)
    decreases j
  {
    var p := Power256(|s|);
    if j == 0 {
      BeValBound(s);
      Limbs.RemainderIs(BeVal(s), p, 0, BeVal(s));
    } else {
      LaterIs(s, j - 1);
      IncrementIs(Later(s, j - 1));
      OneMore(BeVal(s) + j - 1, p);
    }
  }

  lemma OneMore(v: nat, p: nat)
    requires p > 0
    ensures (v % p + 1) % p == (v + 1) % p
  {
    Limbs.CongMod(v, p);
    Limbs.CongAdd(v % p, v, 1, 1, p);
  }

  /** The counter block for the next refill, the key stream block in use, and how much of it is used. */
  datatype Stream = Stream(ctr: seq<byte>, block: seq<byte>, n: nat)

  predicate Streaming(s: Stream) {
    |s.ctr| == 16 && |s.block| == 16 && s.n < 16
  }

  function Refill(c: BlockCipher, s: Stream): Stream {
    if s.n == 0 then Stream(Increment(s.ctr), c.E(s.ctr), 0) else s
  }

  function Ctr(c: BlockCipher): (Stream, byte) -> (Stream, byte) {
    (s: Stream, x: byte) =>
      var t := Refill(c, s);
      if t.n < |t.block| then (t.(n := (t.n + 1) % 16), Xor(x, t.block[t.n])) else (s, x)
  }

  lemma CtrUndoes(c: BlockCipher)
    requires Proper(c)
    ensures Undoes(Ctr(c), Ctr(c), Streaming, AnyByte)
  {
    forall s, x | Streaming(s) && AnyByte(x)
      ensures Streaming(Ctr(c)(s, x).0) && AnyByte(Ctr(c)(s, x).1)
      ensures Ctr(c)(s, Ctr(c)(s, x).1) == (Ctr(c)(s, x).0, x)
    {
      var t := Refill(c, s);
      assert IsBlock(s.ctr);
      XorTwice(x, t.block[t.n]);
      hide Xor;
    }
  }

  /** CTR is its own inverse, from any state. */
  lemma CtrRoundTrip(c: BlockCipher, s: Stream, m: seq<byte>)
    requires Proper(c) && Streaming(s)
    ensures var (s', y) := Run(Ctr(c), s, m);
      Run(Ctr(c), s, y) == (s', m)
  {
    CtrUndoes(c);
    RunBack(Ctr(c), Ctr(c), Streaming, AnyByte, s, m);
  }

  const TWO128: nat := 0x1_0000_0000_0000_0000_0000_0000_0000_0000

  lemma Power128()
    ensures Power256(16) == TWO128
  {
    assert Power256(4) == 0x1_0000_0000;
    assert Power256(8) == 0x1_0000_0000_0000_0000;
    assert Power256(12) == 0x1_0000_0000_0000_0000_0000_0000;
  }

  /** How many times the counter has been used when position j of the stream is reached; s is the state at the start. */
  function Refills(s: Stream, j: nat): int {
    (j + 15) / 16 - if s.n == 0 then 0 else 1
  }

  /** Block q of the key stream: the one in use at the start, if it is, and then the counters in order. */
  function KeyBlock(c: BlockCipher, s: Stream, q: nat): seq<byte> {
    if s.n == 0 then c.E(Later(s.ctr, q)) else if q == 0 then s.block else c.E(Later(s.ctr, q - 1))
  }

  /** The state at position j of a stream that was in state s at position s.n. */
  ghost predicate StreamAt(c: BlockCipher, s: Stream, j: nat, t: Stream) {
    && Refills(s, j) >= 0 && t.n == j % 16
    && t.ctr == Later(s.ctr, Refills(s, j))
    && (j % 16 != 0 ==> t.block == KeyBlock(c, s, j / 16))
  }

  lemma KeyBlockSize(c: BlockCipher, s: Stream, q: nat)
    requires Proper(c) && Streaming(s)
    ensures IsBlock(KeyBlock(c, s, q))
  {
    assert IsBlock(Later(s.ctr, q));
    if q > 0 { assert IsBlock(Later(s.ctr, q - 1)); }
  }

  lemma RefillsStep(s: Stream, j: nat)
    requires s.n < 16 && s.n <= j
    ensures 0 <= Refills(s, j) && Refills(s, j + 1) == Refills(s, j) + (if j % 16 == 0 then 1 else 0)
    ensures j % 16 == 0 ==> Refills(s, j) == j / 16 - if s.n == 0 then 0 else 1
    ensures (j + 1) % 16 == (j % 16 + 1) % 16 && ((j + 1) % 16 != 0 ==> (j + 1) / 16 == j / 16)
  {
  }

  lemma StreamStep(c: BlockCipher, s: Stream, j: nat, t: Stream, x: byte)
    requires Proper(c) && Streaming(s) && s.n <= j && StreamAt(c, s, j, t)
    ensures IsBlock(KeyBlock(c, s, j / 16))
    ensures Ctr(c)(t, x).1 == Xor(x, KeyBlock(c, s, j / 16)[j % 16]) && StreamAt(c, s, j + 1, Ctr(c)(t, x).0)
  {
    RefillsStep(s, j);
    KeyBlockSize(c, s, j / 16);
    hide Xor, Increment, Refills;
    var u := Refill(c, t);
    if j % 16 == 0 {
      assert u.block == KeyBlock(c, s, j / 16);
      assert u.ctr == Later(s.ctr, Refills(s, j) + 1);
    }
    hide Later, KeyBlock;
    assert u.block == KeyBlock(c, s, j / 16) && u.n == j % 16;
    assert Ctr(c)(t, x) == (u.(n := (u.n + 1) % 16), Xor(x, u.block[u.n]));
  }

  lemma StreamStart(c: BlockCipher, s: Stream)
    requires Streaming(s)
    ensures StreamAt(c, s, s.n, s)
  {
    assert Refills(s, s.n) == 0 && Later(s.ctr, 0) == s.ctr;
    hide Refills, Later;
  }

  lemma {:induction false} CtrState(c: BlockCipher, s: Stream, m: seq<byte>)
    requires Proper(c) && Streaming(s)
    ensures StreamAt(c, s, s.n + |m|, Run(Ctr(c), s, m).0)
    decreases |m|
  {
    hide StreamAt, Ctr;
    if m == [] {
      StreamStart(c, s);
    } else {
      var init, x := m[..|m| - 1], m[|m| - 1];
      CtrState(c, s, init);
      assert m == init + [x];
      RunNext(Ctr(c), s, init, x);
      hide Run;
      StreamStep(c, s, s.n + |init|, Run(Ctr(c), s, init).0, x);
    }
  }

  /**
   * The standard's equations, from any state: byte k is at position j = n + k of the key stream, and is combined with
   * byte j mod 16 of the block in use at the start while that lasts, and otherwise of the encryption of a counter
   * block whose value is the 128-bit big-endian number ctr plus the number of counters used before, modulo 2^128.
   */
  lemma {:induction false} CtrEquations(c: BlockCipher, s: Stream, m: seq<byte>, k: nat)
    requires Proper(c) && Streaming(s) && k < |m|
    ensures var y, j := Run(Ctr(c), s, m).1, s.n + k;
      if s.n != 0 && j < 16 then y[k] == Xor(m[k], s.block[j])
      else
        var used := j / 16 - if s.n == 0 then 0 else 1;
        && used >= 0 && BeVal(Later(s.ctr, used)) == (BeVal(s.ctr) + used) % TWO128
        && IsBlock(c.E(Later(s.ctr, used))) && y[k] == Xor(m[k], c.E(Later(s.ctr, used))[j % 16])
    decreases |m|
  {
    hide Xor, Later, Ctr, Run, Power256, BeVal;
    var j := s.n + k;
    CtrByteIs(c, s, m, k);
    KeyBlockSize(c, s, j / 16);
    if !(s.n != 0 && j < 16) {
      CounterValue(s, j);
    }
  }

  lemma CounterValue(s: Stream, j: nat)
    requires Streaming(s) && s.n <= j && !(s.n != 0 && j < 16)
    ensures var used := j / 16 - if s.n == 0 then 0 else 1;
      used >= 0 && BeVal(Later(s.ctr, used)) == (BeVal(s.ctr) + used) % TWO128
  {
    LaterIs(s.ctr, j / 16 - if s.n == 0 then 0 else 1);
    Power128();
    hide Power256, Later, BeVal;
  }

  lemma {:induction false} CtrByteIs(c: BlockCipher, s: Stream, m: seq<byte>, k: nat)
    requires Proper(c) && Streaming(s) && k < |m|
    ensures IsBlock(KeyBlock(c, s, (s.n + k) / 16))
    ensures Run(Ctr(c), s, m).1[k] == Xor(m[k], KeyBlock(c, s, (s.n + k) / 16)[(s.n + k) % 16])
    decreases |m|
  {
    hide Ctr, KeyBlock, StreamAt, Xor;
    var init, x := m[..|m| - 1], m[|m| - 1];
    assert m == init + [x];
    RunNext(Ctr(c), s, init, x);
    hide Run;
    KeyBlockSize(c, s, (s.n + k) / 16);
    if k < |init| {
      CtrByteIs(c, s, init, k);
    } else {
      CtrState(c, s, init);
      StreamStep(c, s, s.n + k, Run(Ctr(c), s, init).0, x);
    }
  }
}
