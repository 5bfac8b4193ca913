/** The incremental SHA-256 of sha/sha.c. */
module Sha256 {
  import opened Fips180
  import opened Buffers

  const TWO32: nat := 0x1_0000_0000
  const TWO64: nat := 0x1_0000_0000_0000_0000

  // ---------------------------------------------------------------- rotations to the left

  function Rotate(a: word, n: bv8): word
    requires n <= 32
  {
    (a << n) | ((a & 0xffff_ffff) >> (32 - n))
  }

  function Sigma0(x: word): word { Rotate(x, 30) ^ Rotate(x, 19) ^ Rotate(x, 10) }
  function Sigma1(x: word): word { Rotate(x, 26) ^ Rotate(x, 21) ^ Rotate(x, 7) }
  function SmallSigma0(x: word): word { Rotate(x, 25) ^ Rotate(x, 14) ^ (x >> 3) }
  function SmallSigma1(x: word): word { Rotate(x, 15) ^ Rotate(x, 13) ^ (x >> 10) }

  lemma Left30(x: word) ensures Rotate(x, 30) == RotR(x, 2) {}
  lemma Left19(x: word) ensures Rotate(x, 19) == RotR(x, 13) {}
  lemma Left10(x: word) ensures Rotate(x, 10) == RotR(x, 22) {}
  lemma Left26(x: word) ensures Rotate(x, 26) == RotR(x, 6) {}
  lemma Left21(x: word) ensures Rotate(x, 21) == RotR(x, 11) {}
  lemma Left7(x: word) ensures Rotate(x, 7) == RotR(x, 25) {}
  lemma Left25(x: word) ensures Rotate(x, 25) == RotR(x, 7) {}
  lemma Left14(x: word) ensures Rotate(x, 14) == RotR(x, 18) {}
  lemma Left15(x: word) ensures Rotate(x, 15) == RotR(x, 17) {}
  lemma Left13(x: word) ensures Rotate(x, 13) == RotR(x, 19) {}

  lemma Xor3(a: word, b: word, c: word, r: word, s: word, t: word)
    requires a == r && b == s && c == t
    ensures a ^ b ^ c == r ^ s ^ t
  {
  }

  // The code rotates left, the standard right.

  lemma Sigma0Agrees(x: word)
    ensures Sigma0(x) == UpperSigma0(x)
  {
    Left30(x);
    Left19(x);
    Left10(x);
    hide Rotate, RotR;
    Xor3(Rotate(x, 30), Rotate(x, 19), Rotate(x, 10), RotR(x, 2), RotR(x, 13), RotR(x, 22));
  }

  lemma Sigma1Agrees(x: word)
    ensures Sigma1(x) == UpperSigma1(x)
  {
    Left26(x);
    Left21(x);
    Left7(x);
    hide Rotate, RotR;
    Xor3(Rotate(x, 26), Rotate(x, 21), Rotate(x, 7), RotR(x, 6), RotR(x, 11), RotR(x, 25));
  }

  lemma SmallSigma0Agrees(x: word)
    ensures SmallSigma0(x) == LowerSigma0(x)
  {
    Left25(x);
    Left14(x);
    hide Rotate, RotR;
    Xor3(Rotate(x, 25), Rotate(x, 14), x >> 3, RotR(x, 7), RotR(x, 18), x >> 3);
  }

  lemma SmallSigma1Agrees(x: word)
    ensures SmallSigma1(x) == LowerSigma1(x)
  {
    Left15(x);
    Left13(x);
    hide Rotate, RotR;
    Xor3(Rotate(x, 15), Rotate(x, 13), x >> 10, RotR(x, 17), RotR(x, 19), x >> 10);
  }

  // The sums of a round, bracketed as the code has them.
  function FirstT1(l: word, h: word, s: word, c: word, k: word): word { l + h + s + c + k }
  function LaterT1(l: word, h: word, s: word, c: word, k: word): word { l + (h + s + c + k) }
  function RingSum(x: word, s0: word, s1: word, t: word): word { x + (s0 + s1 + t) }

  lemma FirstSum(l: word, h: word, s: word, c: word, k: word)
    ensures FirstT1(l, h, s, c, k) == SumOf5(h, s, c, k, l)
  {
  }

  lemma LaterSum(l: word, h: word, s: word, c: word, k: word)
    ensures LaterT1(l, h, s, c, k) == SumOf5(h, s, c, k, l)
  {
  }

  lemma RingSumIs(x: word, s0: word, s1: word, t: word)
    ensures RingSum(x, s0, s1, t) == SumOf4(s1, t, s0, x)
  {
  }

  /** The assignments that end a round, on the eight variables. */
  lemma RoundIs(v0: Working, w: seq<word>, n: nat, v: Working, t1: word)
    requires n < 64 && |w| == 64 && v == Rounds(v0, w, n)
    requires t1 == FirstT1(w[n], v.h, Sigma1(v.e), Ch(v.e, v.f, v.g), K256()[n])
          || t1 == LaterT1(w[n], v.h, Sigma1(v.e), Ch(v.e, v.f, v.g), K256()[n])
    ensures Rounds(v0, w, n + 1)
         == Working(Plus(t1, Plus(Sigma0(v.a), Maj(v.a, v.b, v.c))), v.a, v.b, v.c, Plus(v.d, t1), v.e, v.f, v.g)
  {
    hide Sigma0, Sigma1, UpperSigma0, UpperSigma1, Ch, Maj, Plus, FirstT1, LaterT1, SumOf5, K256;
    Sigma0Agrees(v.a);
    Sigma1Agrees(v.e);
    FirstSum(w[n], v.h, Sigma1(v.e), Ch(v.e, v.f, v.g), K256()[n]);
    LaterSum(w[n], v.h, Sigma1(v.e), Ch(v.e, v.f, v.g), K256()[n]);
  }

  /** The ring X holds the last 16 schedule words, word t in cell t modulo 16. */
  ghost predicate Ring(x: seq<word>, w: seq<word>, i: nat)
    requires |x| == 16 && |w| == 64 && 16 <= i <= 64
  {
    forall k :: i - 16 <= k < i ==> x[k % 16] == w[k]
  }

  lemma RingWord(x: seq<word>, block: seq<byte>, i: nat)
    requires |x| == 16 && |block| == BLOCK && 16 <= i < 64 && Ring(x, Schedule(block, 64), i)
    ensures RingSum(x[i % 16], SmallSigma0(x[(i + 1) % 16]), SmallSigma1(x[(i + 14) % 16]), x[(i + 9) % 16])
         == Schedule(block, 64)[i]
  {
    hide Schedule, SmallSigma0, SmallSigma1, LowerSigma0, LowerSigma1, RingSum, SumOf4, WordOf;
    var w := Schedule(block, 64);
    assert x[i % 16] == w[i - 16] by { assert (i - 16) % 16 == i % 16; }
    assert x[(i + 1) % 16] == w[i - 15] by { assert (i - 15) % 16 == (i + 1) % 16; }
    assert x[(i + 14) % 16] == w[i - 2] by { assert (i - 2) % 16 == (i + 14) % 16; }
    assert x[(i + 9) % 16] == w[i - 7] by { assert (i - 7) % 16 == (i + 9) % 16; }
    ScheduleWord(block, i);
    SmallSigma0Agrees(w[i - 15]);
    SmallSigma1Agrees(w[i - 2]);
    RingSumIs(w[i - 16], LowerSigma0(w[i - 15]), LowerSigma1(w[i - 2]), w[i - 7]);
    var u := w[..i];
    assert u[i - 2] == w[i - 2] && u[i - 7] == w[i - 7] && u[i - 15] == w[i - 15] && u[i - 16] == w[i - 16];
  }

  lemma RingStep(x: seq<word>, w: seq<word>, i: nat, x': seq<word>)
    requires |x| == 16 && |w| == 64 && 16 <= i < 64 && Ring(x, w, i) && x' == x[i % 16 := w[i]]
    ensures Ring(x', w, i + 1)
  {
    forall k | i - 15 <= k < i + 1 ensures x'[k % 16] == w[k] {
      if k < i { assert k % 16 != i % 16; }
    }
  }

  lemma RingStart(x: seq<word>, w: seq<word>)
    requires |x| == 16 && |w| == 64 && forall k :: 0 <= k < 16 ==> x[k] == w[k]
    ensures Ring(x, w, 16)
  {
  }

  /** The first half of a turn of the second loop: the next schedule word, in place of the oldest. */
  method NextInRing(x: array<word>, input: seq<byte>, i: nat) returns (l: word)
    requires x.Length == 16 && |input| == BLOCK && 16 <= i < 64 && Ring(x[..], Schedule(input, 64), i)
    modifies x
    ensures l == Schedule(input, 64)[i] && Ring(x[..], Schedule(input, 64), i + 1)
  {
    hide Schedule, SmallSigma0, SmallSigma1, RingSum, Ring;
    ghost var w := Schedule(input, 64);
    ghost var x0 := x[..];
    RingWord(x0, input, i);
    var s0 := SmallSigma0(x[(i + 1) % 16]);
    var s1 := SmallSigma1(x[(i + 14) % 16]);
    l := x[i % 16];
    var t := x[(i + 9) % 16];
    l := RingSum(l, s0, s1, t);
    x[i % 16] := l;
    RingStep(x0, w, i, x[..]);
  }

  // ---------------------------------------------------------------- the context

  /** A SHA256_CTX. The ghost msg is everything absorbed since Init. */
  class Context {
    const h: array<word>
    var Nl: nat
    var Nh: nat
    const data: array<byte>
    var num: nat
    ghost var msg: seq<byte>

    ghost const Repr: set<object> := {this, h, data}

    ghost predicate Fits() {
      h.Length == 8 && data.Length == BLOCK
    }

    /** The context stands for msg: whole blocks in h, the rest in data, the length in Nh and Nl. */
    ghost predicate Valid()
      reads Repr
    {
      Fits() && num < BLOCK && Stands(h[..], data[..num], Nh, Nl, msg)
    }

    /** An uninitialised context. */
    constructor ()
      ensures Fits() && fresh(Repr)
    {
      h := new word[8];
      data := new byte[BLOCK];
    }

    /** sha256_block_data_order */
    method BlockDataOrder(input: seq<byte>)
      requires Fits() && |input| == BLOCK
      modifies h
      ensures h[..] == Compress(old(h[..]), input)
    {
      hide Schedule, Sigma0, Sigma1, SmallSigma0, SmallSigma1, Ch, Maj, Rounds, Round, WordOf, K256, Ring, Plus,
           FirstT1, LaterT1, RingSum, Compress, Absorb, Digest, Counts, Behind, NextWord, AddWords;
      ghost var h0, w := h[..], Schedule(input, 64);
      ghost var v0 := FromHash(h0);
      StartRounds(v0, w);
      var a, b, c, d, e, f, g, hh := h[0], h[1], h[2], h[3], h[4], h[5], h[6], h[7];
      var x := new word[16];
      var i := 0;
      while i < 16
        modifies x
        invariant 0 <= i <= 16
        invariant Working(a, b, c, d, e, f, g, hh) == Rounds(v0, w, i)
        invariant forall k :: 0 <= k < i ==> x[k] == w[k]
      {
        var l := WordOf(input[4 * i..4 * i + 4]);
        x[i] := l;
        ScheduleWord(input, i);
        var ki := K256()[i];
        var t1 := FirstT1(l, hh, Sigma1(e), Ch(e, f, g), ki);
        var t2 := Plus(Sigma0(a), Maj(a, b, c));
        RoundIs(v0, w, i, Working(a, b, c, d, e, f, g, hh), t1);
        hh := g; g := f; f := e; e := Plus(d, t1);
        d := c; c := b; b := a; a := Plus(t1, t2);
        i := i + 1;
      }
      RingStart(x[..], w);
      while i < 64
        modifies x
        invariant 16 <= i <= 64
        invariant Working(a, b, c, d, e, f, g, hh) == Rounds(v0, w, i)
        invariant Ring(x[..], w, i)
      {
        var l := NextInRing(x, input, i);
        var ki := K256()[i];
        var t1 := LaterT1(l, hh, Sigma1(e), Ch(e, f, g), ki);
        var t2 := Plus(Sigma0(a), Maj(a, b, c));
        RoundIs(v0, w, i, Working(a, b, c, d, e, f, g, hh), t1);
        hh := g; g := f; f := e; e := Plus(d, t1);
        d := c; c := b; b := a; a := Plus(t1, t2);
        i := i + 1;
      }
      assert h[..] == h0 && i == 64;
      AddBack(a, b, c, d, e, f, g, hh);
      CompressIs(h0, input);
    }

    /** The end of sha256_block_data_order. */
    method AddBack(a: word, b: word, c: word, d: word, e: word, f: word, g: word, hh: word)
      requires h.Length == 8
      modifies h
      ensures h[..] == AddWords(old(h[..]), Working(a, b, c, d, e, f, g, hh))
    {
      hide Plus, Fips180.Absorb, Counts;
      h[0] := Plus(h[0], a);
      h[1] := Plus(h[1], b);
      h[2] := Plus(h[2], c);
      h[3] := Plus(h[3], d);
      h[4] := Plus(h[4], e);
      h[5] := Plus(h[5], f);
      h[6] := Plus(h[6], g);
      h[7] := Plus(h[7], hh);
      EightWords(h[..], h[0], h[1], h[2], h[3], h[4], h[5], h[6], h[7]);
    }

    /** SHA256_Init */
    method Init()
      requires Fits()
      modifies this, h
      ensures Valid() && msg == []
    {
      hide Digest, Compress;
      h[0] := 0x6a09e667; h[1] := 0xbb67ae85;
      h[2] := 0x3c6ef372; h[3] := 0xa54ff53a;
      h[4] := 0x510e527f; h[5] := 0x9b05688c;
      h[6] := 0x1f83d9ab; h[7] := 0x5be0cd19;
      EightWords(h[..], h[0], h[1], h[2], h[3], h[4], h[5], h[6], h[7]);
      Nl, Nh := 0, 0;
      num := 0;
      msg := [];
    }

    /** SHA256_addlength */
    method AddLength(len: nat)
      modifies this`Nl, this`Nh
      ensures forall n: nat :: old(Counts(Nh, Nl, n)) ==> Counts(Nh, Nl, n + len)
    {
      var cNl, cNh := Nl, Nh;
      var l := (cNl + 8 * len % 0x1_0000_0000) % 0x1_0000_0000;
      if l < cNl {
        cNh := (cNh + 1) % 0x1_0000_0000;
      }
      cNh := (cNh + len / 0x2000_0000) % 0x1_0000_0000;
      forall n: nat | old(Counts(Nh, Nl, n)) ensures Counts(cNh, l, n + len) {
        LengthAdds(n, len, Nh, Nl, cNh, l);
      }
      Nl, Nh := l, cNh;
    }

    /** SHA256_Update */
    method Update(input: seq<byte>)
      requires Valid()
      modifies Repr
      ensures Valid() && msg == old(msg) + input
    {
      hide Counts, Stands, Behind, Digest;
      Unpack(h[..], data[..num], Nh, Nl, msg);
      AddLength(|input|);
      assert Counts(Nh, Nl, |msg + input|);
      TakeIn(input);
      msg := msg + input;
    }

    /** SHA256_Update after the length has been added. */
    method TakeIn(input: seq<byte>)
      requires Fits() && num < BLOCK && Behind(h[..], data[..num], msg) && Counts(Nh, Nl, |msg + input|)
      modifies h, data, this`num
      ensures num < BLOCK && Stands(h[..], data[..num], Nh, Nl, msg + input)
    {
      hide Counts, Stands, Progress, Behind, Digest;
      var rest := input;
      var n := num;
      ghost var done := msg;
      if n != 0 {
        var fragment := BLOCK - n;
        if |rest| >= fragment {
          done := CompletePending(input, msg);
          rest := input[fragment..];
        } else {
          PendingGrows(h[..], data[..n], input, Nh, Nl, msg);
          AddPending(rest);
          return;
        }
      } else {
        StartProgress(h[..], data[..n], msg, input);
      }
      done, rest := WholeBlocks(done, rest, msg + input);
      TailIs(h[..], done, rest, msg + input, Nh, Nl);
      KeepTail(rest);
    }

    /** The end of SHA256_Update. */
    method KeepTail(rest: seq<byte>)
      requires Fits() && |rest| < BLOCK
      modifies data, this`num
      ensures num == |rest| && data[..num] == rest
    {
      num := |rest|;
      if |rest| != 0 {
        Copy(data, 0, rest);
      }
    }

    /** The part of SHA256_Update for input that does not fill the block. */
    method AddPending(rest: seq<byte>)
      requires Fits() && num + |rest| < BLOCK
      modifies data, this`num
      ensures num == old(num) + |rest| && data[..num] == old(data[..num]) + rest
    {
      Copy(data, num, rest);
      num := num + |rest|;
    }

    /** The part of SHA256_Update that completes a pending block. */
    method CompletePending(input: seq<byte>, ghost m: seq<byte>) returns (ghost done: seq<byte>)
      requires Fits() && 0 < num < BLOCK && Behind(h[..], data[..num], m) && |input| >= BLOCK - num
      modifies h, data
      ensures Progress(h[..], done, input[BLOCK - num..], m + input)
    {
      hide Absorb, Compress;
      var fragment := BLOCK - num;
      Copy(data, num, input[..fragment]);
      ghost var block := data[..];
      assert block == m[|m| - num..] + input[..fragment];
      BlockDataOrder(data[..]);
      AbsorbBlock(IV(), m[..|m| - num], block);
      done := m[..|m| - num] + block;
      Rejoin(m, input, num, fragment, block);
      Fill(data, 0, BLOCK, 0);
    }

    /** The loop of SHA256_Update. */
    method WholeBlocks(ghost done0: seq<byte>, input: seq<byte>, ghost whole: seq<byte>)
        returns (ghost done: seq<byte>, rest: seq<byte>)
      requires Fits() && Progress(h[..], done0, input, whole)
      modifies h
      ensures Progress(h[..], done, rest, whole) && |rest| < BLOCK
    {
      hide Absorb, Compress;
      done := done0;
      rest := input;
      while |rest| >= BLOCK
        invariant Progress(h[..], done, rest, whole)
      {
        var block := rest[..BLOCK];
        BlockDataOrder(block);
        AbsorbBlock(IV(), done, block);
        assert done + rest == (done + block) + rest[BLOCK..];
        done := done + block;
        rest := rest[BLOCK..];
      }
    }

    /** SHA256_Final: the digest goes to the start of md; the context is used up. */
    method Final(md: array<byte>)
      requires Valid() && md.Length >= DIGEST && md != data
      modifies Repr, md
      ensures md[..DIGEST] == Digest(old(msg))
      ensures md[DIGEST..] == old(md[DIGEST..])
    {
      hide Absorb, Compress, Digest, LengthField, Pad, Behind, Stands;
      Unpack(h[..], data[..num], Nh, Nl, msg);
      var n; ghost var done;
      n, done := StartPadding();
      Clear(n, BLOCK - 8);
      WriteLength();
      ghost var last := data[..];
      BlockDataOrder(data[..]);
      AbsorbBlock(IV(), done, last);
      num := 0;
      Fill(data, 0, BLOCK, 0);
      WriteDigest(md);
      DigestIs(msg);
    }

    /** memset of part of the buffer. */
    method Clear(n: nat, k: nat)
      requires Fits() && n <= k <= BLOCK
      modifies data
      ensures data[..k] == old(data[..n]) + Zeros(k - n)
    {
      Fill(data, n, k - n, 0);
    }

    /** The part of SHA256_Final that ends the message, with a block of its own if there is no room for the length. */
    method StartPadding() returns (n: nat, ghost done: seq<byte>)
      requires Fits() && num < BLOCK && Behind(h[..], data[..num], msg)
      modifies h, data
      ensures n <= BLOCK - 8 && |done| % BLOCK == 0 && h[..] == Absorb(IV(), done)
      ensures Pad(msg) == done + (data[..n] + Zeros(BLOCK - 8 - n) + LengthField(8 * |msg|))
    {
      hide Absorb, Compress, Digest, LengthField, Zeros, Pad, PadZeros;
      ghost var rest := data[..num];
      done := msg[..|msg| - num];
      PadTail(msg, num);
      n := num;
      data[n] := 0x80;
      n := n + 1;
      assert data[..n] == rest + [0x80];
      if n > BLOCK - 8 {
        Clear(n, BLOCK);
        ghost var block := data[..];
        assert block == data[..BLOCK] == rest + [0x80] + Zeros(BLOCK - n);
        BlockDataOrder(data[..]);
        AbsorbBlock(IV(), done, block);
        done := done + block;
        n := 0;
        NoBytes(data[..0], Zeros(56));
      }
    }

    /** The part of SHA256_Final that stores the length. */
    method WriteLength()
      requires Fits() && Counts(Nh, Nl, |msg|)
      modifies data
      ensures data[..] == old(data[..56]) + LengthField(8 * |msg|)
    {
      hide Counts, LengthField, BytesOf;
      LengthWords(Nh, Nl, |msg|);
      var high, low := BytesOf(Nh as word), BytesOf(Nl as word);
      Copy(data, 56, high);
      Copy(data, 60, low);
    }

    /** The part of SHA256_Final that stores the digest. */
    method WriteDigest(md: array<byte>)
      requires Fits() && md.Length >= DIGEST && md != data
      modifies md
      ensures md[..DIGEST] == Bytes(h[..]) && md[DIGEST..] == old(md[DIGEST..])
    {
      hide BytesOf;
      assert h[..] == h[..8];
      for xn := 0 to 8
        invariant md[..4 * xn] == Bytes(h[..xn])
        invariant md[DIGEST..] == old(md[DIGEST..])
      {
        ghost var before := md[..4 * xn];
        Copy(md, 4 * xn, BytesOf(h[xn]));
        assert h[..xn + 1] == h[..xn] + [h[xn]];
        BytesSnoc(h[..xn], h[xn]);
        assert md[..4 * xn + 4] == before + BytesOf(h[xn]);
        assert forall k :: DIGEST <= k < md.Length ==> md[k] == md[4 * xn + 4..][k - 4 * xn - 4];
      }
    }

    /** Structure assignment, as memcpy of a whole SHA256_CTX. */
    method CopyFrom(c: Context)
      requires Fits() && c.Valid() && c != this && c.data != data && c.h != h
      modifies Repr
      ensures Valid() && msg == c.msg
    {
      hide Stands;
      Copy(h, 0, c.h[..]);
      Copy(data, 0, c.data[..]);
      assert h[..] == c.h[..] && data[..] == c.data[..];
      assert data[..c.num] == data[..][..c.num] && c.data[..c.num] == c.data[..][..c.num];
      Nl, Nh, num := c.Nl, c.Nh, c.num;
      msg := c.msg;
    }
  }

  /** SHA256: the digest of one buffer. */
  method Sha256(d: seq<byte>, md: array<byte>)
    requires md.Length >= DIGEST
    modifies md
    ensures md[..DIGEST] == Digest(d) && md[DIGEST..] == old(md[DIGEST..])
  {
    hide Digest, Stands;
    var c := new Context();
    c.Init();
    c.Update(d);
    assert [] + d == d;
    c.Final(md);
  }

  function Flatten(parts: seq<seq<byte>>): seq<byte> {
    if parts == [] then [] else Flatten(parts[..|parts| - 1]) + parts[|parts| - 1]
  }

  /** However a message is split over calls of Update, the digest is that of the whole message. */
  method DigestOfParts(parts: seq<seq<byte>>, md: array<byte>)
    requires md.Length >= DIGEST
    modifies md
    ensures md[..DIGEST] == Digest(Flatten(parts))
  {
    hide Digest, Stands;
    var c := new Context();
    c.Init();
    for i := 0 to |parts|
      modifies c.Repr
      invariant c.Valid() && c.msg == Flatten(parts[..i])
    {
      c.Update(parts[i]);
      assert parts[..i + 1][..i] == parts[..i];
    }
    assert parts[..|parts|] == parts;
    c.Final(md);
  }

  // ---------------------------------------------------------------- lemmas about the methods above

  /** hs is the state after done, and input is what is missing from whole. */
  ghost predicate Progress(hs: seq<word>, done: seq<byte>, input: seq<byte>, whole: seq<byte>) {
    |done| % BLOCK == 0 && hs == Absorb(IV(), done) && whole == done + input
  }

  /** hs is the state after the whole blocks of m, and pending is what remains of m. */
  ghost predicate Behind(hs: seq<word>, pending: seq<byte>, m: seq<byte>) {
    && |pending| == |m| % 64
    && hs == Absorb(IV(), m[..|m| - |pending|])
    && pending == m[|m| - |pending|..]
  }

  ghost predicate Stands(hs: seq<word>, pending: seq<byte>, nh: nat, nl: nat, m: seq<byte>) {
    Behind(hs, pending, m) && Counts(nh, nl, |m|)
  }

  lemma Unpack(hs: seq<word>, pending: seq<byte>, nh: nat, nl: nat, m: seq<byte>)
    requires Stands(hs, pending, nh, nl, m)
    ensures Behind(hs, pending, m) && Counts(nh, nl, |m|)
  {
  }

  lemma StartProgress(hs: seq<word>, none: seq<byte>, m: seq<byte>, input: seq<byte>)
    requires none == [] && Behind(hs, none, m)
    ensures Progress(hs, m, input, m + input)
  {
    hide Absorb;
    assert m[..|m| - 0] == m;
  }

  lemma TailIs(hs: seq<word>, done: seq<byte>, rest: seq<byte>, whole: seq<byte>, nh: nat, nl: nat)
    requires Progress(hs, done, rest, whole) && |rest| < BLOCK && Counts(nh, nl, |whole|)
    ensures Stands(hs, rest, nh, nl, whole)
  {
    hide Absorb, Counts;
    assert done == whole[..|done|];
  }

  lemma Rejoin(m: seq<byte>, input: seq<byte>, num: nat, k: nat, block: seq<byte>)
    requires num <= |m| && k <= |input| && block == m[|m| - num..] + input[..k]
    ensures m + input == (m[..|m| - num] + block) + input[k..]
  {
  }

  lemma PendingGrows(hs: seq<word>, pending: seq<byte>, input: seq<byte>, nh: nat, nl: nat, m: seq<byte>)
    requires Behind(hs, pending, m) && |pending| + |input| < 64 && Counts(nh, nl, |m + input|)
    ensures Stands(hs, pending + input, nh, nl, m + input)
  {
    hide Absorb, Counts;
    var n := |pending| + |input|;
    assert (m + input)[..|m + input| - n] == m[..|m| - |pending|];
    assert (m + input)[|m + input| - n..] == pending + input;
  }

  lemma ZerosAre(s: seq<byte>)
    requires forall k :: 0 <= k < |s| ==> s[k] == 0
    ensures s == Zeros(|s|)
  {
  }

  lemma NoBytes(none: seq<byte>, z: seq<byte>)
    requires none == []
    ensures none + z == z
  {
  }

  lemma DigestIs(m: seq<byte>)
    ensures Digest(m) == Bytes(Absorb(IV(), Pad(m)))
  {
  }

  /** The last block or two of a padded message. */
  lemma PadTail(m: seq<byte>, r: nat)
    requires r == |m| % 64
    ensures var done, rest := m[..|m| - r], m[|m| - r..];
      if r + 1 <= 56 then Pad(m) == done + (rest + [0x80] + Zeros(55 - r) + LengthField(8 * |m|))
      else Pad(m) == (done + (rest + [0x80] + Zeros(63 - r))) + (Zeros(56) + LengthField(8 * |m|))
  {
    hide LengthField, Zeros;
    var done, rest := m[..|m| - r], m[|m| - r..];
    assert m == done + rest;
    if r + 1 > 56 {
      assert PadZeros(|m|) == 63 - r + 56;
      ZerosSplit(63 - r, 56);
    } else {
      assert PadZeros(|m|) == 55 - r;
    }
  }

  lemma ZerosSplit(a: nat, b: nat)
    ensures Zeros(a + b) == Zeros(a) + Zeros(b)
  {
  }

  lemma LengthWords(nh: nat, nl: nat, n: nat)
    requires Counts(nh, nl, n)
    ensures nh < TWO32 && nl < TWO32 && LengthField(8 * n) == BytesOf(nh as word) + BytesOf(nl as word)
  {
    hide BytesOf, LengthField, HighWord, LowWord;
    WordsOf(nh, nl, 8 * n);
    FieldIs(8 * n);
  }

  lemma FieldIs(bits: nat)
    ensures LengthField(bits) == BytesOf(HighWord(bits) as word) + BytesOf(LowWord(bits) as word)
  {
    hide BytesOf, HighWord, LowWord;
  }

  lemma WordsOf(nh: nat, nl: nat, bits: nat)
    requires nh < TWO32 && nl < TWO32 && nh * TWO32 + nl == bits % TWO64
    ensures nh == HighWord(bits) && nl == LowWord(bits)
  {
    hide LengthField;
  }

  lemma LengthAdds(n: nat, len: nat, nh: nat, nl: nat, nh': nat, nl': nat)
    requires Counts(nh, nl, n)
    requires nl' == (nl + 8 * len % 0x1_0000_0000) % 0x1_0000_0000
    requires nh' == ((if nl' < nl then (nh + 1) % 0x1_0000_0000 else nh) + len / 0x2000_0000) % 0x1_0000_0000
    ensures Counts(nh', nl', n + len)
  {
    var c := if nl' < nl then 1 else 0;
    var low, high := 8 * len % 0x1_0000_0000, len / 0x2000_0000;
    LengthParts(len, low, high);
    LowCarry(nl, low, nl', c);
    HighCarry(nh, c, high, nh');
    var q, r := 8 * n / TWO64, (nh + c + high) / 0x1_0000_0000;
    assert 8 * n == q * TWO64 + nh * TWO32 + nl;
    assert nh + c + high == r * 0x1_0000_0000 + nh';
    SumModulo(8 * n + 8 * len, q + r, nh' * TWO32 + nl');
  }

  lemma LengthParts(len: nat, low: nat, high: nat)
    requires low == 8 * len % 0x1_0000_0000 && high == len / 0x2000_0000
    ensures 8 * len == high * 0x1_0000_0000 + low
  {
  }

  lemma LowCarry(nl: nat, low: nat, l: nat, c: nat)
    requires nl < TWO32 && low < TWO32 && l == (nl + low) % 0x1_0000_0000 && c == if l < nl then 1 else 0
    ensures l + c * 0x1_0000_0000 == nl + low
  {
  }

  lemma HighCarry(nh: nat, c: nat, high: nat, nh': nat)
    requires c <= 1 && nh' == ((if c == 1 then (nh + 1) % 0x1_0000_0000 else nh) + high) % 0x1_0000_0000
    ensures nh' == (nh + c + high) % 0x1_0000_0000
  {
  }

  lemma SumModulo(x: nat, q: nat, r: nat)
    requires x == q * TWO64 + r && r < TWO64
    ensures x % TWO64 == r
  {
  }

  lemma CompressIs(h0: seq<word>, block: seq<byte>)
    requires |h0| == 8 && |block| == BLOCK
    ensures Compress(h0, block) == AddWords(h0, Rounds(FromHash(h0), Schedule(block, 64), 64))
  {
    hide Rounds, Schedule, FromHash, AddWords;
  }

  lemma EightWords<T>(s: seq<T>, a: T, b: T, c: T, d: T, e: T, f: T, g: T, h: T)
    requires |s| == 8 && s[0] == a && s[1] == b && s[2] == c && s[3] == d && s[4] == e && s[5] == f && s[6] == g &&
      s[7] == h
    ensures s == [a, b, c, d, e, f, g, h]
  {
  }

  lemma StartRounds(v: Working, w: seq<word>)
    requires |w| == 64
    ensures Rounds(v, w, 0) == v
  {
  }

  /** Nh and Nl are the two words of the length in bits, modulo 2^64. */
  ghost predicate Counts(nh: nat, nl: nat, bytes: nat) {
    nh < TWO32 && nl < TWO32 && nh * TWO32 + nl == 8 * bytes % TWO64
  }
}
