/**
 * The example of RFC 8439, section 2.5.2: the numbers of its key and of the three blocks of its message, the
 * accumulator after each block, and the tag.
 */
module Poly1305Example {
  import opened Limbs
  import opened Poly1305
  import opened Poly1305Mac
  import Bits

  // ---------------------------------------------------------------- the key, the message and their numbers

  function KeyR(): (k: seq<int>)
    ensures |k| == 16 && Digits(k, 256)
  {
    [0x85, 0xd6, 0xbe, 0x78, 0x57, 0x55, 0x6d, 0x33, 0x7f, 0x44, 0x52, 0xfe, 0x42, 0xd5, 0x06, 0xa8]
  }

  function Clamped(): (r: seq<int>)
    ensures |r| == 16
  {
    [0x85, 0xd6, 0xbe, 0x08, 0x54, 0x55, 0x6d, 0x03, 0x7c, 0x44, 0x52, 0x0e, 0x40, 0xd5, 0x06, 0x08]
  }

  function KeyS(): (k: seq<int>)
    ensures |k| == 16 && Digits(k, 256)
  {
    [0x01, 0x03, 0x80, 0x8a, 0xfb, 0x0d, 0xb2, 0xfd, 0x4a, 0xbf, 0xf6, 0xaf, 0x41, 0x49, 0xf5, 0x1b]
  }

  function FirstBlock(): (b: seq<int>)
    ensures |b| == 16
  {
    [0x43, 0x72, 0x79, 0x70, 0x74, 0x6f, 0x67, 0x72, 0x61, 0x70, 0x68, 0x69, 0x63, 0x20, 0x46, 0x6f]
  }

  function SecondBlock(): (b: seq<int>)
    ensures |b| == 16
  {
    [0x72, 0x75, 0x6d, 0x20, 0x52, 0x65, 0x73, 0x65, 0x61, 0x72, 0x63, 0x68, 0x20, 0x47, 0x72, 0x6f]
  }

  const LastBlock: seq<int> := [0x75, 0x70]

  /** "Cryptographic Forum Research Group" */
  function Message(): (m: seq<int>)
    ensures |m| == 34
  {
    FirstBlock() + SecondBlock() + LastBlock
  }

  const R: nat := 0x806d5400e52447c036d555408bed685
  const S: nat := 0x1bf54941aff6bf4afdb20dfb8a800301

  function Four(s: seq<int>, i: nat): int
    requires i + 4 <= |s|
  {
    s[i] + 0x100 * s[i + 1] + 0x1_0000 * s[i + 2] + 0x100_0000 * s[i + 3]
  }

  lemma Sixteen(s: seq<int>)
    requires |s| == 16
    ensures Val(s, 256) == Four(s, 0) + 0x1_0000_0000 * Four(s, 4) + 0x1_0000_0000_0000_0000 * Four(s, 8)
                         + 0x1_0000_0000_0000_0000_0000_0000 * Four(s, 12)
  {
    var a, b := [s[0], s[1], s[2], s[3]], [s[4], s[5], s[6], s[7]];
    var c, d := [s[8], s[9], s[10], s[11]], [s[12], s[13], s[14], s[15]];
    assert s == a + b + c + d;
    FourBytes(s[0], s[1], s[2], s[3]);
    FourBytes(s[4], s[5], s[6], s[7]);
    FourBytes(s[8], s[9], s[10], s[11]);
    FourBytes(s[12], s[13], s[14], s[15]);
    FourPowers();
    hide Val, Pow;
    ValConcat(a, b, 256);
    ValConcat(a + b, c, 256);
    ValConcat(a + b + c, d, 256);
  }

  lemma FourPowers()
    ensures Pow(256, 4) == 0x1_0000_0000 && Pow(256, 8) == 0x1_0000_0000_0000_0000
    ensures Pow(256, 12) == 0x1_0000_0000_0000_0000_0000_0000
  {
    assert Pow(256, 4) == 0x1_0000_0000;
    PowAdd(256, 4, 4);
    PowAdd(256, 4, 8);
  }

  lemma KeyNumbers()
    ensures Val(Clamped(), 256) == R && Val(KeyS(), 256) == S
  {
    Sixteen(Clamped());
    Sixteen(KeyS());
    hide Val;
  }

  lemma FirstNumber()
    ensures BlockNumber(FirstBlock()) == 0x16f4620636968706172676f7470797243
  {
    Sixteen(FirstBlock());
    ValSnoc(FirstBlock(), 1, 256);
    Powers();
    hide Val, Pow;
  }

  lemma SecondNumber()
    ensures BlockNumber(SecondBlock()) == 0x16f7247206863726165736552206d7572
  {
    Sixteen(SecondBlock());
    ValSnoc(SecondBlock(), 1, 256);
    Powers();
    hide Val, Pow;
  }

  lemma LastNumber()
    ensures BlockNumber(LastBlock) == 0x17075
  {
    FourBytes(0x75, 0x70, 1, 0);
    ValSnoc([0x75, 0x70, 1], 0, 256);
    hide Val;
    assert [0x75, 0x70, 1, 0] == [0x75, 0x70, 1] + [0];
    assert LastBlock + [1] == [0x75, 0x70, 1];
  }

  // ---------------------------------------------------------------- the accumulator and the tag

  lemma Accumulated()
    ensures Accumulate(Message(), R) == 0x28d31b7caff946c77c8844335369d03a7
  {
    var m := Message();
    FirstNumber();
    SecondNumber();
    LastNumber();
    assert m[..0] == [] && m[0..16] == FirstBlock() && m[16..32] == SecondBlock() && m[32..34] == LastBlock;
    assert m[..34] == m;
    assert Accumulate([], R) == 0;
    hide Accumulate, BlockNumber, FirstBlock, SecondBlock, Message;
    AccumulateBlock(m, R, 0, 16);
    assert Accumulate(m[..16], R) == 0x2c88c77849d64ae9147ddeb88e69c83fc;
    AccumulateBlock(m, R, 16, 16);
    assert Accumulate(m[..32], R) == 0x2d8adaf23b0337fa7cccfb4ea344b30de;
    AccumulateBlock(m, R, 32, 2);
  }

  /** The tag, with its sixteen bytes in order from the least significant one. */
  lemma TagOfExample()
    ensures Tag(Message(), KeyR() + KeyS()) == 0xa927010caf8b2bc2c6365130c11d06a8
  {
    var k := KeyR() + KeyS();
    assert k[..16] == KeyR() && k[16..] == KeyS();
    KeyNumbers();
    Accumulated();
    assert Digits(k, 256);
    ClampedBytes();
    hide Val, Accumulate, Message, Clamped, KeyR, KeyS, Bits.And;
    ClampedNumber(k, Clamped());
  }

  lemma ClampedBytes()
    ensures var k, r := KeyR() + KeyS(), Clamped();
      && (forall j :: j in {3, 7, 11, 15} ==> r[j] == k[j] % 16)
      && (forall j :: j in {4, 8, 12} ==> r[j] == k[j] - k[j] % 4)
      && (forall j :: j in {0, 1, 2, 5, 6, 9, 10, 13, 14} ==> r[j] == k[j])
  {
    var k := KeyR() + KeyS();
    assert forall j :: 0 <= j < 16 ==> k[j] == KeyR()[j];
  }
}
