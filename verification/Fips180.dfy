/** SHA-256 as FIPS 180-4 defines it, on whole messages. Sections are those of the standard. */
module Fips180 {
  type byte = bv8
  type word = bv32

  const BLOCK: nat := 64
  const DIGEST: nat := 32

  function RotR(x: word, n: bv8): word
    requires n <= 32
  {
    (x >> n) | (x << (32 - n))
  }

  /** Addition modulo 2^32. */
  function Plus(x: word, y: word): word {
    x + y
  }

  function SumOf4(a: word, b: word, c: word, d: word): word { a + b + c + d }
  function SumOf5(a: word, b: word, c: word, d: word, e: word): word { a + b + c + d + e }

  // Section 4.1.2.
  function Ch(x: word, y: word, z: word): word { (x & y) ^ (!x & z) }
  function Maj(x: word, y: word, z: word): word { (x & y) ^ (x & z) ^ (y & z) }
  function UpperSigma0(x: word): word { RotR(x, 2) ^ RotR(x, 13) ^ RotR(x, 22) }
  function UpperSigma1(x: word): word { RotR(x, 6) ^ RotR(x, 11) ^ RotR(x, 25) }
  function LowerSigma0(x: word): word { RotR(x, 7) ^ RotR(x, 18) ^ (x >> 3) }
  function LowerSigma1(x: word): word { RotR(x, 17) ^ RotR(x, 19) ^ (x >> 10) }

  // Section 4.2.2.
  function K256(): (k: seq<word>)
    ensures |k| == 64
  {
    [0x428a2f98, 0x71374491, 0xb5c0fbcf, 0xe9b5dba5, 0x3956c25b, 0x59f111f1, 0x923f82a4, 0xab1c5ed5,
     0xd807aa98, 0x12835b01, 0x243185be, 0x550c7dc3, 0x72be5d74, 0x80deb1fe, 0x9bdc06a7, 0xc19bf174]
    + [0xe49b69c1, 0xefbe4786, 0x0fc19dc6, 0x240ca1cc, 0x2de92c6f, 0x4a7484aa, 0x5cb0a9dc, 0x76f988da,
       0x983e5152, 0xa831c66d, 0xb00327c8, 0xbf597fc7, 0xc6e00bf3, 0xd5a79147, 0x06ca6351, 0x14292967]
    + [0x27b70a85, 0x2e1b2138, 0x4d2c6dfc, 0x53380d13, 0x650a7354, 0x766a0abb, 0x81c2c92e, 0x92722c85,
       0xa2bfe8a1, 0xa81a664b, 0xc24b8b70, 0xc76c51a3, 0xd192e819, 0xd6990624, 0xf40e3585, 0x106aa070]
    + [0x19a4c116, 0x1e376c08, 0x2748774c, 0x34b0bcb5, 0x391c0cb3, 0x4ed8aa4a, 0x5b9cca4f, 0x682e6ff3,
       0x748f82ee, 0x78a5636f, 0x84c87814, 0x8cc70208, 0x90befffa, 0xa4506ceb, 0xbef9a3f7, 0xc67178f2]
  }

  // Section 5.3.3.
  function IV(): (h: seq<word>)
    ensures |h| == 8
  {
    [0x6a09e667, 0xbb67ae85, 0x3c6ef372, 0xa54ff53a, 0x510e527f, 0x9b05688c, 0x1f83d9ab, 0x5be0cd19]
  }

  /** Four bytes, most significant first (section 3.1). */
  function WordOf(b: seq<byte>): word
    requires |b| == 4
  {
    ((b[0] as word) << 24) | ((b[1] as word) << 16) | ((b[2] as word) << 8) | (b[3] as word)
  }

  function BytesOf(w: word): (b: seq<byte>)
    ensures |b| == 4
  {
    [((w >> 24) & 0xff) as byte, ((w >> 16) & 0xff) as byte, ((w >> 8) & 0xff) as byte, (w & 0xff) as byte]
  }

  function Bytes(ws: seq<word>): (b: seq<byte>)
    ensures |b| == 4 * |ws|
  {
    if ws == [] then [] else Bytes(ws[..|ws| - 1]) + BytesOf(ws[|ws| - 1])
  }

  /** The first n words of the message schedule of one block (section 6.2.2, step 1). */
  function Schedule(block: seq<byte>, n: nat): (w: seq<word>)
    requires |block| == BLOCK && n <= 64
    ensures |w| == n
  {
    if n == 0 then []
    else
      var w, t := Schedule(block, n - 1), n - 1;
      if t < 16 then w + [WordOf(block[4 * t..4 * t + 4])]
      else w + [NextWord(w)]
  }

  /** W(t) from W(0) .. W(t-1), for t of 16 and more. */
  function NextWord(w: seq<word>): word
    requires |w| >= 16
  {
    var t := |w|;
    SumOf4(LowerSigma1(w[t - 2]), w[t - 7], LowerSigma0(w[t - 15]), w[t - 16])
  }

  datatype Working = Working(a: word, b: word, c: word, d: word, e: word, f: word, g: word, h: word)

  function FromHash(h: seq<word>): Working
    requires |h| == 8
  {
    Working(h[0], h[1], h[2], h[3], h[4], h[5], h[6], h[7])
  }

  /** One round (step 3) with constant k and schedule word w. */
  function Round(v: Working, k: word, w: word): Working {
    var t1 := SumOf5(v.h, UpperSigma1(v.e), Ch(v.e, v.f, v.g), k, w);
    var t2 := Plus(UpperSigma0(v.a), Maj(v.a, v.b, v.c));
    Working(Plus(t1, t2), v.a, v.b, v.c, Plus(v.d, t1), v.e, v.f, v.g)
  }

  function Rounds(v: Working, w: seq<word>, n: nat): Working
    requires n <= 64 && n <= |w|
  {
    if n == 0 then v else Round(Rounds(v, w, n - 1), K256()[n - 1], w[n - 1])
  }

  /** The hash value after one more block (steps 2 to 4). */
  function Compress(h: seq<word>, block: seq<byte>): (r: seq<word>)
    requires |h| == 8 && |block| == BLOCK
    ensures |r| == 8
  {
    AddWords(h, Rounds(FromHash(h), Schedule(block, 64), 64))
  }

  function AddWords(h: seq<word>, v: Working): (r: seq<word>)
    requires |h| == 8
    ensures |r| == 8
  {
    [Plus(h[0], v.a), Plus(h[1], v.b), Plus(h[2], v.c), Plus(h[3], v.d),
     Plus(h[4], v.e), Plus(h[5], v.f), Plus(h[6], v.g), Plus(h[7], v.h)]
  }

  /** The hash value after whole blocks. */
  function Absorb(h: seq<word>, m: seq<byte>): (r: seq<word>)
    requires |h| == 8 && |m| % BLOCK == 0
    ensures |r| == 8
  {
    if m == [] then h else Compress(Absorb(h, m[..|m| - BLOCK]), m[|m| - BLOCK..])
  }

  function Zeros(n: nat): (z: seq<byte>)
    ensures |z| == n
  {
    seq(n, _ => 0)
  }

  /** A length in bits as a 64-bit number, two words; from 2^64 bits on it is taken modulo 2^64. */
  function LengthField(bits: nat): (b: seq<byte>)
    ensures |b| == 8
  {
    BytesOf(HighWord(bits) as word) + BytesOf(LowWord(bits) as word)
  }

  function HighWord(bits: nat): (w: nat)
    ensures w < 0x1_0000_0000
  {
    bits / 0x1_0000_0000 % 0x1_0000_0000
  }

  function LowWord(bits: nat): (w: nat)
    ensures w < 0x1_0000_0000
  {
    bits % 0x1_0000_0000
  }

  /** Section 5.1.1: a one bit, the fewest zeros that leave 8 bytes of the last block, the length. */
  function Pad(m: seq<byte>): (p: seq<byte>)
    ensures |p| % 64 == 0 && |p| == |m| + 9 + PadZeros(|m|)
  {
    hide *;
    m + [0x80] + Zeros(PadZeros(|m|)) + LengthField(8 * |m|)
  }

  /** The least number of zeros after which a block has exactly 8 bytes left. */
  function PadZeros(n: nat): (k: nat)
    ensures k < 64 && (n + 9 + k) % 64 == 0
  {
    (119 - n % 64) % 64
  }

  function Digest(m: seq<byte>): (d: seq<byte>)
    ensures |d| == DIGEST
  {
    Bytes(Absorb(IV(), Pad(m)))
  }

  // ---------------------------------------------------------------- facts about the definitions

  lemma AbsorbBlock(h: seq<word>, m: seq<byte>, block: seq<byte>)
    requires |h| == 8 && |m| % BLOCK == 0 && |block| == BLOCK
    ensures (|m| + BLOCK) % BLOCK == 0 && Absorb(h, m + block) == Compress(Absorb(h, m), block)
  {
    hide Compress;
    var w := m + block;
    assert w[..|w| - BLOCK] == m && w[|w| - BLOCK..] == block;
  }

  lemma BytesSnoc(ws: seq<word>, w: word)
    ensures Bytes(ws + [w]) == Bytes(ws) + BytesOf(w)
  {
    assert (ws + [w])[..|ws|] == ws;
  }

  /**
   * The padded message: the message, a byte 0x80, zeros, and the length in eight bytes; whole blocks, and no fewer
   * would hold it.
   */
  lemma Padding(m: seq<byte>)
    ensures var p := Pad(m);
      && |p| % 64 == 0 && |m| + 9 <= |p| < |m| + 9 + 64
      && p[..|m|] == m && p[|m|] == 0x80 && (forall i :: |m| < i < |p| - 8 ==> p[i] == 0)
      && p[|p| - 8..] == LengthField(8 * |m|)
  {
    hide LengthField, PadZeros;
  }

  /** The words of a schedule do not depend on how long the schedule is. */
  lemma {:induction false} SchedulePrefix(block: seq<byte>, n: nat, m: nat)
    requires |block| == BLOCK && n <= m <= 64
    ensures Schedule(block, m)[..n] == Schedule(block, n)
  {
    hide NextWord, WordOf;
    if n < m { SchedulePrefix(block, n, m - 1); }
  }

  /** What the standard says of each schedule word. */
  lemma {:induction false} ScheduleWord(block: seq<byte>, t: nat)
    requires |block| == BLOCK && t < 64
    ensures Schedule(block, 64)[t]
      == if t < 16 then WordOf(block[4 * t..4 * t + 4]) else NextWord(Schedule(block, 64)[..t])
  {
    hide NextWord, WordOf;
    SchedulePrefix(block, t + 1, 64);
    SchedulePrefix(block, t, 64);
    assert Schedule(block, 64)[t] == Schedule(block, 64)[..t + 1][t];
  }
}
