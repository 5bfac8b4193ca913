/** The sizes of malloc.c. */
module MallocSizes {
  // In bytes, for any word size W; and lengths in words.

  import Limbs

  const ALIGN: nat := 2
  const BINS: nat := 50
  /** BIGBLOCK, in words. */
  const BIG: nat := 131072

  /** bin2size: what a chunk of bin b can hold, in bytes. */
  function Bin2Size(W: nat, b: int): int {
    ((b + 1) * ALIGN - 1) * W
  }

  /** size2bin */
  function Size2Bin(W: nat, s: int): int
    requires W > 0
  {
    if s > Bin2Size(W, BINS - 1) then -1 else (s + (W * (ALIGN - 1) - 1)) / (W * ALIGN)
  }

  /** How many words n bytes take. */
  function WordsFor(W: nat, n: nat): nat
    requires W > 0
  {
    (n + W - 1) / W
  }

  lemma BinIsOdd(W: nat, b: int)
    ensures Bin2Size(W, b) == 2 * (b * W) + W
  {
  }

  lemma LessFromProduct(a: int, b: int, W: nat)
    requires W > 0 && a * W < b * W
    ensures a < b
  {
    if a >= b {
      Limbs.MulNonNeg(a - b, W);
      Limbs.Distribute(a, b, W);
    }
  }

  lemma Quotient(x: nat, m: nat) returns (q: nat, r: nat)
    requires m > 0
    ensures x == q * m + r && r < m && x / m == q && x % m == r
  {
    q, r := x / m, x % m;
  }

  /** The bin chosen for a size is the smallest whose chunks hold it. */
  lemma SizeFits(W: nat, s: nat)
    requires W > 0 && s <= Bin2Size(W, BINS - 1)
    ensures var b := Size2Bin(W, s);
      0 <= b < BINS && s <= Bin2Size(W, b) && (b > 0 ==> s > Bin2Size(W, b - 1))
  {
    var m := W * ALIGN;
    var q, r := Quotient(s + (W * (ALIGN - 1) - 1), m);
    Limbs.Assoc(q, W, ALIGN);
    var u := q * W;
    assert q * m == 2 * u;
    BinIsOdd(W, q);
    BinIsOdd(W, q - 1);
    BinIsOdd(W, BINS - 1);
    Limbs.Distribute(q, 1, W);
    Limbs.Distribute(BINS, 1, W);
    hide Bin2Size;
    assert u < BINS * W;
    LessFromProduct(q, BINS, W);
  }

  /** Bins and their sizes correspond one to one. */
  lemma BinBack(W: nat, b: nat)
    requires W > 0 && b < BINS
    ensures Bin2Size(W, b) <= Bin2Size(W, BINS - 1) && Size2Bin(W, Bin2Size(W, b)) == b
  {
    BinIsOdd(W, b);
    BinIsOdd(W, BINS - 1);
    Limbs.MulNonNeg(BINS - 1 - b, W);
    Limbs.Distribute(BINS - 1, b, W);
    Limbs.MulNonNeg(b, W);
    var s := Bin2Size(W, b);
    Limbs.Assoc(b, W, ALIGN);
    Limbs.RemainderIs(s + (W * (ALIGN - 1) - 1), W * ALIGN, b, 2 * W - 1);
    hide Bin2Size;
  }

  /** A chunk of bin b is 2b + 1 words and a header. */
  lemma BinWords(W: nat, b: nat)
    requires W > 0
    ensures Bin2Size(W, b) >= 0 && WordsFor(W, Bin2Size(W, b)) == 2 * b + 1 && (Bin2Size(W, b) + W) / W == 2 * b + 2
  {
    var n := 2 * b + 1;
    assert Bin2Size(W, b) == n * W;
    Limbs.MulNonNeg(n, W);
    Limbs.Distribute(n, 1, W);
    Limbs.RemainderIs(n * W + W - 1, W, n, W - 1);
    Limbs.RemainderIs(n * W + W, W, n + 1, 0);
    hide Bin2Size;
  }

  /** How many chunks a big block yields, in terms of words. */
  lemma ChunkCount(W: nat, b: nat)
    requires W > 0 && b < BINS
    ensures Bin2Size(W, b) + W > 0
    ensures var n := (BIG * W - W) / (Bin2Size(W, b) + W);
      n == (BIG - 1) / (2 * b + 2) && n >= 1 && n * (2 * b + 2) <= BIG - 1
  {
    var k := 2 * b + 2;
    var n, r := Quotient(BIG - 1, k);
    assert Bin2Size(W, b) + W == k * W by {
      assert Bin2Size(W, b) == (k - 1) * W;
      Limbs.Distribute(k, 1, W);
    }
    hide Bin2Size;
    Limbs.MulAtLeast(k, W);
    Limbs.Distribute(BIG, 1, W);
    Limbs.Distribute(n * k, r, W);
    Limbs.Assoc(n, k, W);
    Limbs.MulNonNeg(r, W);
    Limbs.MulNonNeg(k - r - 1, W);
    Limbs.Distribute(k - r, 1, W);
    Limbs.Distribute(k, r, W);
    Limbs.RemainderIs(BIG * W - W, k * W, n, r * W);
  }

  lemma BigWords(W: nat, n: nat)
    requires W > 0
    ensures WordsFor(W, BIG * W) == BIG && WordsFor(W, n + 2 * W) == WordsFor(W, n) + 2
  {
    Limbs.RemainderIs(BIG * W + W - 1, W, BIG, W - 1);
    var q, r := Quotient(n + W - 1, W);
    Limbs.Distribute(q, 2, W);
    Limbs.RemainderIs(n + 2 * W + W - 1, W, q + 2, r);
  }

  /** A chunk has room for what was asked. */
  lemma WordsEnough(W: nat, n: nat)
    requires W > 0
    ensures WordsFor(W, n) * W >= n
  {
    var q, r := Quotient(n + W - 1, W);
  }
}
