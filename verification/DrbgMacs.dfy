/** The generator in HMACs. */
module DrbgMacs {
  // What sections 10.1.2.2 to 10.1.2.5 of NIST SP 800-90A come to on K, V and the bytes returned.

  import opened Wrappers
  import opened Fips180
  import opened HmacSha256
  import opened HmacDrbg
  import opened Sp800_90A

  // ---------------------------------------------------------------- the update of the state

  /** Two codes without provided data, and four with it. */
  lemma UpdateMacs(s: State, provided: seq<byte>)
    ensures Update(s, provided).counter == s.counter
    ensures provided == [] ==>
      Update(s, provided).K == Mac(s.K, s.V + [0]) && Update(s, provided).V == Mac(Update(s, provided).K, s.V)
    ensures provided != [] ==>
      var k := Mac(s.K, s.V + [0] + provided);
      var v := Mac(k, s.V);
      Update(s, provided).K == Mac(k, v + [1] + provided) && Update(s, provided).V == Mac(Update(s, provided).K, v)
  {
    hide Mac;
    assert provided == [] ==> s.V + [0] + provided == s.V + [0];
  }

  /** Reseeding and instantiating update with everything that was gathered, and count from 1. */
  lemma ReseedMacs(s: State, entropy: seq<byte>, additional: seq<byte>)
    requires entropy != []
    ensures var p := entropy + additional;
      var k := Mac(s.K, s.V + [0] + p);
      var v := Mac(k, s.V);
      var t := Reseed(s, entropy, additional);
      t.K == Mac(k, v + [1] + p) && t.V == Mac(t.K, v) && t.counter == 1
  {
    hide Mac;
    UpdateMacs(s, entropy + additional);
  }

  /** From a key of zeros and a V of ones. */
  lemma InstantiateMacs(material: seq<byte>)
    requires material != []
    ensures var zeros, ones := seq(32, _ => 0), seq(32, _ => 1);
      var k := Mac(zeros, ones + [0] + material);
      var v := Mac(k, ones);
      var t := Instantiate(material);
      t.K == Mac(k, v + [1] + material) && t.V == Mac(t.K, v) && t.counter == 1
  {
    hide Mac;
    assert Zeros(32) == seq(32, _ => 0) && Ones(32) == seq(32, _ => 1);
    UpdateMacs(State(Zeros(32), Ones(32), 0), material);
  }

  // ---------------------------------------------------------------- the bytes of a request

  lemma StreamBlock(k: seq<byte>, v: seq<byte>, n: nat, j: nat)
    requires j < n
    ensures Stream(k, v, n)[32 * j..32 * j + 32] == Chain(k, v, j + 1)
  {
    hide Chain;
    StreamPrefix(k, v, j + 1, n);
    var out, head := Stream(k, v, n), Stream(k, v, j) + Chain(k, v, j + 1);
    assert out[..32 * (j + 1)] == head;
    hide Stream;
    assert out[32 * j..32 * j + 32] == out[..32 * (j + 1)][32 * j..];
  }

  /** Blocks are codes of the one before, the first of V; the last one is what V becomes. */
  lemma StreamMacs(k: seq<byte>, v: seq<byte>, n: nat, j: nat)
    requires j < n
    ensures var out := Stream(k, v, n);
      && out[..32] == Mac(k, v)
      && (j > 0 ==> out[32 * j..32 * j + 32] == Mac(k, out[32 * (j - 1)..32 * j]))
      && out[32 * (n - 1)..] == Chain(k, v, n)
  {
    hide Mac, Stream, Chain;
    FirstBlock(k, v, n);
    LastBlock(k, v, n);
    if j > 0 { NextBlock(k, v, n, j); }
  }

  lemma FirstBlock(k: seq<byte>, v: seq<byte>, n: nat)
    requires n > 0
    ensures Stream(k, v, n)[..32] == Mac(k, v)
  {
    assert Chain(k, v, 1) == Mac(k, v);
    hide Mac, Stream, Chain;
    StreamBlock(k, v, n, 0);
    assert Stream(k, v, n)[0..32] == Stream(k, v, n)[..32];
  }

  lemma LastBlock(k: seq<byte>, v: seq<byte>, n: nat)
    requires n > 0
    ensures Stream(k, v, n)[32 * (n - 1)..] == Chain(k, v, n)
  {
    hide Stream, Chain;
    StreamBlock(k, v, n, n - 1);
    var out, i := Stream(k, v, n), 32 * (n - 1);
    assert |out| == i + 32 && out[i..] == out[i..i + 32];
  }

  lemma NextBlock(k: seq<byte>, v: seq<byte>, n: nat, j: nat)
    requires 0 < j < n
    ensures var out := Stream(k, v, n); out[32 * j..32 * j + 32] == Mac(k, out[32 * (j - 1)..32 * j])
  {
    assert Chain(k, v, j + 1) == Mac(k, Chain(k, v, j));
    hide Mac, Stream, Chain;
    StreamBlock(k, v, n, j);
    StreamBlock(k, v, n, j - 1);
    assert 32 * (j - 1) + 32 == 32 * j;
  }

  /**
   * A request of n whole blocks without additional input: its first block, each block j after it, and from the last
   * block the new state.
   */
  lemma PlainRequest(s: State, n: nat, j: nat)
    requires j < n
    ensures var (out, t) := Generate(s, 32 * n, []);
      && out[..32] == Mac(s.K, s.V)
      && (j > 0 ==> out[32 * j..32 * j + 32] == Mac(s.K, out[32 * (j - 1)..32 * j]))
      && var b := out[32 * (n - 1)..];
        t.K == Mac(s.K, b + [0]) && t.V == Mac(t.K, b) && t.counter == s.counter + 1
  {
    WholeBlocks(s, n, []);
    hide Mac, Stream, Chain, Update, Generate;
    UpdateMacs(s.(V := Chain(s.K, s.V, n)), []);
    StreamMacs(s.K, s.V, n, j);
  }

  /** The same with additional input, which enters the state before and after. */
  lemma RequestWithInput(s: State, n: nat, a: seq<byte>, j: nat)
    requires j < n && a != []
    ensures var (out, t) := Generate(s, 32 * n, a);
      var k0 := Mac(s.K, s.V + [0] + a);
      var v0 := Mac(k0, s.V);
      var k := Mac(k0, v0 + [1] + a);
      && out[..32] == Mac(k, Mac(k, v0))
      && (j > 0 ==> out[32 * j..32 * j + 32] == Mac(k, out[32 * (j - 1)..32 * j]))
      && var b := out[32 * (n - 1)..];
        var k1 := Mac(k, b + [0] + a);
        var v1 := Mac(k1, b);
        t.K == Mac(k1, v1 + [1] + a) && t.V == Mac(t.K, v1) && t.counter == s.counter + 1
  {
    var s1 := Update(s, a);
    WholeBlocks(s, n, a);
    hide Mac, Stream, Chain, Update, Generate;
    UpdateMacs(s, a);
    UpdateMacs(s1.(V := Chain(s1.K, s1.V, n)), a);
    StreamMacs(s1.K, s1.V, n, j);
  }

  lemma WholeBlocks(s: State, n: nat, a: seq<byte>)
    ensures var s1 := if a == [] then s else Update(s, a);
      Generate(s, 32 * n, a)
      == (Stream(s1.K, s1.V, n), Update(s1.(V := Chain(s1.K, s1.V, n)), a).(counter := s.counter + 1))
  {
    hide Mac, Stream, Chain, Update;
    assert BlocksFor(32 * n) == n;
    var s1 := if a == [] then s else Update(s, a);
    var full := Stream(s1.K, s1.V, n);
    assert full[..32 * n] == full;
  }

  /** A request that does not end with a block returns the first bytes of one that does, and leaves the same state. */
  lemma PartRequest(s: State, len: nat, a: seq<byte>)
    ensures Generate(s, len, a).0 == Generate(s, 32 * BlocksFor(len), a).0[..len]
    ensures Generate(s, len, a).1 == Generate(s, 32 * BlocksFor(len), a).1
  {
    assert BlocksFor(32 * BlocksFor(len)) == BlocksFor(len);
    hide Update, Stream, Chain, BlocksFor;
    ShorterRequest(s, a, len, 32 * BlocksFor(len));
  }

  // ---------------------------------------------------------------- the call

  /** What a call answers. */
  lemma RandomReturns(c: Settings, len: nat, additional: Option<seq<byte>>, addLen: nat, e: Entropy)
    requires Sized(additional, addLen)
    ensures var (d, ret, out) := RandomCall(c, len, additional, addLen, e);
      var reseeds := c.resistance == 1 || c.s.counter > c.interval;
      && ret == (if len > 1024 then -0x0003
                 else if addLen > 256 || (reseeds && c.entropyLen + addLen > 384) then -0x0005
                 else if reseeds && e.Fails? then -0x0009 else 0)
      && (ret != 0 ==> d == c && out == []) && (ret == 0 ==> |out| == len)
  {
    hide Reseed, Generate, Provided;
  }

  /** A call for whole blocks that need not reseed, without additional input. */
  lemma PlainCall(c: Settings, n: nat, e: Entropy, j: nat)
    requires j < n <= 32 && c.resistance != 1 && c.s.counter <= c.interval
    ensures var (d, ret, out) := RandomCall(c, 32 * n, None, 0, e);
      && ret == 0 && |out| == 32 * n
      && out[..32] == Mac(c.s.K, c.s.V)
      && (j > 0 ==> out[32 * j..32 * j + 32] == Mac(c.s.K, out[32 * (j - 1)..32 * j]))
      && var b := out[32 * (n - 1)..];
        d.s.K == Mac(c.s.K, b + [0]) && d.s.V == Mac(d.s.K, b) && d.s.counter == c.s.counter + 1
  {
    hide Mac, Generate;
    PlainRequest(c.s, n, j);
  }

  /** With additional input. */
  lemma CallWithInput(c: Settings, n: nat, a: seq<byte>, e: Entropy, j: nat)
    requires j < n <= 32 && 0 < |a| <= 256 && c.resistance != 1 && c.s.counter <= c.interval
    ensures var (d, ret, out) := RandomCall(c, 32 * n, Some(a), |a|, e);
      var k0 := Mac(c.s.K, c.s.V + [0] + a);
      var v0 := Mac(k0, c.s.V);
      var k := Mac(k0, v0 + [1] + a);
      && ret == 0 && |out| == 32 * n
      && out[..32] == Mac(k, Mac(k, v0))
      && (j > 0 ==> out[32 * j..32 * j + 32] == Mac(k, out[32 * (j - 1)..32 * j]))
      && var b := out[32 * (n - 1)..];
        var k1 := Mac(k, b + [0] + a);
        var v1 := Mac(k1, b);
        d.s.K == Mac(k1, v1 + [1] + a) && d.s.V == Mac(d.s.K, v1) && d.s.counter == c.s.counter + 1
  {
    hide Mac, Generate;
    assert a[..|a|] == a;
    RequestWithInput(c.s, n, a, j);
  }

  /** A call that reseeds first: the input goes into the reseeding, and not into the request again. */
  lemma ReseedingCall(c: Settings, n: nat, additional: Option<seq<byte>>, addLen: nat, stream: nat -> byte, j: nat)
    requires Sized(additional, addLen) && j < n <= 32 && (c.resistance == 1 || c.s.counter > c.interval)
    requires addLen <= 256 && 0 < c.entropyLen && c.entropyLen + addLen <= 384
    ensures var (d, ret, out) := RandomCall(c, 32 * n, additional, addLen, Gives(stream));
      var p := Take(stream, c.entropyLen) + Provided(additional, addLen);
      var k0 := Mac(c.s.K, c.s.V + [0] + p);
      var v0 := Mac(k0, c.s.V);
      var k := Mac(k0, v0 + [1] + p);
      && ret == 0 && |out| == 32 * n
      && out[..32] == Mac(k, Mac(k, v0))
      && (j > 0 ==> out[32 * j..32 * j + 32] == Mac(k, out[32 * (j - 1)..32 * j]))
      && var b := out[32 * (n - 1)..];
        d.s.K == Mac(k, b + [0]) && d.s.V == Mac(d.s.K, b) && d.s.counter == 2
  {
    hide Mac, Generate, Reseed, Take, Provided;
    var entropy := Take(stream, c.entropyLen);
    assert entropy != [];
    ReseedMacs(c.s, entropy, Provided(additional, addLen));
    PlainRequest(Reseed(c.s, entropy, Provided(additional, addLen)), n, j);
  }

  /** Reseeding alone: what it answers, and the new state. */
  lemma ReseedReturns(c: Settings, additional: Option<seq<byte>>, addLen: nat, e: Entropy)
    requires Sized(additional, addLen) && c.entropyLen > 0
    ensures var (d, ret) := ReseedCall(c, additional, addLen, e);
      && ret == (if addLen > 256 || c.entropyLen + addLen > 384 then -0x0005 else if e.Fails? then -0x0009 else 0)
      && (ret != 0 ==> d == c)
      && (ret == 0 ==>
            var p := Take(e.stream, c.entropyLen) + Provided(additional, addLen);
            var k := Mac(c.s.K, c.s.V + [0] + p);
            var v := Mac(k, c.s.V);
            d.s.K == Mac(k, v + [1] + p) && d.s.V == Mac(d.s.K, v) && d.s.counter == 1 && d == c.(s := d.s))
  {
    hide Mac, Reseed, Take, Provided;
    if e.Gives? {
      var entropy := Take(e.stream, c.entropyLen);
      assert entropy != [];
      ReseedMacs(c.s, entropy, Provided(additional, addLen));
    }
  }

  /** Seeding that gets its memory: keyed by the old V, with 48 bytes of entropy, and 32 for each later reseeding. */
  lemma SeedReturns(c: Settings, custom: Option<seq<byte>>, len: nat, e: Entropy)
    requires Sized(custom, len)
    ensures var (d, ret) := SeedCall(c, custom, len, e);
      && ret == (if len > 256 then -0x0005 else if e.Fails? then -0x0009 else 0)
      && d.interval == 10000 && d.resistance == c.resistance
      && (ret == 0 ==>
            var p, ones := Take(e.stream, 48) + Provided(custom, len), seq(32, _ => 1);
            var k := Mac(c.s.V, ones + [0] + p);
            var v := Mac(k, ones);
            && d.s.K == Mac(k, v + [1] + p) && d.s.V == Mac(d.s.K, v) && d.s.counter == 1
            && d.entropyLen == 32)
  {
    hide Mac, ReseedCall, Take, Provided;
    assert Ones(32) == seq(32, _ => 1);
    ReseedReturns(SetUp(c).(entropyLen := 48, interval := RESEED_INTERVAL), custom, len, e);
  }
}
