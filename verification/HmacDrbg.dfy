/** The deterministic random bit generator of hmacdrbg/hmac_drbg.c. */
module HmacDrbg {
  import opened Wrappers
  import opened Fips180
  import opened Buffers
  import opened Sha256
  import opened HmacSha256
  import Spec = Sp800_90A

  const MAX_INPUT: nat := 256
  const MAX_REQUEST: nat := 1024
  const MAX_SEED_INPUT: nat := 384
  const RESEED_INTERVAL: int := 10000
  const PR_ON: int := 1

  const REQUEST_TOO_BIG: int := -0x0003
  const INPUT_TOO_BIG: int := -0x0005
  const ENTROPY_SOURCE_FAILED: int := -0x0009
  const ALLOC_FAILED: int := -0x5180

  /** What the entropy source does when asked: fail, or fill any buffer. */
  datatype Entropy = Fails | Gives(stream: nat -> byte)

  function Take(stream: nat -> byte, n: nat): (s: seq<byte>)
    ensures |s| == n
  {
    seq(n, i requires 0 <= i < n => stream(i))
  }

  /** Additional input: a pointer, which may be NULL, and a length. */
  predicate Sized(additional: Option<seq<byte>>, len: nat) {
    additional.Some? ==> len <= |additional.value|
  }

  function Provided(additional: Option<seq<byte>>, len: nat): seq<byte>
    requires Sized(additional, len)
  {
    if additional.Some? then additional.value[..len] else []
  }

  // ---------------------------------------------------------------- what each call should do

  /** A context as a caller may know it: the internal state of the standard and the three settings. */
  datatype Settings = Settings(s: Spec.State, entropyLen: nat, resistance: int, interval: int)

  /** SP 800-90A section 9.2. */
  function ReseedCall(c: Settings, additional: Option<seq<byte>>, len: nat, e: Entropy): (Settings, int)
    requires Sized(additional, len)
  {
    if len > MAX_INPUT || c.entropyLen + len > MAX_SEED_INPUT then (c, INPUT_TOO_BIG)
    else if e.Fails? then (c, ENTROPY_SOURCE_FAILED)
    else (c.(s := Spec.Reseed(c.s, Take(e.stream, c.entropyLen), Provided(additional, len))), 0)
  }

  function NeedsReseed(c: Settings): bool {
    c.resistance == PR_ON || c.s.counter > c.interval
  }

  /** SP 800-90A section 9.3: additional input that went into a reseed is not used again. */
  function RandomCall(c: Settings, len: nat, additional: Option<seq<byte>>, addLen: nat, e: Entropy):
      (Settings, int, seq<byte>)
    requires Sized(additional, addLen)
  {
    if len > MAX_REQUEST then (c, REQUEST_TOO_BIG, [])
    else if addLen > MAX_INPUT then (c, INPUT_TOO_BIG, [])
    else if NeedsReseed(c) then
      var (d, ret) := ReseedCall(c, additional, addLen, e);
      if ret != 0 then (d, ret, [])
      else
        var (out, s) := Spec.Generate(d.s, len, []);
        (d.(s := s), 0, out)
    else
      var (out, s) := Spec.Generate(c.s, len, Provided(additional, addLen));
      (c.(s := s), 0, out)
  }

  /** What both seed functions make of a context before they take input: the key is the old V, V is all ones. */
  function SetUp(c: Settings): Settings {
    c.(s := Spec.State(c.s.V, Spec.Ones(DIGEST), c.s.counter))
  }

  /** Seeding: 48 bytes of entropy, which include the nonce; later reseeds take 32. */
  function SeedCall(c: Settings, custom: Option<seq<byte>>, len: nat, e: Entropy): (Settings, int)
    requires Sized(custom, len)
  {
    var (d, ret) := ReseedCall(SetUp(c).(entropyLen := 48, interval := RESEED_INTERVAL), custom, len, e);
    (if ret == 0 then d.(entropyLen := 32) else d, ret)
  }

  function SeedBufCall(c: Settings, data: Option<seq<byte>>, len: nat): Settings
    requires Sized(data, len)
  {
    var d := SetUp(c);
    d.(s := Spec.Update(d.s, Provided(data, len)))
  }

  /** A context at any time: until a seed function has got its memory there is no key, and only the settings matter. */
  datatype View = View(live: bool, c: Settings)

  // ---------------------------------------------------------------- the context

  /** mbedtls_hmac_drbg_context; K is nowhere but in the saved hashes of hmac. */
  class Drbg {
    var hmac: HmacContext?
    const V: array<byte>
    var reseedCounter: int
    var entropyLen: nat
    var predictionResistance: int
    var reseedInterval: int

    ghost function Repr(): set<object>
      reads this
    {
      {this, V} + (if hmac == null then {} else hmac.Repr)
    }

    ghost predicate Fits()
      reads this
    {
      V.Length == DIGEST && (hmac != null ==> hmac.Fits() && this !in hmac.Repr && V !in hmac.Repr)
    }

    /** Set up and keyed. */
    ghost predicate Live()
      reads this, Repr()
    {
      Fits() && hmac != null && hmac.Keyed()
    }

    ghost function State(): Spec.State
      reads this, Repr()
      requires Live()
    {
      Spec.State(hmac.key, V[..], reseedCounter)
    }

    ghost function Abs(): Settings
      reads this, Repr()
      requires Live()
    {
      Settings(State(), entropyLen, predictionResistance, reseedInterval)
    }

    /** Initialised, and keyed if memory for the HMAC context has been got. */
    ghost predicate Valid()
      reads this, Repr()
    {
      Fits() && (hmac != null ==> hmac.Keyed())
    }

    ghost function Now(): View
      reads this, Repr()
      requires Valid()
    {
      View(hmac != null, Settings(Spec.State(if hmac == null then [] else hmac.key, V[..], reseedCounter),
                                  entropyLen, predictionResistance, reseedInterval))
    }

    /** mbedtls_hmac_drbg_init */
    constructor ()
      ensures Valid() && fresh(Repr())
      ensures Now() == View(false, Settings(Spec.State([], Zeros(DIGEST), 0), 0, 0, 0))
    {
      V := new byte[DIGEST](_ => 0);
      hmac := null;
      reseedCounter, entropyLen, predictionResistance, reseedInterval := 0, 0, 0, 0;
    }

    /** mbedtls_hmac_drbg_update */
    method Update(additional: Option<seq<byte>>, addLen: nat)
      requires Live() && Sized(additional, addLen)
      modifies Repr()
      ensures Live() && Repr() == old(Repr()) && hmac == old(hmac)
      ensures Abs() == old(Abs()).(s := Spec.Update(old(State()), Provided(additional, addLen)))
    {
      hide Mac, Stands, InnerPad, OuterPad, Spec.UpdateStep, Digest;
      ghost var s0 := State();
      ghost var provided := Provided(additional, addLen);
      var rounds := if addLen != 0 && additional.Some? then 2 else 1;
      for sep := 0 to rounds
        invariant Live() && Repr() == old(Repr()) && hmac == old(hmac)
        invariant State() == UpdateSteps(s0, provided, sep)
        invariant Abs() == old(Abs()).(s := State())
      {
        UpdateRound(sep, if rounds == 2 then Some(additional.value[..addLen]) else None);
      }
    }

    /** The loop body of mbedtls_hmac_drbg_update. */
    method UpdateRound(sep: nat, additional: Option<seq<byte>>)
      requires Live() && sep < 2
      modifies hmac.Repr, V
      ensures Live()
      ensures State() == Spec.UpdateStep(old(State()), sep as byte, if additional.Some? then additional.value else [])
    {
      hide Mac, Stands, InnerPad, OuterPad, Digest;
      ghost var k, v := hmac.key, V[..];
      var K := new byte[DIGEST];
      hmac.Init(None);
      hmac.Update(V[..]);
      hmac.Update([sep as byte]);
      if additional.Some? {
        hmac.Update(additional.value);
      }
      ghost var text := v + [sep as byte] + (if additional.Some? then additional.value else []);
      assert hmac.text == text;
      hmac.Final(K);
      assert K[..] == K[..DIGEST];
      hmac.Init(Some(K[..]));
      hmac.Update(V[..]);
      assert [] + v == v;
      hmac.Final(V);
      assert V[..] == V[..DIGEST];
    }

    /** mbedtls_hmac_drbg_reseed; a reseed that fails changes nothing. */
    method Reseed(additional: Option<seq<byte>>, len: nat, e: Entropy) returns (ret: int)
      requires Live() && Sized(additional, len)
      modifies Repr()
      ensures Live() && Repr() == old(Repr()) && hmac == old(hmac)
      ensures (Abs(), ret) == ReseedCall(old(Abs()), additional, len, e)
    {
      hide Spec.Update, Stands, Mac, InnerPad, OuterPad, Digest, Take, Provided;
      if len > MAX_INPUT || entropyLen + len > MAX_SEED_INPUT {
        return INPUT_TOO_BIG;
      }
      if e.Fails? {
        return ENTROPY_SOURCE_FAILED;
      }
      var seed, seedLen := GatherSeed(e.stream, additional, len);
      SeedProvided(seed[..seedLen], seedLen);
      Update(Some(seed[..seedLen]), seedLen);
      reseedCounter := 1;
      ret := 0;
    }

    /** The part of mbedtls_hmac_drbg_reseed that fills the seed buffer. */
    method GatherSeed(stream: nat -> byte, additional: Option<seq<byte>>, len: nat)
      returns (seed: array<byte>, seedLen: nat)
      requires Sized(additional, len) && entropyLen + len <= MAX_SEED_INPUT
      ensures fresh(seed) && seedLen <= seed.Length
      ensures seed[..seedLen] == Take(stream, entropyLen) + Provided(additional, len)
    {
      seed := new byte[MAX_SEED_INPUT](_ => 0);
      Copy(seed, 0, Take(stream, entropyLen));
      seedLen := entropyLen;
      if additional.Some? && len != 0 {
        Copy(seed, seedLen, additional.value[..len]);
        seedLen := seedLen + len;
      }
    }

    /** mbedtls_md_setup followed by the first lines of both seed functions: K is the old V, V is all ones. */
    method SetUpMemory(memory: bool) returns (ret: int)
      requires Valid()
      modifies this, V
      ensures ret == if memory then 0 else ALLOC_FAILED
      ensures !memory ==> unchanged(this, V)
      ensures Valid() && fresh(Repr() - old(Repr()))
      ensures memory ==> Live() && fresh(hmac.Repr) && Abs() == SetUp(old(Now()).c)
    {
      hide Stands, Mac, InnerPad, OuterPad, Digest;
      if !memory {
        return ALLOC_FAILED;
      }
      hmac := new HmacContext();
      hmac.Init(Some(V[..]));
      Fill(V, 0, DIGEST, 1);
      assert V[..] == Spec.Ones(DIGEST);
      ret := 0;
    }

    /** mbedtls_hmac_drbg_seed_buf */
    method SeedBuf(data: Option<seq<byte>>, len: nat, memory: bool) returns (ret: int)
      requires Valid() && Sized(data, len)
      modifies this, V
      ensures ret == if memory then 0 else ALLOC_FAILED
      ensures !memory ==> unchanged(this, V)
      ensures Valid() && fresh(Repr() - old(Repr()))
      ensures memory ==> Live() && Abs() == SeedBufCall(old(Now()).c, data, len)
    {
      hide Stands, Mac, InnerPad, OuterPad, Digest, Spec.Update, Spec.Ones, Provided, SetUp;
      ret := SetUpMemory(memory);
      if ret != 0 {
        return;
      }
      Update(data, len);
    }

    /** mbedtls_hmac_drbg_seed */
    method Seed(custom: Option<seq<byte>>, len: nat, memory: bool, e: Entropy) returns (ret: int)
      requires Valid() && Sized(custom, len)
      modifies this, V
      ensures Valid() && fresh(Repr() - old(Repr()))
      ensures !memory ==> ret == ALLOC_FAILED && unchanged(this, V)
      ensures memory ==> Live() && (Abs(), ret) == SeedCall(old(Now()).c, custom, len, e)
    {
      hide Stands, Mac, InnerPad, OuterPad, Digest, Spec.Update, Spec.Ones, ReseedCall, Counts, Behind, Absorb, SetUp;
      ret := SetUpMemory(memory);
      if ret != 0 {
        return;
      }
      ret := FirstReseed(custom, len, e);
    }

    /** mbedtls_hmac_drbg_seed after the set-up. */
    method FirstReseed(custom: Option<seq<byte>>, len: nat, e: Entropy) returns (ret: int)
      requires Live() && Sized(custom, len)
      modifies Repr()
      ensures Live() && Repr() == old(Repr()) && hmac == old(hmac)
      ensures var (c, r) := ReseedCall(old(Abs()).(entropyLen := 48, interval := RESEED_INTERVAL), custom, len, e);
        ret == r && Abs() == if r == 0 then c.(entropyLen := 32) else c
    {
      hide Stands, Mac, InnerPad, OuterPad, Digest, ReseedCall;
      reseedInterval := RESEED_INTERVAL;
      var entropy := 32;
      entropyLen := entropy * 3 / 2;
      ret := Reseed(custom, len, e);
      if ret != 0 {
        return;
      }
      entropyLen := entropy;
    }

    method SetPredictionResistance(resistance: int)
      modifies this`predictionResistance
      ensures predictionResistance == resistance
    {
      predictionResistance := resistance;
    }

    method SetEntropyLen(len: nat)
      modifies this`entropyLen
      ensures entropyLen == len
    {
      entropyLen := len;
    }

    method SetReseedInterval(interval: int)
      modifies this`reseedInterval
      ensures reseedInterval == interval
    {
      reseedInterval := interval;
    }

    /** mbedtls_hmac_drbg_random_with_add */
    method RandomWithAdd(output: array<byte>, outLen: nat, additional: Option<seq<byte>>, addLen: nat, e: Entropy)
        returns (ret: int)
      requires Live() && Sized(additional, addLen) && outLen <= output.Length && output !in Repr()
      modifies Repr(), output
      ensures Live() && Repr() == old(Repr()) && hmac == old(hmac)
      ensures var (c, r, out) := RandomCall(old(Abs()), outLen, additional, addLen, e);
        && Abs() == c && ret == r
        && (if r == 0 then output[..outLen] == out else output[..outLen] == old(output[..outLen]))
      ensures output[outLen..] == old(output[outLen..])
    {
      hide Stands, Mac, InnerPad, OuterPad, Digest, Spec.Update, ReseedCall, Spec.Generate;
      if outLen > MAX_REQUEST {
        return REQUEST_TOO_BIG;
      }
      if addLen > MAX_INPUT {
        return INPUT_TOO_BIG;
      }
      var used := addLen;
      if predictionResistance == PR_ON || reseedCounter > reseedInterval {
        ret := Reseed(additional, addLen, e);
        if ret != 0 {
          return;
        }
        used := 0;
      }
      Produce(output, outLen, additional, used);
      ret := 0;
    }

    /** Steps 2 to 7 of mbedtls_hmac_drbg_random_with_add. */
    method Produce(output: array<byte>, outLen: nat, additional: Option<seq<byte>>, addLen: nat)
      requires Live() && Sized(additional, addLen) && outLen <= output.Length && output !in Repr()
      modifies Repr(), output
      ensures Live() && Repr() == old(Repr()) && hmac == old(hmac)
      ensures var (out, s) := Spec.Generate(old(State()), outLen, Provided(additional, addLen));
        output[..outLen] == out && Abs() == old(Abs()).(s := s)
      ensures output[outLen..] == old(output[outLen..])
    {
      hide Stands, Mac, InnerPad, OuterPad, Digest, Spec.Update, Spec.Stream, Spec.Chain;
      ghost var s0, provided := State(), Provided(additional, addLen);
      if additional.Some? && addLen != 0 {
        Update(additional, addLen);
      }
      ghost var s1 := State();
      assert s1 == if provided == [] then s0 else Spec.Update(s0, provided);
      Fetch(output, outLen);
      Update(additional, addLen);
      reseedCounter := reseedCounter + 1;
    }

    /** The loop of mbedtls_hmac_drbg_random_with_add. */
    method Fetch(output: array<byte>, outLen: nat)
      requires Live() && outLen <= output.Length && output !in Repr()
      modifies hmac.Repr, V, output
      ensures Live() && hmac.key == old(hmac.key)
      ensures var n := BlocksFor(outLen);
        && V[..] == Spec.Chain(hmac.key, old(V[..]), n)
        && output[..outLen] == Spec.Stream(hmac.key, old(V[..]), n)[..outLen]
      ensures output[outLen..] == old(output[outLen..])
    {
      hide Stands, Mac, InnerPad, OuterPad, Digest, Spec.Stream, Spec.Chain;
      var left, out := outLen, 0;
      ghost var k, v, n := hmac.key, V[..], 0;
      StreamStart(k, v);
      while left != 0
        invariant 0 <= left && 0 <= out && left + out == outLen
        invariant Live() && hmac.key == k
        invariant if left == 0 then n == BlocksFor(outLen) else out == 32 * n
        invariant V[..] == Spec.Chain(k, v, n) && out <= |Spec.Stream(k, v, n)| &&
          output[..out] == Spec.Stream(k, v, n)[..out]
        invariant output[outLen..] == old(output[outLen..])
        decreases left
      {
        var useLen := if left > DIGEST then DIGEST else left;
        ghost var sofar := output[..out];
        NextV();
        Copy(output, out, V[..useLen]);
        NextStream(k, v, n, out, useLen, sofar, output[..out + useLen], V[..]);
        out := out + useLen;
        left := left - useLen;
        n := n + 1;
      }
    }

    /** V becomes its own code. */
    method NextV()
      requires Live()
      modifies hmac.Repr, V
      ensures Live() && hmac.key == old(hmac.key) && V[..] == Mac(hmac.key, old(V[..]))
    {
      hide Stands, Mac, InnerPad, OuterPad, Digest;
      ghost var v := V[..];
      hmac.Init(None);
      hmac.Update(V[..]);
      assert [] + v == v;
      hmac.Final(V);
      assert V[..] == V[..DIGEST];
    }

    /** mbedtls_hmac_drbg_random */
    method Random(output: array<byte>, outLen: nat, e: Entropy) returns (ret: int)
      requires Live() && outLen <= output.Length && output !in Repr()
      modifies Repr(), output
      ensures Live() && Repr() == old(Repr()) && hmac == old(hmac)
      ensures var (c, r, out) := RandomCall(old(Abs()), outLen, None, 0, e);
        && Abs() == c && ret == r
        && (if r == 0 then output[..outLen] == out else output[..outLen] == old(output[..outLen]))
    {
      hide Stands, RandomCall, Abs;
      ret := RandomWithAdd(output, outLen, None, 0, e);
    }
  }

  function UpdateSteps(s: Spec.State, provided: seq<byte>, n: nat): Spec.State
    requires n <= 2
  {
    if n == 0 then s else Spec.UpdateStep(UpdateSteps(s, provided, n - 1), (n - 1) as byte, provided)
  }

  lemma SeedProvided(s: seq<byte>, n: nat)
    requires |s| == n
    ensures Provided(Some(s), n) == s
  {
  }

  lemma StreamStart(k: seq<byte>, v: seq<byte>)
    ensures Spec.Stream(k, v, 0) == [] && Spec.Chain(k, v, 0) == v
  {
  }

  lemma NextStream(k: seq<byte>, v: seq<byte>, n: nat, out: nat, useLen: nat, before: seq<byte>, after: seq<byte>,
                   v': seq<byte>)
    requires v' == Mac(k, Spec.Chain(k, v, n)) && out == 32 * n && useLen <= 32
    requires before == Spec.Stream(k, v, n)[..out] && |v'| == 32 && after == before + v'[..useLen]
    ensures v' == Spec.Chain(k, v, n + 1) && after == Spec.Stream(k, v, n + 1)[..out + useLen]
  {
    hide Mac;
    assert Spec.Chain(k, v, n + 1) == v';
    hide Spec.Chain;
  }
}
