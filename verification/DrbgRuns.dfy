/** Runs of the generator. */
module DrbgRuns {
  import opened Wrappers
  import opened Fips180
  import opened HmacDrbg
  import opened HmacSha256
  import opened Sha256
  import Spec = Sp800_90A

  /** A call after initialisation, with what the memory and entropy sources would do if asked. */
  datatype Call =
    | Seed(custom: Option<seq<byte>>, len: nat, memory: bool, e: Entropy)
    | SeedBuf(custom: Option<seq<byte>>, len: nat, memory: bool)
    | Reseed(additional: Option<seq<byte>>, len: nat, e: Entropy)
    | Random(outLen: nat, additional: Option<seq<byte>>, len: nat, e: Entropy)
    | SetResistance(resistance: int)
    | SetEntropyLen(entropyLen: nat)
    | SetInterval(interval: int)

  datatype Reply = Reply(ret: int, output: seq<byte>)

  /** A seed function that gets its memory. */
  predicate Keys(call: Call) {
    (call.Seed? || call.SeedBuf?) && call.memory
  }

  /** What a caller owes: lengths that fit the buffers, and no use of the generator before it has an HMAC context. */
  predicate Proper(live: bool, call: Call) {
    match call
    case Seed(a, len, _, _) => Sized(a, len)
    case SeedBuf(a, len, _) => Sized(a, len)
    case Reseed(a, len, _) => Sized(a, len) && live
    case Random(_, a, len, _) => Sized(a, len) && live
    case _ => true
  }

  function After(v: View, call: Call): (r: (View, Reply))
    requires Proper(v.live, call)
    ensures r.0.live == (v.live || Keys(call))
  {
    match call
    case Seed(a, len, memory, e) =>
      if !memory then (v, Reply(ALLOC_FAILED, []))
      else
        var (d, ret) := SeedCall(v.c, a, len, e);
        (View(true, d), Reply(ret, []))
    case SeedBuf(a, len, memory) =>
      if !memory then (v, Reply(ALLOC_FAILED, [])) else (View(true, SeedBufCall(v.c, a, len)), Reply(0, []))
    case Reseed(a, len, e) => var (d, ret) := ReseedCall(v.c, a, len, e); (v.(c := d), Reply(ret, []))
    case Random(n, a, len, e) => var (d, ret, out) := RandomCall(v.c, n, a, len, e); (v.(c := d), Reply(ret, out))
    case SetResistance(r) => (v.(c := v.c.(resistance := r)), Reply(0, []))
    case SetEntropyLen(n) => (v.(c := v.c.(entropyLen := n)), Reply(0, []))
    case SetInterval(i) => (v.(c := v.c.(interval := i)), Reply(0, []))
  }

  predicate LiveAfter(live: bool, calls: seq<Call>) {
    live || exists i :: 0 <= i < |calls| && Keys(calls[i])
  }

  predicate AllProper(live: bool, calls: seq<Call>) {
    forall i :: 0 <= i < |calls| ==> Proper(LiveAfter(live, calls[..i]), calls[i])
  }

  lemma ProperPrefix(live: bool, calls: seq<Call>, n: nat)
    requires AllProper(live, calls) && n <= |calls|
    ensures AllProper(live, calls[..n])
  {
    forall i | 0 <= i < n ensures Proper(LiveAfter(live, calls[..n][..i]), calls[..n][i]) {
      assert calls[..n][..i] == calls[..i];
    }
  }

  lemma LiveNext(live: bool, calls: seq<Call>)
    requires calls != []
    ensures LiveAfter(live, calls) == (LiveAfter(live, calls[..|calls| - 1]) || Keys(calls[|calls| - 1]))
  {
  }

  ghost function Trace(v: View, calls: seq<Call>): (r: (View, seq<Reply>))
    requires AllProper(v.live, calls)
    ensures |r.1| == |calls| && r.0.live == LiveAfter(v.live, calls)
  {
    if calls == [] then (v, [])
    else
      var init, last := calls[..|calls| - 1], calls[|calls| - 1];
      ProperPrefix(v.live, calls, |calls| - 1);
      LiveNext(v.live, calls);
      var (d, replies) := Trace(v, init);
      var (d', reply) := After(d, last);
      (d', replies + [reply])
  }

  method OneCall(d: Drbg, call: Call) returns (reply: Reply)
    requires d.Valid() && Proper(d.hmac != null, call)
    modifies d.Repr()
    ensures d.Valid() && fresh(d.Repr() - old(d.Repr()))
    ensures (d.Now(), reply) == After(old(d.Now()), call)
  {
    hide ReseedCall, RandomCall, SeedCall, SeedBufCall, Stands, InnerPad, OuterPad, Spec.Generate;
    match call
    case Seed(a, len, memory, e) =>
      var ret := d.Seed(a, len, memory, e);
      reply := Reply(ret, []);
    case SeedBuf(a, len, memory) =>
      var ret := d.SeedBuf(a, len, memory);
      reply := Reply(ret, []);
    case Reseed(a, len, e) =>
      var ret := d.Reseed(a, len, e);
      reply := Reply(ret, []);
    case Random(n, a, len, e) =>
      reply := Draw(d, n, a, len, e);
    case SetResistance(r) =>
      d.SetPredictionResistance(r);
      reply := Reply(0, []);
    case SetEntropyLen(n) =>
      d.SetEntropyLen(n);
      reply := Reply(0, []);
    case SetInterval(i) =>
      d.SetReseedInterval(i);
      reply := Reply(0, []);
  }

  method Draw(d: Drbg, n: nat, a: Option<seq<byte>>, len: nat, e: Entropy) returns (reply: Reply)
    requires d.Live() && Sized(a, len)
    modifies d.Repr()
    ensures d.Live() && d.Repr() == old(d.Repr())
    ensures var (c, ret, out) := RandomCall(old(d.Abs()), n, a, len, e);
      d.Abs() == c && reply == Reply(ret, out)
  {
    hide ReseedCall, Stands, InnerPad, OuterPad, Spec.Generate;
    var output := new byte[n];
    var ret := d.RandomWithAdd(output, n, a, len, e);
    reply := Reply(ret, if ret == 0 then output[..n] else []);
  }

  /**
   * Every run of calls on an initialised context, memory and entropy failing at will, replies what the functions of the
   * standard say and ends in the state they say.
   */
  method Run(d: Drbg, calls: seq<Call>) returns (replies: seq<Reply>)
    requires d.Valid() && AllProper(d.hmac != null, calls)
    modifies d.Repr()
    ensures d.Valid() && fresh(d.Repr() - old(d.Repr()))
    ensures (d.Now(), replies) == Trace(old(d.Now()), calls)
  {
    hide After, Stands, InnerPad, OuterPad, Trace, ReseedCall, RandomCall, AllProper, LiveAfter, Proper;
    ghost var v := d.Now();
    TraceStart(v);
    replies := [];
    for i := 0 to |calls|
      invariant d.Valid() && fresh(d.Repr() - old(d.Repr()))
      invariant AllProper(v.live, calls[..i]) && (d.Now(), replies) == Trace(v, calls[..i])
    {
      TraceNext(v, calls, i);
      var reply := OneCall(d, calls[i]);
      replies := replies + [reply];
    }
    assert calls[..|calls|] == calls;
  }

  lemma TraceStart(v: View)
    ensures AllProper(v.live, []) && Trace(v, []) == (v, [])
  {
  }

  lemma TraceNext(v: View, calls: seq<Call>, i: nat)
    requires AllProper(v.live, calls) && i < |calls|
    ensures AllProper(v.live, calls[..i]) && AllProper(v.live, calls[..i + 1])
    ensures Proper(Trace(v, calls[..i]).0.live, calls[i])
    ensures var (d, replies) := Trace(v, calls[..i]);
      var (d', reply) := After(d, calls[i]);
      Trace(v, calls[..i + 1]) == (d', replies + [reply])
  {
    ProperPrefix(v.live, calls, i);
    ProperPrefix(v.live, calls, i + 1);
    assert Proper(LiveAfter(v.live, calls[..i]), calls[i]);
    hide After, AllProper, LiveAfter, Proper;
    assert calls[..i + 1][..i] == calls[..i];
  }

  /** A context that has just been initialised: V is zero, and there is no key. */
  function Initial(): View {
    View(false, Settings(Spec.State([], Zeros(DIGEST), 0), 0, 0, 0))
  }

  /** Every run from mbedtls_hmac_drbg_init on, whatever its seeds come to. */
  method RunFromNew(calls: seq<Call>) returns (d: Drbg, replies: seq<Reply>)
    requires AllProper(false, calls)
    ensures fresh(d.Repr()) && d.Valid() && (d.Now(), replies) == Trace(Initial(), calls)
  {
    hide Stands, InnerPad, OuterPad, Trace, AllProper;
    d := new Drbg();
    replies := Run(d, calls);
  }

  // ---------------------------------------------------------------- seeding and the standard

  /** The state section 10.1.2.3 gives for 32 bytes of entropy, a 16-byte nonce and a personalization string. */
  function Seeded(stream: nat -> byte, custom: Option<seq<byte>>, len: nat): Settings
    requires Sized(custom, len)
  {
    Settings(Spec.Instantiate(Take(stream, 48) + Provided(custom, len)), 32, 0, RESEED_INTERVAL)
  }

  /** Seeding a context whose V is still zero is Instantiate, although no key is ever given. */
  lemma FreshSeed(c: Settings, custom: Option<seq<byte>>, len: nat, e: Entropy)
    requires Sized(custom, len) && c.s.V == Zeros(DIGEST)
    ensures var (d, ret) := SeedCall(c, custom, len, e);
      && ret == (if len > MAX_INPUT then INPUT_TOO_BIG else if e.Fails? then ENTROPY_SOURCE_FAILED else 0)
      && (ret == 0 ==> d == Seeded(e.stream, custom, len).(resistance := c.resistance))
  {
    hide Provided, Take, Spec.Update;
    if len <= MAX_INPUT && e.Gives? {
      CounterIgnored(Spec.State(Zeros(DIGEST), Spec.Ones(DIGEST), c.s.counter), 0,
                     Take(e.stream, 48) + Provided(custom, len));
    }
  }

  lemma CounterIgnored(s: Spec.State, counter: int, provided: seq<byte>)
    ensures Spec.Update(s.(counter := counter), provided) == Spec.Update(s, provided).(counter := counter)
  {
    hide Mac;
  }

  /** The state a seed function starts from is the one section 10.1.2.3 prescribes if and only if V was all zero. */
  lemma StandardSetUp(c: Settings)
    ensures SetUp(c).s.K == Zeros(DIGEST) && SetUp(c).s.V == Spec.Ones(DIGEST) <==> c.s.V == Zeros(DIGEST)
  {
  }

  /** V stays zero until a seed function gets its memory, whatever else is called. */
  lemma {:induction false} VUntouched(calls: seq<Call>)
    requires AllProper(false, calls) && !LiveAfter(false, calls)
    ensures Trace(Initial(), calls).0.c.s == Initial().c.s
    decreases |calls|
  {
    if calls != [] {
      var n := |calls| - 1;
      TraceNext(Initial(), calls, n);
      assert calls[..n + 1] == calls;
      LiveNext(false, calls);
      VUntouched(calls[..n]);
      assert !Keys(calls[n]) && !Trace(Initial(), calls[..n]).0.live;
      hide Trace;
    }
  }

  /** So the first seed that gets its memory instantiates the generator as the standard does, or fails. */
  lemma FirstSeed(calls: seq<Call>, custom: Option<seq<byte>>, len: nat, e: Entropy)
    requires AllProper(false, calls) && !LiveAfter(false, calls) && Sized(custom, len)
    ensures var v := Trace(Initial(), calls).0;
      var (w, reply) := After(v, Seed(custom, len, true, e));
      && reply.ret == (if len > MAX_INPUT then INPUT_TOO_BIG else if e.Fails? then ENTROPY_SOURCE_FAILED else 0)
      && (reply.ret == 0 ==> w == View(true, Seeded(e.stream, custom, len).(resistance := v.c.resistance)))
  {
    VUntouched(calls);
    var v := Trace(Initial(), calls).0;
    FreshSeed(v.c, custom, len, e);
    hide Seeded, SeedCall, Trace;
  }

  /**
   * A seed that gets memory and then fails leaves V all ones, K the old V, and the settings of a first seed; so the
   * next one does not start as the standard prescribes.
   */
  lemma FailedSeed(v: View, custom: Option<seq<byte>>, len: nat, e: Entropy)
    requires Sized(custom, len) && After(v, Seed(custom, len, true, e)).1.ret != 0
    ensures After(v, Seed(custom, len, true, e)).0
         == View(true, Settings(Spec.State(v.c.s.V, Spec.Ones(DIGEST), v.c.s.counter), 48, v.c.resistance,
                                RESEED_INTERVAL))
    ensures SetUp(After(v, Seed(custom, len, true, e)).0.c).s.K != Zeros(DIGEST)
  {
    OnesAreNotZeros();
    hide Zeros, Spec.Ones;
  }

  /**
   * A seed that is tried again after the entropy source failed does not start as the standard prescribes: its key is
   * V of the failed attempt, all ones, where section 10.1.2.3 has all zeros.
   */
  lemma RetriedSeed(stream: nat -> byte)
    ensures var calls := [Seed(None, 0, true, Fails), Seed(None, 0, true, Gives(stream))];
      && AllProper(false, calls)
      && Trace(Initial(), calls).1 == [Reply(ENTROPY_SOURCE_FAILED, []), Reply(0, [])]
      && Trace(Initial(), calls).0.c.s
         == Spec.Update(Spec.State(Spec.Ones(DIGEST), Spec.Ones(DIGEST), 0), Take(stream, 48)).(counter := 1)
    ensures Spec.Ones(DIGEST) != Zeros(DIGEST)
  {
    var first, second := Seed(None, 0, true, Fails), Seed(None, 0, true, Gives(stream));
    var calls := [first, second];
    RetryProper(calls);
    TwoCalls(Initial(), first, second);
    FirstReply();
    RetryReply(stream);
    OnesAreNotZeros();
    hide Trace, AllProper, LiveAfter, Spec.Update, SeedCall, Spec.Ones, Zeros;
  }

  lemma OnesAreNotZeros()
    ensures Spec.Ones(DIGEST) != Zeros(DIGEST)
  {
    assert Spec.Ones(DIGEST)[0] == 1 && Zeros(DIGEST)[0] == 0;
  }

  lemma TwoCalls(v: View, first: Call, second: Call)
    requires AllProper(v.live, [first, second])
    ensures Proper(v.live, first) && Proper(After(v, first).0.live, second)
    ensures var (w, reply) := After(v, first);
      var (x, next) := After(w, second);
      Trace(v, [first, second]) == (x, [reply, next])
  {
    var calls := [first, second];
    TraceStart(v);
    assert calls[..0] == [] && calls[..1] == [first] && calls[..2] == calls;
    TraceNext(v, calls, 0);
    TraceNext(v, calls, 1);
    hide Trace, AllProper, LiveAfter, After;
    var none: seq<Reply> := [];
    assert Trace(v, calls[..0]) == (v, none);
    var (w, reply) := After(v, first);
    assert none + [reply] == [reply];
    assert Trace(v, calls[..1]) == (w, [reply]);
    assert [reply] + [After(w, second).1] == [reply, After(w, second).1];
  }

  lemma FirstReply()
    ensures SeedCall(Initial().c, None, 0, Fails)
         == (Settings(Spec.State(Zeros(DIGEST), Spec.Ones(DIGEST), 0), 48, 0, RESEED_INTERVAL), ENTROPY_SOURCE_FAILED)
  {
    hide Zeros, Spec.Ones;
  }

  lemma RetryProper(calls: seq<Call>)
    requires |calls| == 2 && calls[0].Seed? && calls[1].Seed? && Sized(calls[0].custom, calls[0].len)
    requires Sized(calls[1].custom, calls[1].len)
    ensures AllProper(false, calls)
  {
  }

  lemma RetryReply(stream: nat -> byte)
    ensures var c := Settings(Spec.State(Zeros(DIGEST), Spec.Ones(DIGEST), 0), 48, 0, RESEED_INTERVAL);
      var (d, ret) := SeedCall(c, None, 0, Gives(stream));
      && ret == 0
      && d.s == Spec.Update(Spec.State(Spec.Ones(DIGEST), Spec.Ones(DIGEST), 0), Take(stream, 48)).(counter := 1)
  {
    hide Spec.Update, Take, Zeros, Spec.Ones;
    assert Take(stream, 48) + Provided(None, 0) == Take(stream, 48);
  }

  // ---------------------------------------------------------------- what holds in every run

  /** Without memory a seed function answers -0x5180 and does nothing. */
  lemma NoMemory(v: View, custom: Option<seq<byte>>, len: nat, e: Entropy)
    requires Sized(custom, len)
    ensures After(v, Seed(custom, len, false, e)) == (v, Reply(-0x5180, []))
    ensures After(v, SeedBuf(custom, len, false)) == (v, Reply(-0x5180, []))
  {
  }

  /** A call that fails, other than a seed that got its memory, leaves K, V, the counter and the settings alone. */
  lemma FailureChangesNothing(v: View, call: Call)
    requires Proper(v.live, call) && After(v, call).1.ret != 0 && !Keys(call)
    ensures After(v, call).0 == v && After(v, call).1.output == []
  {
    hide Spec.Reseed, Spec.Generate, Provided;
  }

  ghost predicate CounterBound(c: Settings, top: int) {
    c.s.counter <= top + 1 && c.interval <= top
  }

  /** No call sets an interval above top. */
  predicate WithinTop(call: Call, top: int) {
    (call.SetInterval? ==> call.interval <= top) && (call.Seed? ==> RESEED_INTERVAL <= top)
  }

  lemma CounterStep(v: View, call: Call, top: int)
    requires Proper(v.live, call) && top >= 1 && CounterBound(v.c, top) && WithinTop(call, top)
    ensures CounterBound(After(v, call).0.c, top)
  {
    hide Spec.Update, Spec.Stream, Spec.Chain, Provided;
  }

  /**
   * While the interval is never set above top, the counter never passes top + 1: at most top requests are
   * served between two reseeds.
   */
  lemma {:induction false} RunCounter(v: View, calls: seq<Call>, top: int)
    requires AllProper(v.live, calls) && top >= 1 && CounterBound(v.c, top)
    requires forall i :: 0 <= i < |calls| ==> WithinTop(calls[i], top)
    ensures CounterBound(Trace(v, calls).0.c, top)
    decreases |calls|
  {
    hide After, CounterBound, WithinTop;
    if calls != [] {
      var n := |calls| - 1;
      TraceNext(v, calls, n);
      assert calls[..n + 1] == calls;
      RunCounter(v, calls[..n], top);
      CounterStep(Trace(v, calls[..n]).0, calls[n], top);
    }
  }

  /** With prediction resistance on, every served request reseeds first, so the counter is 2 afterwards. */
  lemma ResistanceReseeds(c: Settings, n: nat, a: Option<seq<byte>>, len: nat, e: Entropy)
    requires Sized(a, len) && c.resistance == PR_ON && RandomCall(c, n, a, len, e).1 == 0
    ensures e.Gives?
    ensures var s := Spec.Reseed(c.s, Take(e.stream, c.entropyLen), Provided(a, len));
      && RandomCall(c, n, a, len, e).2 == Spec.Generate(s, n, []).0
      && RandomCall(c, n, a, len, e).0.s == Spec.Generate(s, n, []).1
      && RandomCall(c, n, a, len, e).0.s.counter == 2
  {
    hide Spec.Update, Spec.Stream, Spec.Chain, Provided;
  }
}
