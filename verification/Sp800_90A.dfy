/** HMAC_DRBG as NIST SP 800-90A defines it in section 10.1.2, on values. */
module Sp800_90A {
  import opened Fips180
  import opened HmacSha256

  /** The internal state: the two secret values and the reseed counter. */
  datatype State = State(K: seq<byte>, V: seq<byte>, counter: int)

  /** Steps 1 and 2, or 4 and 5, of HMAC_DRBG_Update. */
  function UpdateStep(s: State, separator: byte, provided: seq<byte>): State {
    var k := Mac(s.K, s.V + [separator] + provided);
    State(k, Mac(k, s.V), s.counter)
  }

  /** Section 10.1.2.2; no provided data is the empty sequence. */
  function Update(s: State, provided: seq<byte>): (r: State)
    ensures r.counter == s.counter
  {
    var one := UpdateStep(s, 0, provided);
    if provided == [] then one else UpdateStep(one, 1, provided)
  }

  /** Section 10.1.2.3. */
  function Instantiate(material: seq<byte>): State {
    Update(State(Zeros(DIGEST), Ones(DIGEST), 0), material).(counter := 1)
  }

  function Ones(n: nat): (s: seq<byte>)
    ensures |s| == n
  {
    seq(n, _ => 1)
  }

  /** Section 10.1.2.4. */
  function Reseed(s: State, entropy: seq<byte>, additional: seq<byte>): State {
    Update(s, entropy + additional).(counter := 1)
  }

  /** V after n further blocks. */
  function Chain(k: seq<byte>, v: seq<byte>, n: nat): (r: seq<byte>) {
    if n == 0 then v else Mac(k, Chain(k, v, n - 1))
  }

  /** The n blocks, one after the other. */
  function Stream(k: seq<byte>, v: seq<byte>, n: nat): (r: seq<byte>)
    ensures |r| == DIGEST * n
  {
    if n == 0 then [] else Stream(k, v, n - 1) + Chain(k, v, n)
  }

  /** Section 10.1.2.5, steps 2 to 7: what is returned, and the new state. */
  function Generate(s: State, len: nat, additional: seq<byte>): (r: (seq<byte>, State))
    ensures |r.0| == len
  {
    var s1 := if additional == [] then s else Update(s, additional);
    var n := BlocksFor(len);
    var s2 := s1.(V := Chain(s1.K, s1.V, n));
    (Stream(s1.K, s1.V, n)[..len], Update(s2, additional).(counter := s.counter + 1))
  }

  // ---------------------------------------------------------------- facts

  lemma {:induction false} StreamPrefix(k: seq<byte>, v: seq<byte>, m: nat, n: nat)
    requires m <= n
    ensures Stream(k, v, m) == Stream(k, v, n)[..DIGEST * m]
    decreases n
  {
    hide Chain;
    if m < n { StreamPrefix(k, v, m, n - 1); }
  }

  /** A shorter request from the same state yields a prefix of a longer one. */
  lemma ShorterRequest(s: State, additional: seq<byte>, a: nat, b: nat)
    requires a <= b
    ensures Generate(s, a, additional).0 == Generate(s, b, additional).0[..a]
  {
    hide Update, Stream, Chain;
    var s1 := if additional == [] then s else Update(s, additional);
    StreamPrefix(s1.K, s1.V, BlocksFor(a), BlocksFor(b));
  }
}
