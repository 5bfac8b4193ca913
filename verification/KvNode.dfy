/** The node, sequentially. */
module KvNode {
  // The model of atomics/kvnode_atomic.c.
  // Sequential consistency: one memory, every load_SC and store_SC one step, one writer and any number of readers.

  type Tid = nat

  const CELLS: nat := 8

  datatype WriterPc =
    | WIdle
    | WLoad(input: seq<int>)
    | WOdd(input: seq<int>, v: int)
    | WData(input: seq<int>, v: int, i: nat)

  datatype ReaderPc =
    | RIdle
    | RSnap
    | RData(snap: int, out: seq<int>)
    | RCheck(snap: int, out: seq<int>)
    | RDone(snap: int, out: seq<int>)

  /** writes holds the input of every write begun; entry 0 is the initial content. */
  datatype Config = Config(ver: int, data: seq<int>, w: WriterPc, readers: map<Tid, ReaderPc>, writes: seq<seq<int>>)

  ghost predicate WriterNext(c: Config, c': Config) {
    match c.w
    case WIdle => exists input: seq<int> :: |input| == CELLS && c' == c.(w := WLoad(input))
    case WLoad(input) => c' == c.(w := WOdd(input, c.ver))
    case WOdd(input, v) => c' == c.(ver := v + 1, w := WData(input, v, 0), writes := c.writes + [input])
    case WData(input, v, i) =>
      if i < CELLS then
        i < |input| && i < |c.data| && c' == c.(data := c.data[i := input[i]], w := WData(input, v, i + 1))
      else c' == c.(ver := v + 2, w := WIdle)
  }

  predicate ReaderNext(c: Config, r: Tid, c': Config) {
    r in c.readers && |c.data| == CELLS &&
    c' == c.(readers := c.readers[r :=
      match c.readers[r]
      case RIdle => RSnap
      case RSnap => if c.ver % 2 == 1 then RSnap else RData(c.ver, [])
      case RData(snap, out) => if |out| < CELLS then RData(snap, out + [c.data[|out|]]) else RCheck(snap, out)
      case RCheck(snap, out) => if c.ver == snap then RDone(snap, out) else RSnap
      case RDone(_, _) => RIdle])
  }

  ghost predicate Next(c: Config, c': Config) {
    WriterNext(c, c') || exists r :: ReaderNext(c, r, c')
  }

  predicate Init(c: Config) {
    c.ver == 0 && c.w == WIdle && c.data == seq(CELLS, _ => 0) && c.writes == [c.data] &&
    forall r :: r in c.readers ==> c.readers[r] == RIdle
  }

  ghost predicate IsRun(cs: seq<Config>) {
    |cs| > 0 && Init(cs[0]) && forall k :: 0 <= k < |cs| - 1 ==> Next(cs[k], cs[k + 1])
  }

  /** While no write is under way the cells are the last write; during one, the cells already stored are. */
  ghost predicate WriterInv(c: Config) {
    var K := |c.writes| - 1;
    && K >= 0 && |c.data| == CELLS && (forall k :: 0 <= k <= K ==> |c.writes[k]| == CELLS)
    && match c.w
       case WIdle => c.ver == 2 * K && c.data == c.writes[K]
       case WLoad(input) => c.ver == 2 * K && c.data == c.writes[K] && |input| == CELLS
       case WOdd(input, v) => c.ver == 2 * K && v == c.ver && c.data == c.writes[K] && |input| == CELLS
       case WData(input, v, i) =>
         c.ver == 2 * K - 1 && v == c.ver - 1 && input == c.writes[K] && i <= CELLS &&
         forall j :: 0 <= j < i ==> c.data[j] == input[j]
  }

  /** What a reader copied is its write, unless the version has moved on. */
  ghost predicate CopyInv(c: Config, snap: int, out: seq<int>) {
    0 <= snap <= c.ver && snap % 2 == 0 && |out| <= CELLS && snap / 2 < |c.writes| && |c.writes[snap / 2]| == CELLS &&
    (c.ver == snap ==> out == c.writes[snap / 2][..|out|])
  }

  ghost predicate ReaderInv(c: Config, pc: ReaderPc) {
    match pc
    case RIdle => true
    case RSnap => true
    case RData(snap, out) => CopyInv(c, snap, out)
    case RCheck(snap, out) => CopyInv(c, snap, out) && |out| == CELLS
    case RDone(snap, out) => CopyInv(c, snap, []) && out == c.writes[snap / 2]
  }

  ghost predicate Inv(c: Config) {
    WriterInv(c) && forall r :: r in c.readers ==> ReaderInv(c, c.readers[r])
  }

  lemma WriterKeepsReader(c: Config, c': Config, pc: ReaderPc)
    requires WriterInv(c) && WriterNext(c, c') && ReaderInv(c, pc)
    ensures ReaderInv(c', pc)
  {
  }

  lemma WriterStepInv(c: Config, c': Config)
    requires Inv(c) && WriterNext(c, c')
    ensures Inv(c')
  {
    assert WriterInv(c');
    forall r | r in c'.readers ensures ReaderInv(c', c'.readers[r]) {
      WriterKeepsReader(c, c', c.readers[r]);
    }
  }

  lemma ReaderStepInv(c: Config, r: Tid, c': Config)
    requires Inv(c) && ReaderNext(c, r, c')
    ensures Inv(c')
  {
    assert ReaderInv(c, c.readers[r]);
    forall p | p in c'.readers ensures ReaderInv(c', c'.readers[p]) {
      if p != r { assert ReaderInv(c, c.readers[p]); }
    }
  }

  lemma {:induction false} RunInv(cs: seq<Config>, k: nat)
    requires IsRun(cs) && k < |cs|
    ensures Inv(cs[k])
  {
    if k > 0 {
      hide Inv, WriterNext, ReaderNext, Init;
      RunInv(cs, k - 1);
      assert Next(cs[k - 1], cs[k]);
      if WriterNext(cs[k - 1], cs[k]) {
        WriterStepInv(cs[k - 1], cs[k]);
      } else {
        var r :| ReaderNext(cs[k - 1], r, cs[k]);
        ReaderStepInv(cs[k - 1], r, cs[k]);
      }
    }
  }

  /** In every run, a read that returns copied exactly the eight values of the write whose version is its snapshot. */
  lemma ReadsOneWrite(cs: seq<Config>, k: nat, r: Tid)
    requires IsRun(cs) && k < |cs| && r in cs[k].readers && cs[k].readers[r].RDone?
    ensures var c, pc := cs[k], cs[k].readers[r];
            0 <= pc.snap <= c.ver && pc.snap % 2 == 0 && pc.snap / 2 < |c.writes| && pc.out == c.writes[pc.snap / 2]
  {
    RunInv(cs, k);
    assert ReaderInv(cs[k], cs[k].readers[r]);
  }

  /** The check that lets a read return happens at an instant when the cells are the copy. */
  lemma CheckedAtOnce(cs: seq<Config>, k: nat, r: Tid)
    requires IsRun(cs) && k + 1 < |cs| && ReaderNext(cs[k], r, cs[k + 1])
    requires cs[k].readers[r].RCheck? && cs[k + 1].readers[r].RDone?
    ensures cs[k].data == cs[k + 1].readers[r].out
  {
    RunInv(cs, k);
    assert ReaderInv(cs[k], cs[k].readers[r]);
  }
}
