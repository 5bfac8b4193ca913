/** The one-writer mailbox. */
module Mailbox {
  // The model of mailbox/mailbox.c.
  // N readers and B = N + 2 buffers, N a parameter, as a step system whose shared steps are the atomic exchanges.
  // A buffer's content is the number of the write that filled it.

  const EMPTY: int := -1
  const FIRST: int := 0

  /** The writer: about to call start_write, holding a buffer it has not filled, holding a filled one,
      giving it to reader r, or stopped by exit(1). */
  datatype WriterPc = WIdle | WHolds | WFilled | WGives(r: nat) | WExit

  datatype State = State(
    comm: seq<int>, reading: seq<int>, lastRead: seq<int>,
    lastTaken: seq<int>, writing: int, lastGiven: int,
    data: seq<nat>, count: nat, w: WriterPc)

  datatype Label = Take(r: nat) | Release(r: nat) | StartWrite | Fill | Give | EndWrite

  // ---------------------------------------------------------------- the code

  predicate Free(lastGiven: int, lastTaken: seq<int>, i: int) {
    i != lastGiven && forall r :: 0 <= r < |lastTaken| ==> lastTaken[r] != i
  }

  /** The buffer start_write settles on: the first that is neither the last one given nor one last taken;
      the number of buffers if there is none. */
  function FirstFree(lastGiven: int, lastTaken: seq<int>, buffers: nat, from: nat): (b: nat)
    requires from <= buffers
    ensures from <= b <= buffers
    ensures b < buffers ==> Free(lastGiven, lastTaken, b)
    ensures forall i :: from <= i < b ==> !Free(lastGiven, lastTaken, i)
    decreases buffers - from
  {
    if from == buffers || Free(lastGiven, lastTaken, from) then from
    else FirstFree(lastGiven, lastTaken, buffers, from + 1)
  }

  /** start_read: exchange Empty for what the writer left; keep reading the old buffer if it left nothing. */
  function TakeStep(s: State, r: nat): State
    requires r < |s.comm| == |s.reading| == |s.lastRead|
  {
    var b := if 0 <= s.comm[r] < |s.data| then s.comm[r] else s.lastRead[r];
    s.(comm := s.comm[r := EMPTY], lastRead := s.lastRead[r := b], reading := s.reading[r := b])
  }

  function StartWriteStep(s: State): State {
    var b := FirstFree(s.lastGiven, s.lastTaken, |s.data|, 0);
    if b < |s.data| then s.(writing := b, w := WHolds) else s.(w := WExit)
  }

  /** One round of finish_write's loop: if the reader took its last buffer, it may hold what was given last time. */
  function GiveStep(s: State, r: nat): State
    requires r < |s.comm| == |s.lastTaken|
  {
    var b := s.comm[r];
    s.(comm := s.comm[r := s.writing], w := WGives(r + 1),
       lastTaken := if b == EMPTY then s.lastTaken[r := s.lastGiven] else s.lastTaken)
  }

  /** What follows finish_write's loop. */
  function EndWriteStep(s: State): State {
    s.(lastGiven := s.writing, writing := EMPTY, w := WIdle)
  }

  predicate Sized(s: State) {
    |s.comm| == |s.reading| == |s.lastRead| == |s.lastTaken| && |s.data| == |s.comm| + 2
  }

  predicate Enabled(s: State, l: Label) {
    Sized(s) &&
    match l
    case Take(r) => r < |s.comm| && s.reading[r] == EMPTY
    case Release(r) => r < |s.comm| && s.reading[r] != EMPTY
    case StartWrite => s.w == WIdle
    case Fill => s.w == WHolds && 0 <= s.writing < |s.data|
    case Give => (s.w == WFilled && |s.comm| > 0) || (s.w.WGives? && s.w.r < |s.comm|)
    case EndWrite => s.w == WGives(|s.comm|) || (s.w == WFilled && |s.comm| == 0)
  }

  function Apply(s: State, l: Label): (s': State)
    requires Enabled(s, l)
    ensures Sized(s') && |s'.comm| == |s.comm|
  {
    match l
    case Take(r) => TakeStep(s, r)
    case Release(r) => s.(reading := s.reading[r := EMPTY])
    case StartWrite => StartWriteStep(s)
    case Fill => s.(data := s.data[s.writing := s.count + 1], count := s.count + 1, w := WFilled)
    case Give => GiveStep(s, if s.w == WFilled then 0 else s.w.r)
    case EndWrite => EndWriteStep(s)
  }

  function Init(n: nat): State {
    State(seq(n, _ => FIRST), seq(n, _ => EMPTY), seq(n, _ => 1), seq(n, _ => 1),
          EMPTY, FIRST, seq(n + 2, _ => 0), 0, WIdle)
  }

  /** The states a schedule goes through, the initial one first. */
  ghost predicate IsRun(n: nat, labels: seq<Label>, states: seq<State>) {
    |states| == |labels| + 1 && states[0] == Init(n) &&
    forall k :: 0 <= k < |labels| ==> Enabled(states[k], labels[k]) && states[k + 1] == Apply(states[k], labels[k])
  }

  // ---------------------------------------------------------------- the invariant

  predicate Writing(s: State) { s.w.WHolds? || s.w.WFilled? || s.w.WGives? }

  /** The buffer last given to reader r. */
  function Given(s: State, r: nat): int {
    if s.w.WGives? && r < s.w.r then s.writing else s.lastGiven
  }

  /** The number of the last write whose finish_write ended. */
  function Done(s: State): int {
    if s.w.WFilled? || s.w.WGives? then s.count - 1 else s.count
  }

  /** Reader r has taken what was given, or it still has the buffer that the writer last knew it to take. */
  predicate ReaderInv(s: State, r: nat)
    requires Sized(s) && r < |s.comm|
  {
    && (s.comm[r] == EMPTY ==> s.lastRead[r] == Given(s, r))
    && (s.comm[r] != EMPTY ==> s.comm[r] == Given(s, r) && s.lastRead[r] == s.lastTaken[r])
    && (s.reading[r] != EMPTY ==> s.reading[r] == s.lastRead[r])
    && 0 <= s.lastRead[r] < |s.data| && 0 <= s.lastTaken[r] < |s.data| && 0 <= Given(s, r) < |s.data|
    && s.data[s.lastRead[r]] <= s.data[Given(s, r)]
  }

  predicate WriterInv(s: State)
    requires Sized(s)
  {
    && s.w != WExit && 0 <= s.lastGiven < |s.data|
    && (Writing(s) ==> 0 <= s.writing < |s.data| && Free(s.lastGiven, s.lastTaken, s.writing))
    && (s.w.WGives? ==> s.w.r <= |s.comm|)
    && Done(s) >= 0 && s.data[s.lastGiven] == Done(s)
    && (s.w.WFilled? || s.w.WGives? ==> s.data[s.writing] == s.count)
  }

  ghost predicate Inv(s: State) {
    Sized(s) && WriterInv(s) && forall r: nat :: r < |s.comm| ==> ReaderInv(s, r)
  }

  // ---------------------------------------------------------------- a free buffer always exists

  function Used(lastGiven: int, lastTaken: seq<int>): set<int> {
    {lastGiven} + set x | x in lastTaken
  }

  lemma {:induction false} FewUsed(lastGiven: int, lastTaken: seq<int>)
    ensures |Used(lastGiven, lastTaken)| <= |lastTaken| + 1
  {
    if lastTaken == [] {
      assert Used(lastGiven, lastTaken) == {lastGiven};
    } else {
      var rest, x := lastTaken[1..], lastTaken[0];
      FewUsed(lastGiven, rest);
      forall y | y in Used(lastGiven, lastTaken) ensures y in Used(lastGiven, rest) + {x} {
        if y != lastGiven && y != x {
          var r :| 0 <= r < |lastTaken| && lastTaken[r] == y;
          assert rest[r - 1] == y;
        }
      }
      assert Used(lastGiven, lastTaken) <= Used(lastGiven, rest) + {x};
      SubsetSize(Used(lastGiven, lastTaken), Used(lastGiven, rest) + {x});
    }
  }

  lemma {:induction false} SubsetSize<T>(a: set<T>, b: set<T>)
    requires a <= b
    ensures |a| <= |b|
  {
    if a != {} {
      var x :| x in a;
      SubsetSize(a - {x}, b - {x});
    }
  }

  function Numbers(n: nat): (s: set<int>)
    ensures forall i :: i in s <==> 0 <= i < n
    ensures |s| == n
  {
    if n == 0 then {} else Numbers(n - 1) + {n - 1}
  }

  /** N readers can keep N buffers, one was given last, and there are N + 2: start_write never reaches exit(1). */
  lemma AlwaysFree(lastGiven: int, lastTaken: seq<int>)
    ensures FirstFree(lastGiven, lastTaken, |lastTaken| + 2, 0) < |lastTaken| + 2
  {
    var b := |lastTaken| + 2;
    var all := Numbers(b);
    if FirstFree(lastGiven, lastTaken, b, 0) == b {
      forall i | i in all ensures i in Used(lastGiven, lastTaken) {
        assert !Free(lastGiven, lastTaken, i);
      }
      SubsetSize(all, Used(lastGiven, lastTaken));
      FewUsed(lastGiven, lastTaken);
    }
  }

  // ---------------------------------------------------------------- preservation

  lemma TakeInv(s: State, r: nat)
    requires Inv(s) && Enabled(s, Take(r))
    ensures Inv(Apply(s, Take(r)))
  {
    var s' := Apply(s, Take(r));
    assert ReaderInv(s, r);
    forall q: nat | q < |s'.comm| ensures ReaderInv(s', q) { assert ReaderInv(s, q); }
  }

  lemma ReleaseInv(s: State, r: nat)
    requires Inv(s) && Enabled(s, Release(r))
    ensures Inv(Apply(s, Release(r)))
  {
    var s' := Apply(s, Release(r));
    forall q: nat | q < |s'.comm| ensures ReaderInv(s', q) { assert ReaderInv(s, q); }
  }

  lemma StartWriteInv(s: State)
    requires Inv(s) && Enabled(s, StartWrite)
    ensures Inv(Apply(s, StartWrite))
  {
    var s' := Apply(s, StartWrite);
    AlwaysFree(s.lastGiven, s.lastTaken);
    forall q: nat | q < |s'.comm| ensures ReaderInv(s', q) { assert ReaderInv(s, q); }
  }

  lemma FillInv(s: State)
    requires Inv(s) && Enabled(s, Fill)
    ensures Inv(Apply(s, Fill))
  {
    var s' := Apply(s, Fill);
    forall q: nat | q < |s'.comm| ensures ReaderInv(s', q) {
      assert ReaderInv(s, q);
      NotWritten(s, q);
    }
  }

  /** The buffer being written is none that reader r holds or may read again before its next exchange. */
  lemma NotWritten(s: State, r: nat)
    requires Inv(s) && (s.w.WHolds? || s.w.WFilled?) && r < |s.comm|
    ensures s.lastRead[r] != s.writing && s.reading[r] != s.writing && s.comm[r] != s.writing &&
      Given(s, r) != s.writing
  {
    assert ReaderInv(s, r);
  }

  lemma GiveInv(s: State)
    requires Inv(s) && Enabled(s, Give)
    ensures Inv(Apply(s, Give))
  {
    var s' := Apply(s, Give);
    forall q: nat | q < |s'.comm| ensures ReaderInv(s', q) { assert ReaderInv(s, q); }
  }

  lemma EndWriteInv(s: State)
    requires Inv(s) && Enabled(s, EndWrite)
    ensures Inv(Apply(s, EndWrite))
  {
    var s' := Apply(s, EndWrite);
    forall q: nat | q < |s'.comm| ensures ReaderInv(s', q) { assert ReaderInv(s, q); }
  }

  lemma StepInv(s: State, l: Label)
    requires Inv(s) && Enabled(s, l)
    ensures Inv(Apply(s, l))
  {
    hide Inv, Apply;
    match l
    case Take(r) => TakeInv(s, r);
    case Release(r) => ReleaseInv(s, r);
    case StartWrite => StartWriteInv(s);
    case Fill => FillInv(s);
    case Give => GiveInv(s);
    case EndWrite => EndWriteInv(s);
  }

  /** Nobody waits: in every state the invariant allows, each reader and the writer can make a step. */
  lemma NoneWaits(s: State, r: nat)
    requires Inv(s) && r < |s.comm|
    ensures Enabled(s, if s.reading[r] == EMPTY then Take(r) else Release(r))
    ensures Enabled(s, StartWrite) || Enabled(s, Fill) || Enabled(s, Give) || Enabled(s, EndWrite)
  {
  }

  lemma InitInv(n: nat)
    ensures Inv(Init(n))
  {
  }

  lemma {:induction false} RunInv(n: nat, labels: seq<Label>, states: seq<State>, k: nat)
    requires IsRun(n, labels, states) && k <= |labels|
    ensures Inv(states[k])
  {
    hide Inv, Apply;
    if k == 0 { InitInv(n); }
    else {
      RunInv(n, labels, states, k - 1);
      StepInv(states[k - 1], labels[k - 1]);
    }
  }

  // ---------------------------------------------------------------- over whole runs

  /** In every state of every run the writer has not given up for lack of a buffer, and while it fills one, no
      reader is reading that buffer, would read it again, or could take it. */
  lemma NoConflict(n: nat, labels: seq<Label>, states: seq<State>, k: nat, r: nat)
    requires IsRun(n, labels, states) && k <= |labels| && r < |states[k].comm|
    ensures states[k].w != WExit && Sized(states[k])
    ensures states[k].w.WHolds? || states[k].w.WFilled? ==>
              var s := states[k];
              s.reading[r] != s.writing && s.lastRead[r] != s.writing && s.comm[r] != s.writing
  {
    RunInv(n, labels, states, k);
    if states[k].w.WHolds? || states[k].w.WFilled? { NotWritten(states[k], r); }
  }

  /** The number of the write in the buffer reader r took last. */
  function Stamp(s: State, r: nat): int
    requires Sized(s) && r < |s.comm| && 0 <= s.lastRead[r] < |s.data|
  {
    s.data[s.lastRead[r]]
  }

  lemma StampDefined(s: State, r: nat)
    requires Inv(s) && r < |s.comm|
    ensures 0 <= s.lastRead[r] < |s.data|
  {
    assert ReaderInv(s, r);
  }

  predicate Takes(s: State, l: Label, r: nat)
    requires Sized(s) && r < |s.comm|
  {
    l == Take(r) && s.comm[r] != EMPTY
  }

  /** A step that is not a successful take by r leaves its buffer and the content of that buffer alone;
      a take moves it to the buffer given last, whose write is no older. */
  lemma StampStep(s: State, l: Label, r: nat)
    requires Inv(s) && Enabled(s, l) && r < |s.comm|
    ensures Inv(Apply(s, l)) && 0 <= s.lastRead[r] < |s.data| && 0 <= Apply(s, l).lastRead[r] < |s.data|
    ensures !Takes(s, l, r) ==> Apply(s, l).lastRead[r] == s.lastRead[r] && Stamp(Apply(s, l), r) == Stamp(s, r)
    ensures Stamp(s, r) <= Stamp(Apply(s, l), r)
    ensures l == Take(r) ==> Apply(s, l).lastRead[r] == Given(s, r) && Apply(s, l).reading[r] == Given(s, r)
  {
    StepInv(s, l);
    assert ReaderInv(s, r);
    if l == Fill { NotWritten(s, r); }
  }

  /** The write numbers a reader sees never decrease. */
  lemma {:induction false} ReadsAreMonotone(n: nat, labels: seq<Label>, states: seq<State>, i: nat, j: nat, r: nat)
    requires IsRun(n, labels, states) && i <= j <= |labels| && r < n
    ensures Inv(states[i]) && Inv(states[j]) && |states[i].comm| == |states[j].comm| == n
    ensures 0 <= states[i].lastRead[r] < |states[i].data| && 0 <= states[j].lastRead[r] < |states[j].data|
    ensures Stamp(states[i], r) <= Stamp(states[j], r)
    decreases j
  {
    RunInv(n, labels, states, i);
    RunInv(n, labels, states, j);
    hide Inv, Apply, Given;
    SizeKept(n, labels, states, i);
    SizeKept(n, labels, states, j);
    StampDefined(states[i], r);
    StampDefined(states[j], r);
    if i < j {
      ReadsAreMonotone(n, labels, states, i, j - 1, r);
      StampStep(states[j - 1], labels[j - 1], r);
    }
  }

  lemma {:induction false} SizeKept(n: nat, labels: seq<Label>, states: seq<State>, k: nat)
    requires IsRun(n, labels, states) && k <= |labels|
    ensures Sized(states[k]) && |states[k].comm| == n
  {
    if k > 0 {
      SizeKept(n, labels, states, k - 1);
      assert Enabled(states[k - 1], labels[k - 1]);
      hide Apply, Enabled;
    }
  }

  /** Until its next successful take, a reader's buffer and its content stay as they are. */
  lemma {:induction false} HeldUnchanged(n: nat, labels: seq<Label>, states: seq<State>, i: nat, j: nat, r: nat)
    requires IsRun(n, labels, states) && i <= j <= |labels| && r < n
    requires forall k :: i <= k < j ==> Sized(states[k]) && |states[k].comm| == n && !Takes(states[k], labels[k], r)
    ensures Sized(states[i]) && Sized(states[j]) && |states[i].comm| == |states[j].comm| == n
    ensures 0 <= states[i].lastRead[r] < |states[i].data|
    ensures states[j].lastRead[r] == states[i].lastRead[r] && |states[j].data| == |states[i].data|
    ensures states[j].data[states[i].lastRead[r]] == states[i].data[states[i].lastRead[r]]
    decreases j
  {
    SizeKept(n, labels, states, i);
    SizeKept(n, labels, states, j);
    RunInv(n, labels, states, i);
    hide Inv, Apply, Given;
    StampDefined(states[i], r);
    if i < j {
      HeldUnchanged(n, labels, states, i, j - 1, r);
      RunInv(n, labels, states, j - 1);
      StampStep(states[j - 1], labels[j - 1], r);
    }
  }

  /** A start_read whose exchange falls outside finish_write returns the buffer of the last finished write;
      inside, it returns that one or the one being given, by whether the loop has reached the reader. */
  lemma ReadsLastFinished(n: nat, labels: seq<Label>, states: seq<State>, k: nat, r: nat)
    requires IsRun(n, labels, states) && k < |labels| && labels[k] == Take(r)
    ensures Sized(states[k]) && r < |states[k].comm| && Sized(states[k + 1]) && |states[k + 1].comm| == |states[k].comm|
    ensures 0 <= states[k + 1].reading[r] < |states[k + 1].data|
    ensures var s := states[k];
            states[k + 1].data[states[k + 1].reading[r]] == if s.w.WGives? && r < s.w.r then Done(s) + 1 else Done(s)
  {
    RunInv(n, labels, states, k);
    var s := states[k];
    assert Enabled(s, labels[k]);
    StampStep(s, labels[k], r);
    assert ReaderInv(s, r);
    assert states[k + 1].data == s.data;
  }
}
