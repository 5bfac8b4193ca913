/** A lock-free hash table. */
module HashTable {
  // The model of atomics/hashtable_atomic.c.
  // A step system: every atomic load, store and compare-and-swap is one step, any number of threads interleave,
  // and the table size is a parameter.

  type Tid = nat

  datatype Op =
    | SetItem(key: int, value: int)
    | GetItem(key: int)
    | AddItem(key: int, value: int)

  /** Where a thread stands: about to load a key cell, about to swap a key into a cell it saw empty,
      about to access a value cell, or about to return. */
  datatype Pc =
    | Idle
    | LoadKey(op: Op, idx: nat)
    | CasKey(op: Op, idx: nat)
    | AtValue(op: Op, idx: nat)
    | Returning(op: Op, res: int)

  datatype Slot = Slot(key: int, value: int)

  datatype State = State(slots: seq<Slot>, pcs: map<Tid, Pc>)

  // ---------------------------------------------------------------- the code, one atomic access a step

  /** The product is taken in 32-bit unsigned arithmetic and converted to a signed int. */
  function IntegerHash(i: int): (h: int)
    ensures -0x8000_0000 <= h < 0x8000_0000
  {
    var p := (i * 654435761) % 0x1_0000_0000;
    if p < 0x8000_0000 then p else p - 0x1_0000_0000
  }

  /** The first slot probed; masking with ARRAY_SIZE - 1 is reduction modulo a power of two
      (lemma StartIsMask of module HashTableRuns). */
  function Start(key: int, n: nat): (i: nat)
    requires n > 0
    ensures i < n
  {
    IntegerHash(key) % n
  }

  /** The slot probed next: idx++ and the mask (lemma NextIsMask of module HashTableRuns). */
  function Next(idx: nat, n: nat): (i: nat)
    requires idx < n
    ensures i < n
  {
    if idx + 1 == n then 0 else idx + 1
  }

  /** The step of one thread that is not idle: the new program point and the new table. */
  function Access(slots: seq<Slot>, pc: Pc): (Pc, seq<Slot>)
    requires pc.LoadKey? || pc.CasKey? || pc.AtValue? ==> pc.idx < |slots|
  {
    match pc
    case LoadKey(op, idx) =>
      var probed := slots[idx].key;
      if probed == op.key then (AtValue(op, idx), slots)
      else if probed != 0 then (LoadKey(op, Next(idx, |slots|)), slots)
      else if op.GetItem? then (Returning(op, 0), slots)
      else (CasKey(op, idx), slots)
    case CasKey(op, idx) =>
      var seen := slots[idx].key;
      if seen == 0 then (AtValue(op, idx), slots[idx := slots[idx].(key := op.key)])
      else if seen != op.key then (LoadKey(op, Next(idx, |slots|)), slots)
      else (AtValue(op, idx), slots)
    case AtValue(op, idx) =>
      var v := slots[idx].value;
      (match op
       case GetItem(_) => (Returning(op, v), slots)
       case SetItem(_, value) => (Returning(op, 0), slots[idx := slots[idx].(value := value)])
       case AddItem(_, value) =>
         if v == 0 then (Returning(op, 1), slots[idx := slots[idx].(value := value)])
         else (Returning(op, 0), slots))
    case _ => (pc, slots)
  }

  // ---------------------------------------------------------------- runs and histories

  datatype Label = Call(tid: Tid, op: Op) | Run(tid: Tid) | Return(tid: Tid)

  datatype Event = Inv(tid: Tid, op: Op) | Res(tid: Tid, res: int)

  predicate InRange(s: State) {
    |s.slots| > 0 &&
    forall t :: t in s.pcs && (s.pcs[t].LoadKey? || s.pcs[t].CasKey? || s.pcs[t].AtValue?) ==> s.pcs[t].idx < |s.slots|
  }

  predicate Enabled(s: State, l: Label) {
    l.tid in s.pcs &&
    match l
    case Call(t, _) => s.pcs[t].Idle?
    case Run(t) => s.pcs[t].LoadKey? || s.pcs[t].CasKey? || s.pcs[t].AtValue?
    case Return(t) => s.pcs[t].Returning?
  }

  function Apply(s: State, l: Label): (s': State)
    requires InRange(s) && Enabled(s, l)
    ensures InRange(s') && |s'.slots| == |s.slots| && s'.pcs.Keys == s.pcs.Keys
  {
    match l
    case Call(t, op) => s.(pcs := s.pcs[t := LoadKey(op, Start(op.key, |s.slots|))])
    case Run(t) =>
      var (pc, slots) := Access(s.slots, s.pcs[t]);
      State(slots, s.pcs[t := pc])
    case Return(t) => s.(pcs := s.pcs[t := Idle])
  }

  function EventsOf(s: State, l: Label): seq<Event>
    requires Enabled(s, l)
  {
    match l
    case Call(t, op) => [Inv(t, op)]
    case Run(t) => []
    case Return(t) => [Res(t, s.pcs[t].res)]
  }

  function Init(n: nat, threads: set<Tid>): State {
    State(seq(n, _ => Slot(0, 0)), map t | t in threads :: Idle)
  }

  /** labels is a schedule the table can follow from the empty table. */
  predicate ValidRun(n: nat, threads: set<Tid>, labels: seq<Label>)
    requires n > 0
    ensures ValidRun(n, threads, labels) && labels != [] ==> ValidRun(n, threads, labels[..|labels| - 1])
    decreases |labels|, 0
  {
    labels == [] ||
    (ValidRun(n, threads, labels[..|labels| - 1]) &&
     Enabled(After(n, threads, labels[..|labels| - 1]), labels[|labels| - 1]))
  }

  function After(n: nat, threads: set<Tid>, labels: seq<Label>): (s: State)
    requires n > 0 && ValidRun(n, threads, labels)
    ensures InRange(s) && |s.slots| == n && s.pcs.Keys == threads
    decreases |labels|, 1
  {
    if labels == [] then Init(n, threads)
    else Apply(After(n, threads, labels[..|labels| - 1]), labels[|labels| - 1])
  }

  /** What the clients of the table can see of a run: calls and returns, in order. */
  function History(n: nat, threads: set<Tid>, labels: seq<Label>): seq<Event>
    requires n > 0 && ValidRun(n, threads, labels)
    decreases |labels|
  {
    if labels == [] then []
    else
      var before := labels[..|labels| - 1];
      History(n, threads, before) + EventsOf(After(n, threads, before), labels[|labels| - 1])
  }

  predicate NonZeroKeys(labels: seq<Label>) {
    forall i :: 0 <= i < |labels| && labels[i].Call? ==> labels[i].op.key != 0
  }

  // ---------------------------------------------------------------- linearizability to a map

  function Find(m: map<int, int>, k: int): int {
    if k in m then m[k] else 0
  }

  function SpecRes(m: map<int, int>, op: Op): int {
    match op
    case SetItem(_, _) => 0
    case GetItem(k) => Find(m, k)
    case AddItem(k, _) => if Find(m, k) == 0 then 1 else 0
  }

  function SpecMap(m: map<int, int>, op: Op): map<int, int> {
    match op
    case SetItem(k, v) => m[k := v]
    case GetItem(_) => m
    case AddItem(k, v) => if Find(m, k) == 0 then m[k := v] else m
  }

  /** One operation of the sequential order; id is the position of its invocation in the history. */
  datatype LinEntry = LinEntry(id: nat, op: Op, res: int)

  function Replay(lin: seq<LinEntry>): map<int, int> {
    if lin == [] then map[] else SpecMap(Replay(lin[..|lin| - 1]), lin[|lin| - 1].op)
  }

  predicate Legal(lin: seq<LinEntry>) {
    forall p :: 0 <= p < |lin| ==> lin[p].res == SpecRes(Replay(lin[..p]), lin[p].op)
  }

  /** h[j] is the return of the call h[i]. */
  predicate Answers(h: seq<Event>, i: nat, j: nat) {
    i < j < |h| && h[i].Inv? && h[j].Res? && h[i].tid == h[j].tid &&
    forall k :: i < k < j ==> h[k].tid != h[i].tid
  }

  /** lin is a sequential order of operations of h, legal for a map, that holds every completed operation
      with the result it returned and never puts an operation before one that had returned when it was called. */
  ghost predicate Linearizes(lin: seq<LinEntry>, h: seq<Event>) {
    && (forall p :: 0 <= p < |lin| ==> lin[p].id < |h| && h[lin[p].id].Inv? && h[lin[p].id].op == lin[p].op)
    && (forall p, q :: 0 <= p < q < |lin| ==> lin[p].id != lin[q].id)
    && (forall i: nat, j: nat :: Answers(h, i, j) ==> LinEntry(i, h[i].op, h[j].res) in lin)
    && (forall p, q, j: nat :: 0 <= p < q < |lin| && Answers(h, lin[q].id, j) ==> lin[p].id < j)
    && Legal(lin)
  }

  /** Every return answers a call. */
  ghost predicate WellFormed(h: seq<Event>) {
    forall j: nat :: j < |h| && h[j].Res? ==> exists i: nat :: Answers(h, i, j)
  }

  // ---------------------------------------------------------------- the inductive invariant

  /** How many probes lead from the first slot of a key to slot idx. */
  function Dist(start: nat, idx: nat, n: nat): (d: nat)
    requires start < n && idx < n
    ensures d < n
  {
    if idx >= start then idx - start else idx + n - start
  }

  ghost predicate PathFull(slots: seq<Slot>, key: int, idx: nat)
    requires idx < |slots|
  {
    forall c :: 0 <= c < |slots| && Dist(Start(key, |slots|), c, |slots|) < Dist(Start(key, |slots|), idx, |slots|)
      ==> slots[c].key != 0
  }

  ghost predicate PathWithout(slots: seq<Slot>, key: int, idx: nat)
    requires idx < |slots|
  {
    forall c :: 0 <= c < |slots| && Dist(Start(key, |slots|), c, |slots|) < Dist(Start(key, |slots|), idx, |slots|)
      ==> slots[c].key != key
  }

  /** Keys are unique, the probe path from a key's hash to its slot has no empty cell, and a free slot has no value. */
  ghost predicate TableInv(slots: seq<Slot>) {
    && (forall a, b :: 0 <= a < b < |slots| && slots[a].key != 0 ==> slots[a].key != slots[b].key)
    && (forall a :: 0 <= a < |slots| && slots[a].key != 0 ==> PathFull(slots, slots[a].key, a))
    && (forall a :: 0 <= a < |slots| && slots[a].key == 0 ==> slots[a].value == 0)
  }

  ghost predicate PcInv(slots: seq<Slot>, pc: Pc) {
    match pc
    case Idle => true
    case LoadKey(op, idx) =>
      op.key != 0 && idx < |slots| && PathFull(slots, op.key, idx) && PathWithout(slots, op.key, idx)
    case CasKey(op, idx) =>
      && op.key != 0 && !op.GetItem? && idx < |slots|
      && PathFull(slots, op.key, idx) && PathWithout(slots, op.key, idx)
    case AtValue(op, idx) => op.key != 0 && idx < |slots| && slots[idx].key == op.key
    case Returning(op, _) => op.key != 0
  }

  ghost predicate StateInv(s: State) {
    |s.slots| > 0 && TableInv(s.slots) && forall t :: t in s.pcs ==> PcInv(s.slots, s.pcs[t])
  }

  /** The map the cells stand for. */
  ghost predicate Abstracts(slots: seq<Slot>, m: map<int, int>) {
    && (forall a :: 0 <= a < |slots| && slots[a].key != 0 ==> Find(m, slots[a].key) == slots[a].value)
    && (forall k :: k != 0 && k in m && m[k] != 0 ==> exists a :: 0 <= a < |slots| && slots[a].key == k)
  }

  /** Between two tables of a run a key cell changes once, from 0. */
  predicate KeysKept(slots: seq<Slot>, slots': seq<Slot>) {
    |slots| == |slots'| && forall a :: 0 <= a < |slots| && slots[a].key != 0 ==> slots'[a].key == slots[a].key
  }

  /** The access of this thread takes effect on the map now. */
  predicate Commits(slots: seq<Slot>, pc: Pc)
    requires pc.LoadKey? || pc.CasKey? || pc.AtValue? ==> pc.idx < |slots|
  {
    !pc.Returning? && Access(slots, pc).0.Returning?
  }

  lemma PcInvKept(slots: seq<Slot>, slots': seq<Slot>, pc: Pc)
    requires PcInv(slots, pc) && KeysKept(slots, slots') && |slots| > 0
    ensures PcInv(slots', pc)
  {
    hide Start, IntegerHash;
    match pc
    case LoadKey(op, idx) => PathsKept(slots, slots', op.key, idx);
    case CasKey(op, idx) => PathsKept(slots, slots', op.key, idx);
    case _ =>
  }

  lemma PathsKept(slots: seq<Slot>, slots': seq<Slot>, key: int, idx: nat)
    requires KeysKept(slots, slots') && idx < |slots| && PathFull(slots, key, idx) && PathWithout(slots, key, idx)
    ensures PathFull(slots', key, idx) && PathWithout(slots', key, idx)
  {
    hide Start, IntegerHash;
    forall c | 0 <= c < |slots'| && Dist(Start(key, |slots'|), c, |slots'|) < Dist(Start(key, |slots'|), idx, |slots'|)
      ensures slots'[c].key != 0 && slots'[c].key != key
    {
      assert slots[c].key != 0;
    }
  }

  lemma DistNext(start: nat, idx: nat, c: nat, n: nat)
    requires start < n && idx < n && c < n && Dist(start, c, n) < Dist(start, Next(idx, n), n)
    ensures c == idx || Dist(start, c, n) < Dist(start, idx, n)
  {
  }

  /** Moving on from a slot that holds another key extends the walked path by that slot. */
  lemma WalkOn(slots: seq<Slot>, key: int, idx: nat)
    requires idx < |slots| && PathFull(slots, key, idx) && PathWithout(slots, key, idx)
    requires slots[idx].key != 0 && slots[idx].key != key
    ensures PathFull(slots, key, Next(idx, |slots|)) && PathWithout(slots, key, Next(idx, |slots|))
  {
    hide Start, IntegerHash;
    hide Dist, Next;
    var n, start := |slots|, Start(key, |slots|);
    forall c | 0 <= c < n && Dist(start, c, n) < Dist(start, Next(idx, n), n)
      ensures slots[c].key != 0 && slots[c].key != key
    {
      DistNext(start, idx, c, n);
    }
  }

  /** An empty cell at the end of a walked path proves the key absent. */
  lemma AbsentAt(slots: seq<Slot>, key: int, idx: nat)
    requires TableInv(slots) && key != 0 && idx < |slots|
    requires PathWithout(slots, key, idx) && slots[idx].key == 0
    ensures forall a :: 0 <= a < |slots| ==> slots[a].key != key
  {
    hide Start, IntegerHash;
    forall a | 0 <= a < |slots| ensures slots[a].key != key {
      assert slots[a].key != 0 ==> PathFull(slots, slots[a].key, a);
    }
  }

  /** Claiming the empty cell at the end of a walked path keeps the table sound. */
  lemma ClaimKeepsTable(slots: seq<Slot>, key: int, idx: nat)
    requires TableInv(slots) && key != 0 && idx < |slots|
    requires PathFull(slots, key, idx) && PathWithout(slots, key, idx) && slots[idx].key == 0
    ensures TableInv(slots[idx := slots[idx].(key := key)])
    ensures KeysKept(slots, slots[idx := slots[idx].(key := key)])
  {
    hide Start, IntegerHash;
    AbsentAt(slots, key, idx);
    var slots' := slots[idx := slots[idx].(key := key)];
    forall a | 0 <= a < |slots'| && slots'[a].key != 0 ensures PathFull(slots', slots'[a].key, a) {
      assert a != idx ==> PathFull(slots, slots[a].key, a);
      assert PathFull(slots, slots'[a].key, a);
    }
  }

  /** One access of one thread keeps the table sound, keeps every key cell that is set, and leaves the thread
      at a sound program point. */
  lemma AccessKeeps(slots: seq<Slot>, pc: Pc)
    requires |slots| > 0 && TableInv(slots) && PcInv(slots, pc)
    ensures TableInv(Access(slots, pc).1) && KeysKept(slots, Access(slots, pc).1)
    ensures PcInv(Access(slots, pc).1, Access(slots, pc).0)
  {
    hide Start, IntegerHash;
    var slots' := Access(slots, pc).1;
    match pc
    case LoadKey(op, idx) =>
      if slots[idx].key != 0 && slots[idx].key != op.key { WalkOn(slots, op.key, idx); }
    case CasKey(op, idx) =>
      if slots[idx].key == 0 { ClaimKeepsTable(slots, op.key, idx); }
      else if slots[idx].key != op.key { WalkOn(slots, op.key, idx); }
    case AtValue(op, idx) =>
      forall a | 0 <= a < |slots'| && slots'[a].key != 0 ensures PathFull(slots', slots'[a].key, a) {
        assert PathFull(slots, slots[a].key, a);
      }
    case _ =>
  }

  /** The access that commits answers as the map does and moves the map as the operation does;
      every other access leaves the map alone. */
  lemma AccessRefines(slots: seq<Slot>, pc: Pc, m: map<int, int>)
    requires |slots| > 0 && TableInv(slots) && PcInv(slots, pc) && Abstracts(slots, m) && !pc.Idle? && !pc.Returning?
    ensures Commits(slots, pc) ==>
              Access(slots, pc).0.res == SpecRes(m, pc.op) && Abstracts(Access(slots, pc).1, SpecMap(m, pc.op))
    ensures !Commits(slots, pc) ==> Abstracts(Access(slots, pc).1, m)
  {
    hide Start, IntegerHash;
    var (pc', slots') := Access(slots, pc);
    match pc
    case LoadKey(op, idx) =>
      if slots[idx].key == 0 { AbsentAt(slots, op.key, idx); }
    case CasKey(op, idx) =>
      if slots[idx].key == 0 {
        AbsentAt(slots, op.key, idx);
        assert slots'[idx].key == op.key;
        forall k | k != 0 && k in m && m[k] != 0 ensures exists a :: 0 <= a < |slots'| && slots'[a].key == k {
          var a :| 0 <= a < |slots| && slots[a].key == k;
          assert slots'[a].key == k;
        }
      }
    case AtValue(op, idx) =>
      var m' := SpecMap(m, op);
      assert Find(m, op.key) == slots[idx].value;
      forall k | k != 0 && k in m' && m'[k] != 0 ensures exists a :: 0 <= a < |slots'| && slots'[a].key == k {
        if k == op.key {
          assert slots'[idx].key == k;
        } else {
          var a :| 0 <= a < |slots| && slots[a].key == k;
          assert slots'[a].key == k;
        }
      }
  }

  // ---------------------------------------------------------------- the order of commits linearizes the history

  /** The history with the order in which operations took effect and the call each thread is working on. */
  datatype Trace = Trace(h: seq<Event>, lin: seq<LinEntry>, pending: map<Tid, nat>)

  function Extend(s: State, g: Trace, l: Label): Trace
    requires InRange(s) && Enabled(s, l) && (!l.Call? ==> l.tid in g.pending)
  {
    match l
    case Call(t, op) => Trace(g.h + EventsOf(s, l), g.lin, g.pending[t := |g.h|])
    case Run(t) =>
      if Commits(s.slots, s.pcs[t]) then
        g.(lin := g.lin + [LinEntry(g.pending[t], s.pcs[t].op, Access(s.slots, s.pcs[t]).0.res)])
      else g
    case Return(t) => g.(h := g.h + EventsOf(s, l))
  }

  /** The call a busy thread is working on is its last event. */
  ghost predicate PendingInv(s: State, g: Trace) {
    && (forall t :: t in s.pcs && !s.pcs[t].Idle? ==>
         t in g.pending && g.pending[t] < |g.h| && g.h[g.pending[t]] == Inv(t, s.pcs[t].op) &&
         forall k :: g.pending[t] < k < |g.h| ==> g.h[k].tid != t)
    && (forall k :: 0 <= k < |g.h| ==> g.h[k].tid in s.pcs)
  }

  /** An operation that is under way is in the order exactly when it has committed. */
  ghost predicate CommitInv(s: State, g: Trace) {
    forall t :: t in s.pcs && !s.pcs[t].Idle? ==>
      t in g.pending &&
      (s.pcs[t].Returning? ==> LinEntry(g.pending[t], s.pcs[t].op, s.pcs[t].res) in g.lin) &&
      (!s.pcs[t].Returning? ==> forall p :: 0 <= p < |g.lin| ==> g.lin[p].id != g.pending[t])
  }

  ghost predicate TraceInv(s: State, g: Trace) {
    && StateInv(s) && PendingInv(s, g) && CommitInv(s, g)
    && Linearizes(g.lin, g.h) && WellFormed(g.h)
    && Abstracts(s.slots, Replay(g.lin))
  }

  lemma LegalAppend(lin: seq<LinEntry>, e: LinEntry)
    requires Legal(lin) && e.res == SpecRes(Replay(lin), e.op)
    ensures Legal(lin + [e]) && Replay(lin + [e]) == SpecMap(Replay(lin), e.op)
  {
    var lin' := lin + [e];
    forall p | 0 <= p < |lin'| ensures lin'[p].res == SpecRes(Replay(lin'[..p]), lin'[p].op) {
      assert lin'[..p] == if p < |lin| then lin[..p] else lin;
    }
    assert lin'[..|lin'| - 1] == lin;
  }

  /** Appending an event changes no answer among the events before it. */
  lemma AnswersAppend(h: seq<Event>, e: Event, i: nat, j: nat)
    requires j < |h|
    ensures Answers(h + [e], i, j) == Answers(h, i, j)
  {
    var h' := h + [e];
    if i < j {
      assert forall k :: i <= k <= j ==> h'[k] == h[k];
      if Answers(h', i, j) { forall k | i < k < j ensures h[k].tid != h[i].tid { assert h'[k] == h[k]; } }
    }
  }

  lemma CallLinearizes(g: Trace, e: Event)
    requires Linearizes(g.lin, g.h) && WellFormed(g.h) && e.Inv?
    ensures Linearizes(g.lin, g.h + [e]) && WellFormed(g.h + [e])
  {
    hide Start, IntegerHash;
    var h' := g.h + [e];
    hide Legal;
    forall i: nat, j: nat | Answers(h', i, j) ensures j < |g.h| && Answers(g.h, i, j) {
      AnswersAppend(g.h, e, i, if j < |g.h| then j else 0);
    }
    forall j: nat | j < |h'| && h'[j].Res? ensures exists i: nat :: Answers(h', i, j) {
      var i: nat :| Answers(g.h, i, j);
      AnswersAppend(g.h, e, i, j);
    }
  }

  lemma CallStep(s: State, g: Trace, t: Tid, op: Op)
    requires InRange(s) && TraceInv(s, g) && Enabled(s, Call(t, op)) && op.key != 0
    ensures TraceInv(Apply(s, Call(t, op)), Extend(s, g, Call(t, op)))
  {
    hide Start, IntegerHash, Linearizes, WellFormed, TableInv, CommitInv, PendingInv, Abstracts;
    CallLinearizes(g, Inv(t, op));
    CallCommits(s, g, t, op);
    CallPending(s, g, t, op);
  }

  lemma CallPending(s: State, g: Trace, t: Tid, op: Op)
    requires InRange(s) && PendingInv(s, g) && Enabled(s, Call(t, op))
    ensures PendingInv(Apply(s, Call(t, op)), Extend(s, g, Call(t, op)))
  {
    hide Start, IntegerHash;
  }

  lemma CallCommits(s: State, g: Trace, t: Tid, op: Op)
    requires InRange(s) && TraceInv(s, g) && Enabled(s, Call(t, op))
    ensures CommitInv(Apply(s, Call(t, op)), Extend(s, g, Call(t, op)))
  {
    hide Start, IntegerHash;
    assert forall p :: 0 <= p < |g.lin| ==> g.lin[p].id < |g.h|;
    hide Linearizes, WellFormed, Legal, Answers, StateInv, PendingInv, Abstracts;
  }

  /** A return answers the call its thread was working on, and nothing else changes its answer. */
  lemma ReturnAnswers(s: State, g: Trace, t: Tid, e: Event, i: nat, j: nat)
    requires TraceInv(s, g) && Enabled(s, Return(t)) && e == Res(t, s.pcs[t].res)
    ensures Answers(g.h + [e], i, j) <==> Answers(g.h, i, j) || (i == g.pending[t] && j == |g.h|)
  {
    hide Start, IntegerHash;
    var h', id := g.h + [e], g.pending[t];
    if j < |g.h| { AnswersAppend(g.h, e, i, j); }
    else if j == |g.h| {
      assert forall k :: 0 <= k < j ==> h'[k] == g.h[k];
      assert h'[id].tid == t;
    }
  }

  lemma ReturnStep(s: State, g: Trace, t: Tid)
    requires InRange(s) && TraceInv(s, g) && Enabled(s, Return(t))
    ensures TraceInv(Apply(s, Return(t)), Extend(s, g, Return(t)))
  {
    hide Start, IntegerHash;
    var e := Res(t, s.pcs[t].res);
    ReturnLinearizes(s, g, t, e);
    ReturnWellFormed(s, g, t, e);
    ReturnCommits(s, g, t, e);
    ReturnPending(s, g, t, e);
    hide Linearizes, WellFormed, Abstracts, TableInv, InRange, PendingInv, CommitInv;
  }

  lemma ReturnCommits(s: State, g: Trace, t: Tid, e: Event)
    requires InRange(s) && CommitInv(s, g) && Enabled(s, Return(t))
    ensures CommitInv(Apply(s, Return(t)), g.(h := g.h + [e]))
  {
    hide InRange;
  }

  lemma ReturnPending(s: State, g: Trace, t: Tid, e: Event)
    requires InRange(s) && PendingInv(s, g) && Enabled(s, Return(t)) && e.Res? && e.tid == t
    ensures PendingInv(Apply(s, Return(t)), g.(h := g.h + [e]))
  {
    hide InRange;
  }

  lemma ReturnLinearizes(s: State, g: Trace, t: Tid, e: Event)
    requires TraceInv(s, g) && Enabled(s, Return(t)) && e == Res(t, s.pcs[t].res)
    ensures Linearizes(g.lin, g.h + [e])
  {
    hide Start, IntegerHash;
    var h' := g.h + [e];
    forall i: nat, j: nat | Answers(h', i, j) ensures LinEntry(i, h'[i].op, h'[j].res) in g.lin {
      ReturnAnswers(s, g, t, e, i, j);
    }
    forall p, q, j: nat | 0 <= p < q < |g.lin| && Answers(h', g.lin[q].id, j) ensures g.lin[p].id < j {
      ReturnAnswers(s, g, t, e, g.lin[q].id, j);
    }
    hide StateInv, PendingInv, CommitInv, Answers, Legal, Abstracts, WellFormed;
  }

  lemma ReturnWellFormed(s: State, g: Trace, t: Tid, e: Event)
    requires TraceInv(s, g) && Enabled(s, Return(t)) && e == Res(t, s.pcs[t].res)
    ensures WellFormed(g.h + [e])
  {
    hide Start, IntegerHash, Linearizes, StateInv, Abstracts, CommitInv;
    var h' := g.h + [e];
    forall j: nat | j < |h'| && h'[j].Res? ensures exists i: nat :: Answers(h', i, j) {
      if j < |g.h| {
        assert g.h[j].Res?;
        var i: nat :| Answers(g.h, i, j);
        AnswersAppend(g.h, e, i, j);
      } else {
        ReturnAnswers(s, g, t, e, g.pending[t], j);
      }
    }
  }

  lemma RunStateStep(s: State, t: Tid)
    requires InRange(s) && StateInv(s) && Enabled(s, Run(t))
    ensures StateInv(Apply(s, Run(t)))
  {
    hide Start, IntegerHash;
    AccessKeeps(s.slots, s.pcs[t]);
    var s' := Apply(s, Run(t));
    forall u | u in s'.pcs ensures PcInv(s'.slots, s'.pcs[u]) {
      if u != t { PcInvKept(s.slots, s'.slots, s.pcs[u]); }
    }
  }

  lemma BusyPending(s: State, g: Trace, l: Label)
    requires PendingInv(s, g) && Enabled(s, l) && !l.Call?
    ensures l.tid in g.pending
  {
  }

  lemma BusyCall(s: State, g: Trace, t: Tid)
    requires PendingInv(s, g) && t in s.pcs && !s.pcs[t].Idle?
    ensures t in g.pending && g.pending[t] < |g.h| && g.h[g.pending[t]] == Inv(t, s.pcs[t].op)
    ensures forall k :: g.pending[t] < k < |g.h| ==> g.h[k].tid != t
  {
  }

  lemma NotYetCommitted(s: State, g: Trace, t: Tid)
    requires CommitInv(s, g) && t in s.pcs && !s.pcs[t].Idle? && !s.pcs[t].Returning?
    ensures t in g.pending && forall p :: 0 <= p < |g.lin| ==> g.lin[p].id != g.pending[t]
  {
  }

  lemma RunPending(s: State, g: Trace, t: Tid)
    requires InRange(s) && PendingInv(s, g) && Enabled(s, Run(t)) && t in g.pending
    ensures PendingInv(Apply(s, Run(t)), Extend(s, g, Run(t)))
  {
    hide Start, IntegerHash;
    assert Apply(s, Run(t)).pcs[t].Idle? || Apply(s, Run(t)).pcs[t].op == s.pcs[t].op;
  }

  lemma RunStep(s: State, g: Trace, t: Tid)
    requires InRange(s) && TraceInv(s, g) && Enabled(s, Run(t)) && t in g.pending
    ensures TraceInv(Apply(s, Run(t)), Extend(s, g, Run(t)))
  {
    hide Start, IntegerHash;
    hide Linearizes, WellFormed, Legal, Answers, TableInv, PendingInv, CommitInv, Abstracts;
    var pc := s.pcs[t];
    RunStateStep(s, t);
    RunPending(s, g, t);
    assert PcInv(s.slots, s.pcs[t]);
    AccessRefines(s.slots, pc, Replay(g.lin));
    if Commits(s.slots, pc) {
      var e := LinEntry(g.pending[t], pc.op, Access(s.slots, pc).0.res);
      LegalOfLinearizes(g.lin, g.h);
      LegalAppend(g.lin, e);
      assert e.id < |g.h| && g.h[e.id] == Inv(t, e.op) && (forall k :: e.id < k < |g.h| ==> g.h[k].tid != t) by {
        BusyCall(s, g, t);
      }
      assert forall p :: 0 <= p < |g.lin| ==> g.lin[p].id != e.id by { NotYetCommitted(s, g, t); }
      CommitLinearizes(g.lin, g.h, e);
      CommitKeepsPending(s, g, t, e);
    } else {
      RunKeepsCommits(s, g, t);
    }
  }

  lemma LegalOfLinearizes(lin: seq<LinEntry>, h: seq<Event>)
    requires Linearizes(lin, h)
    ensures Legal(lin)
  {
  }

  lemma RunKeepsCommits(s: State, g: Trace, t: Tid)
    requires InRange(s) && CommitInv(s, g) && Enabled(s, Run(t)) && !Commits(s.slots, s.pcs[t])
    ensures CommitInv(Apply(s, Run(t)), g)
  {
    hide Start, IntegerHash;
  }

  /** The entry of an open call goes last, so it is behind everything that has returned. */
  lemma CommitLinearizes(lin: seq<LinEntry>, h: seq<Event>, e: LinEntry)
    requires Linearizes(lin, h) && Legal(lin + [e])
    requires e.id < |h| && h[e.id].Inv? && h[e.id].op == e.op
    requires forall k :: e.id < k < |h| ==> h[k].tid != h[e.id].tid
    requires forall p :: 0 <= p < |lin| ==> lin[p].id != e.id
    ensures Linearizes(lin + [e], h)
  {
    hide Legal;
    var lin' := lin + [e];
    assert forall j: nat :: !Answers(h, e.id, j);
    forall i: nat, j: nat | Answers(h, i, j) ensures LinEntry(i, h[i].op, h[j].res) in lin' {
      assert LinEntry(i, h[i].op, h[j].res) in lin;
    }
    forall p, q, j: nat | 0 <= p < q < |lin'| && Answers(h, lin'[q].id, j) ensures lin'[p].id < j {
      assert lin'[p] == lin[p] && lin'[q] == lin[q];
    }
  }

  lemma CommitKeepsPending(s: State, g: Trace, t: Tid, e: LinEntry)
    requires InRange(s) && PendingInv(s, g) && CommitInv(s, g) && Enabled(s, Run(t)) && Commits(s.slots, s.pcs[t])
    requires e == LinEntry(g.pending[t], s.pcs[t].op, Access(s.slots, s.pcs[t]).0.res)
    ensures CommitInv(Apply(s, Run(t)), g.(lin := g.lin + [e]))
  {
    hide Start, IntegerHash, InRange;
    var lin', s' := g.lin + [e], Apply(s, Run(t));
    assert lin'[|g.lin|] == e && s'.pcs[t] == Returning(e.op, e.res);
    hide Access;
    forall u | u in s'.pcs && !s'.pcs[u].Idle?
      ensures s'.pcs[u].Returning? ==> LinEntry(g.pending[u], s'.pcs[u].op, s'.pcs[u].res) in lin'
      ensures !s'.pcs[u].Returning? ==> forall p :: 0 <= p < |lin'| ==> lin'[p].id != g.pending[u]
    {
      assert g.h[g.pending[u]].tid == u && g.h[e.id].tid == t;
      if s'.pcs[u].Returning? && u != t {
        var p :| 0 <= p < |g.lin| && g.lin[p] == LinEntry(g.pending[u], s.pcs[u].op, s.pcs[u].res);
        assert lin'[p] == g.lin[p];
      }
    }
  }

  lemma Parts(s: State, g: Trace)
    requires TraceInv(s, g)
    ensures PendingInv(s, g) && WellFormed(g.h) && Linearizes(g.lin, g.h)
  {
  }

  lemma InitInv(n: nat, threads: set<Tid>)
    requires n > 0
    ensures TraceInv(Init(n, threads), Trace([], [], map[]))
  {
  }

  /** Linearizability as the inductive statement over a run: the commits in their order linearize the history. */
  lemma {:induction false} RunInv(n: nat, threads: set<Tid>, labels: seq<Label>) returns (g: Trace)
    requires n > 0 && ValidRun(n, threads, labels) && NonZeroKeys(labels)
    ensures TraceInv(After(n, threads, labels), g) && g.h == History(n, threads, labels)
    decreases |labels|
  {
    hide TraceInv;
    if labels == [] {
      InitInv(n, threads);
      g := Trace([], [], map[]);
    } else {
      var before, l := labels[..|labels| - 1], labels[|labels| - 1];
      var g0 := RunInv(n, threads, before);
      var s := After(n, threads, before);
      if !l.Call? {
        assert PendingInv(s, g0) by { Parts(s, g0); }
        BusyPending(s, g0, l);
      }
      g := Extend(s, g0, l);
      match l
      case Call(t, op) => CallStep(s, g0, t, op);
      case Run(t) => RunStep(s, g0, t);
      case Return(t) => ReturnStep(s, g0, t);
    }
  }

  /** Every run of any number of threads, over a table of any size, is linearizable to a map in which 0 is absence. */
  lemma Linearizable(n: nat, threads: set<Tid>, labels: seq<Label>)
    requires n > 0 && ValidRun(n, threads, labels) && NonZeroKeys(labels)
    ensures WellFormed(History(n, threads, labels))
    ensures exists lin :: Linearizes(lin, History(n, threads, labels))
  {
    hide TraceInv;
    var g := RunInv(n, threads, labels);
    Parts(After(n, threads, labels), g);
  }
}
