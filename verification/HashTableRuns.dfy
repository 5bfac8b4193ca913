/** Runs of the hash table. */
module HashTableRuns {
  // What linearizability rests on and what follows from it: how key cells evolve over a run, the count of
  // successful adds, and why key 0 must stay outside the table.

  import opened HashTable
  import Bits

  const ARRAY_SIZE: nat := 16384

  lemma Snoc(n: nat, threads: set<Tid>, labels: seq<Label>, l: Label)
    requires n > 0 && ValidRun(n, threads, labels) && Enabled(After(n, threads, labels), l)
    ensures ValidRun(n, threads, labels + [l])
    ensures After(n, threads, labels + [l]) == Apply(After(n, threads, labels), l)
    ensures History(n, threads, labels + [l]) == History(n, threads, labels) + EventsOf(After(n, threads, labels), l)
  {
    assert (labels + [l])[..|labels|] == labels;
  }

  /** No thread ever waits for another: each can make its next step in every state. */
  lemma NoneWaits(s: State, t: Tid, op: Op)
    requires InRange(s) && t in s.pcs
    ensures s.pcs[t].Idle? ==> Enabled(s, Call(t, op))
    ensures s.pcs[t].LoadKey? || s.pcs[t].CasKey? || s.pcs[t].AtValue? ==> Enabled(s, Run(t))
    ensures s.pcs[t].Returning? ==> Enabled(s, Return(t))
  {
  }

  // ---------------------------------------------------------------- key cells

  /** In every state of every run keys are unique, probe paths are full, and free slots have no value. */
  lemma TableSound(n: nat, threads: set<Tid>, labels: seq<Label>)
    requires n > 0 && ValidRun(n, threads, labels) && NonZeroKeys(labels)
    ensures StateInv(After(n, threads, labels))
  {
    hide TraceInv;
    var g := RunInv(n, threads, labels);
    StateOf(After(n, threads, labels), g);
  }

  lemma StateOf(s: State, g: Trace)
    requires TraceInv(s, g)
    ensures StateInv(s)
  {
    hide Start, IntegerHash;
  }

  lemma ValidPrefix(n: nat, threads: set<Tid>, labels: seq<Label>, k: nat)
    requires n > 0 && ValidRun(n, threads, labels) && k <= |labels|
    ensures ValidRun(n, threads, labels[..k])
    decreases |labels|
  {
    if k < |labels| {
      ValidPrefix(n, threads, labels[..|labels| - 1], k);
      assert labels[..|labels| - 1][..k] == labels[..k];
    } else {
      assert labels[..k] == labels;
    }
  }

  /** A key cell changes once: a key set at any point of a run is there at every later point. */
  lemma {:induction false} KeysStay(n: nat, threads: set<Tid>, labels: seq<Label>, k: nat)
    requires n > 0 && ValidRun(n, threads, labels) && NonZeroKeys(labels) && k <= |labels|
    ensures ValidRun(n, threads, labels[..k])
    ensures KeysKept(After(n, threads, labels[..k]).slots, After(n, threads, labels).slots)
    decreases |labels|
  {
    ValidPrefix(n, threads, labels, k);
    hide StateInv, Apply;
    if k == |labels| {
      assert labels[..k] == labels;
    } else {
      var before, l := labels[..|labels| - 1], labels[|labels| - 1];
      KeysStay(n, threads, before, k);
      assert before[..k] == labels[..k];
      TableSound(n, threads, before);
      KeysStep(After(n, threads, before), l);
      KeptOn(After(n, threads, labels[..k]).slots, After(n, threads, before).slots, After(n, threads, labels).slots);
      hide KeysKept, NonZeroKeys;
    }
  }

  lemma KeptOn(a: seq<Slot>, b: seq<Slot>, c: seq<Slot>)
    requires KeysKept(a, b) && KeysKept(b, c)
    ensures KeysKept(a, c)
  {
  }

  lemma KeysStep(s: State, l: Label)
    requires InRange(s) && StateInv(s) && Enabled(s, l)
    ensures KeysKept(s.slots, Apply(s, l).slots)
  {
    hide Start, IntegerHash;
    if l.Run? { AccessKeeps(s.slots, s.pcs[l.tid]); }
  }

  /** The hash is a signed int congruent to the product modulo 2^32. */
  lemma HashIsProduct(i: int)
    ensures -0x8000_0000 <= IntegerHash(i) < 0x8000_0000
    ensures (IntegerHash(i) - 654435761 * i) % 0x1_0000_0000 == 0
  {
    var x := i * 654435761;
    var q, r := x / 0x1_0000_0000, x % 0x1_0000_0000;
    assert x == 0x1_0000_0000 * q + r;
    Multiple(-q);
    Multiple(-q - 1);
  }

  lemma Multiple(t: int)
    ensures (0x1_0000_0000 * t) % 0x1_0000_0000 == 0
  {
  }

  // ---------------------------------------------------------------- value cells

  /** A value cell that is not 0 changes only by the store of a set_item, and then to what that stores. */
  lemma ValuesChangeBySet(n: nat, threads: set<Tid>, labels: seq<Label>, k: nat, a: nat)
    requires n > 0 && ValidRun(n, threads, labels) && k < |labels| && a < n
    ensures ValidRun(n, threads, labels[..k]) && ValidRun(n, threads, labels[..k + 1])
    ensures var s, t, l := After(n, threads, labels[..k]), After(n, threads, labels[..k + 1]), labels[k];
      && |s.slots| == |t.slots| == n
      && (s.slots[a].value != 0 && t.slots[a].value != s.slots[a].value ==>
            && l.Run? && l.tid in s.pcs && s.pcs[l.tid].AtValue? && s.pcs[l.tid].idx == a
            && s.pcs[l.tid].op.SetItem? && t.slots[a].value == s.pcs[l.tid].op.value)
  {
    ValidPrefix(n, threads, labels, k);
    ValidPrefix(n, threads, labels, k + 1);
    var s, l := After(n, threads, labels[..k]), labels[k];
    var next := labels[..k + 1];
    assert next[..|next| - 1] == labels[..k] && next[|next| - 1] == l;
    assert Enabled(s, l) && After(n, threads, next) == Apply(s, l);
    hide ValidRun, After, Apply, Enabled;
    ValueStep(s, l, a);
  }

  lemma ValueStep(s: State, l: Label, a: nat)
    requires InRange(s) && Enabled(s, l) && a < |s.slots|
    ensures |Apply(s, l).slots| == |s.slots|
    ensures s.slots[a].value != 0 && Apply(s, l).slots[a].value != s.slots[a].value ==>
      && l.Run? && l.tid in s.pcs && s.pcs[l.tid].AtValue? && s.pcs[l.tid].idx == a
      && s.pcs[l.tid].op.SetItem? && Apply(s, l).slots[a].value == s.pcs[l.tid].op.value
  {
    hide Start, IntegerHash;
  }

  /** The value last stored under a key: by a set_item, or by an add_item that returned 1; 0 if there is none. */
  function LastStored(lin: seq<LinEntry>, k: int): int {
    if lin == [] then 0
    else
      var e := lin[|lin| - 1];
      if e.op.key == k && (e.op.SetItem? || (e.op.AddItem? && e.res == 1)) then e.op.value
      else LastStored(lin[..|lin| - 1], k)
  }

  /** In a legal order get_item returns the value last stored, and add_item 1 exactly when that is 0. */
  lemma AnswersFromStores(lin: seq<LinEntry>, p: nat)
    requires Legal(lin) && p < |lin|
    ensures lin[p].op.SetItem? ==> lin[p].res == 0
    ensures lin[p].op.GetItem? ==> lin[p].res == LastStored(lin[..p], lin[p].op.key)
    ensures lin[p].op.AddItem? ==> lin[p].res == if LastStored(lin[..p], lin[p].op.key) == 0 then 1 else 0
  {
    LegalPrefix(lin, p);
    StoredIsFound(lin[..p], lin[p].op.key);
  }

  lemma LegalPrefix(lin: seq<LinEntry>, p: nat)
    requires Legal(lin) && p <= |lin|
    ensures Legal(lin[..p])
  {
    forall q | 0 <= q < p ensures lin[..p][q].res == SpecRes(Replay(lin[..p][..q]), lin[..p][q].op) {
      assert lin[..p][..q] == lin[..q];
    }
  }

  lemma {:induction false} StoredIsFound(lin: seq<LinEntry>, k: int)
    requires Legal(lin)
    ensures LastStored(lin, k) == Find(Replay(lin), k)
  {
    if lin != [] {
      LegalPrefix(lin, |lin| - 1);
      StoredIsFound(lin[..|lin| - 1], k);
      assert lin[|lin| - 1].res == SpecRes(Replay(lin[..|lin| - 1]), lin[|lin| - 1].op);
    }
  }

  // ---------------------------------------------------------------- counting successful adds

  function Ones(h: seq<Event>): nat {
    if h == [] then 0
    else Ones(h[..|h| - 1]) + if h[|h| - 1].Res? && h[|h| - 1].res == 1 then 1 else 0
  }

  function CalledKeys(h: seq<Event>): set<int> {
    set i | 0 <= i < |h| && h[i].Inv? :: h[i].op.key
  }

  function SetSlots(slots: seq<Slot>): set<int> {
    set a | 0 <= a < |slots| && slots[a].value != 0
  }

  function Winners(pcs: map<Tid, Pc>): set<Tid> {
    set t | t in pcs && pcs[t].Returning? && pcs[t].res == 1
  }

  predicate OnlyAdds(labels: seq<Label>) {
    forall i :: 0 <= i < |labels| && labels[i].Call? ==>
      labels[i].op.AddItem? && labels[i].op.key != 0 && labels[i].op.value != 0
  }

  ghost predicate Holds(slots: seq<Slot>, key: int) {
    exists a :: 0 <= a < |slots| && slots[a].key == key && slots[a].value != 0
  }

  ghost predicate AddPc(s: State, h: seq<Event>, pc: Pc) {
    match pc
    case Idle => true
    case Returning(op, _) => op.key in CalledKeys(h) && Holds(s.slots, op.key)
    case _ => pc.op.AddItem? && pc.op.value != 0 && pc.op.key in CalledKeys(h)
  }

  ghost predicate Working(s: State, key: int) {
    exists t :: t in s.pcs && !s.pcs[t].Idle? && s.pcs[t].op.key == key
  }

  ghost predicate AddsInv(s: State, h: seq<Event>) {
    && Ones(h) + |Winners(s.pcs)| == |SetSlots(s.slots)|
    && (forall t :: t in s.pcs ==> AddPc(s, h, s.pcs[t]))
    && (forall a :: 0 <= a < |s.slots| && s.slots[a].key != 0 ==> s.slots[a].key in CalledKeys(h))
    && (forall k :: k in CalledKeys(h) ==> k != 0 && (Holds(s.slots, k) || Working(s, k)))
  }

  lemma OnesSnoc(h: seq<Event>, e: Event)
    ensures Ones(h + [e]) == Ones(h) + if e.Res? && e.res == 1 then 1 else 0
    ensures CalledKeys(h + [e]) == CalledKeys(h) + if e.Inv? then {e.op.key} else {}
  {
    var h' := h + [e];
    assert h'[..|h|] == h;
    forall k | k in CalledKeys(h) ensures k in CalledKeys(h') {
      var i :| 0 <= i < |h| && h[i].Inv? && h[i].op.key == k;
      assert h'[i] == h[i];
    }
    if e.Inv? { assert h'[|h|].op.key in CalledKeys(h'); }
  }

  lemma AddsCall(s: State, h: seq<Event>, t: Tid, op: Op)
    requires InRange(s) && AddsInv(s, h) && Enabled(s, Call(t, op)) && op.AddItem? && op.key != 0 && op.value != 0
    ensures AddsInv(Apply(s, Call(t, op)), h + [Inv(t, op)])
  {
    hide Start, IntegerHash;
    var s', h' := Apply(s, Call(t, op)), h + [Inv(t, op)];
    OnesSnoc(h, Inv(t, op));
    assert Winners(s'.pcs) == Winners(s.pcs);
    forall k | k in CalledKeys(h') ensures k != 0 && (Holds(s'.slots, k) || Working(s', k)) {
      if k == op.key { assert s'.pcs[t].op.key == k; }
      else if !Holds(s.slots, k) {
        var u :| u in s.pcs && !s.pcs[u].Idle? && s.pcs[u].op.key == k;
        assert s'.pcs[u] == s.pcs[u];
      }
    }
  }

  lemma WinnerReturns(pcs: map<Tid, Pc>, t: Tid)
    requires t in pcs && pcs[t].Returning?
    ensures |Winners(pcs[t := Idle])| == |Winners(pcs)| - if pcs[t].res == 1 then 1 else 0
  {
    assert Winners(pcs[t := Idle]) == Winners(pcs) - {t};
  }

  lemma AddsReturn(s: State, h: seq<Event>, t: Tid)
    requires InRange(s) && AddsInv(s, h) && Enabled(s, Return(t))
    ensures AddsInv(Apply(s, Return(t)), h + [Res(t, s.pcs[t].res)])
  {
    hide Start, IntegerHash, Access;
    var s', e := Apply(s, Return(t)), Res(t, s.pcs[t].res);
    OnesSnoc(h, e);
    assert AddPc(s, h, s.pcs[t]);
    WinnerReturns(s.pcs, t);
    hide Ones, CalledKeys, SetSlots, InRange, Winners;
    forall k | k in CalledKeys(h) ensures Holds(s'.slots, k) || Working(s', k) {
      if !Holds(s.slots, k) {
        var u :| u in s.pcs && !s.pcs[u].Idle? && s.pcs[u].op.key == k;
        assert s'.pcs[u] == s.pcs[u];
      }
    }
  }

  lemma HoldsKept(slots: seq<Slot>, slots': seq<Slot>, key: int)
    requires |slots| == |slots'| && Holds(slots, key) && key != 0
    requires forall a :: 0 <= a < |slots| && slots[a].value != 0 && slots[a].key != 0 ==> slots'[a] == slots[a]
    ensures Holds(slots', key)
  {
    var a :| 0 <= a < |slots| && slots[a].key == key && slots[a].value != 0;
    assert slots'[a] == slots[a];
  }

  /** An access sets at most one value, and then it is the one that makes its add return 1. */
  lemma AddsRunSlots(slots: seq<Slot>, pc: Pc)
    requires pc.LoadKey? || pc.CasKey? || pc.AtValue?
    requires pc.idx < |slots| && pc.op.AddItem? && pc.op.value != 0
    ensures var (pc', slots') := Access(slots, pc);
            if pc'.Returning? && pc'.res == 1 then
              pc.idx !in SetSlots(slots) && SetSlots(slots') == SetSlots(slots) + {pc.idx as int}
            else SetSlots(slots') == SetSlots(slots)
  {
    hide Next;
  }

  lemma AddsRunCount(s: State, h: seq<Event>, t: Tid)
    requires InRange(s) && Enabled(s, Run(t)) && AddPc(s, h, s.pcs[t])
    ensures |Winners(Apply(s, Run(t)).pcs)| - |Winners(s.pcs)| ==
            |SetSlots(Apply(s, Run(t)).slots)| - |SetSlots(s.slots)|
  {
    var pc := s.pcs[t];
    AddsRunSlots(s.slots, pc);
    var (pc', slots') := Access(s.slots, pc);
    var pcs' := s.pcs[t := pc'];
    hide Access, SetSlots, CalledKeys, Holds, InRange;
    if pc'.Returning? && pc'.res == 1 {
      assert Winners(pcs') == Winners(s.pcs) + {t};
    } else {
      assert Winners(pcs') == Winners(s.pcs);
    }
  }

  lemma AddsAccess(s: State, h: seq<Event>, t: Tid)
    requires InRange(s) && Enabled(s, Run(t)) && AddPc(s, h, s.pcs[t]) && PcInv(s.slots, s.pcs[t]) && AddsInv(s, h)
    ensures var s' := Apply(s, Run(t));
            && (forall a :: 0 <= a < |s.slots| && s.slots[a].value != 0 && s.slots[a].key != 0 ==>
                s'.slots[a] == s.slots[a])
            && (forall a :: 0 <= a < |s'.slots| && s'.slots[a].key != 0 ==> s'.slots[a].key in CalledKeys(h))
            && AddPc(s', h, s'.pcs[t]) && !s'.pcs[t].Idle? && s'.pcs[t].op == s.pcs[t].op
            && (forall u :: u in s.pcs && u != t ==> s'.pcs[u] == s.pcs[u])
  {
    hide Start, IntegerHash;
    var s', pc := Apply(s, Run(t)), s.pcs[t];
    if s'.pcs[t].Returning? { assert s'.slots[pc.idx].key == pc.op.key && s'.slots[pc.idx].value != 0; }
    hide CalledKeys;
  }

  lemma AddsRun(s: State, h: seq<Event>, t: Tid)
    requires InRange(s) && AddsInv(s, h) && StateInv(s) && Enabled(s, Run(t))
    ensures AddsInv(Apply(s, Run(t)), h)
  {
    hide Start, IntegerHash;
    var s', pc := Apply(s, Run(t)), s.pcs[t];
    assert AddPc(s, h, pc) && PcInv(s.slots, pc);
    AddsRunCount(s, h, t);
    AddsAccess(s, h, t);
    hide CalledKeys, Access, Apply, StateInv, TableInv, Winners, SetSlots, Ones;
    forall u | u in s'.pcs ensures AddPc(s', h, s'.pcs[u]) {
      if u != t {
        assert AddPc(s, h, s.pcs[u]);
        if s.pcs[u].Returning? { KeyNotZero(s, u); HoldsKept(s.slots, s'.slots, s.pcs[u].op.key); }
      }
    }
    forall k | k in CalledKeys(h) ensures k != 0 && (Holds(s'.slots, k) || Working(s', k)) {
      if Holds(s.slots, k) { HoldsKept(s.slots, s'.slots, k); }
      else {
        var u :| u in s.pcs && !s.pcs[u].Idle? && s.pcs[u].op.key == k;
        assert !s'.pcs[u].Idle? && s'.pcs[u].op.key == k;
      }
    }
  }

  lemma KeyNotZero(s: State, u: Tid)
    requires StateInv(s) && u in s.pcs && s.pcs[u].Returning?
    ensures s.pcs[u].op.key != 0
  {
    hide Start, IntegerHash;
    assert PcInv(s.slots, s.pcs[u]);
  }

  lemma {:induction false} AddsRunInv(n: nat, threads: set<Tid>, labels: seq<Label>)
    requires n > 0 && ValidRun(n, threads, labels) && OnlyAdds(labels)
    ensures AddsInv(After(n, threads, labels), History(n, threads, labels))
    decreases |labels|
  {
    if labels == [] {
      assert Winners(Init(n, threads).pcs) == {} && SetSlots(Init(n, threads).slots) == {};
    } else {
      var before, l := labels[..|labels| - 1], labels[|labels| - 1];
      AddsRunInv(n, threads, before);
      TableSound(n, threads, before);
      var s, h := After(n, threads, before), History(n, threads, before);
      match l
      case Call(t, op) => AddsCall(s, h, t, op);
      case Run(t) => AddsRun(s, h, t); assert h + [] == h;
      case Return(t) => AddsReturn(s, h, t);
    }
  }

  /** Slots with a value and keys they hold correspond one to one. */
  lemma {:induction false} KeysOfSlots(slots: seq<Slot>, some: set<int>) returns (keys: set<int>)
    requires some <= SetSlots(slots)
    requires forall a, b :: 0 <= a < b < |slots| && slots[a].key != 0 ==> slots[a].key != slots[b].key
    requires forall a :: 0 <= a < |slots| && slots[a].key == 0 ==> slots[a].value == 0
    ensures keys == (set a | a in some :: slots[a].key) && |keys| == |some|
    decreases some
  {
    hide Start, IntegerHash;
    if some == {} { keys := {}; }
    else {
      var a :| a in some;
      var rest := KeysOfSlots(slots, some - {a});
      keys := rest + {slots[a].key};
      assert forall b :: b in some - {a} ==> slots[b].key != slots[a].key;
      assert some == some - {a} + {a};
      assert keys == set b | b in some :: slots[b].key;
    }
  }

  /** When every call of a run was an add and all have returned, as many adds returned 1 as there are
      distinct keys, and as many slots hold a value. */
  lemma AddsCounted(n: nat, threads: set<Tid>, labels: seq<Label>)
    requires n > 0 && ValidRun(n, threads, labels) && OnlyAdds(labels)
    requires forall t :: t in threads ==> After(n, threads, labels).pcs[t].Idle?
    ensures Ones(History(n, threads, labels)) == |CalledKeys(History(n, threads, labels))|
    ensures Ones(History(n, threads, labels)) == |SetSlots(After(n, threads, labels).slots)|
  {
    hide Start, IntegerHash;
    var s, h := After(n, threads, labels), History(n, threads, labels);
    AddsRunInv(n, threads, labels);
    TableSound(n, threads, labels);
    assert Winners(s.pcs) == {};
    var keys := KeysOfSlots(s.slots, SetSlots(s.slots));
    forall k ensures k in keys <==> k in CalledKeys(h) {
      if k in CalledKeys(h) {
        assert Holds(s.slots, k);
        var a :| 0 <= a < |s.slots| && s.slots[a].key == k && s.slots[a].value != 0;
        assert a in SetSlots(s.slots);
      }
    }
    assert keys == CalledKeys(h);
  }

  // ---------------------------------------------------------------- key 0

  /** The schedule that stores under key 0 and then adds a key that hashes to the same slot. */
  function ZeroSchedule(v: int, k: int, w: int): seq<Label> {
    [Call(0, SetItem(0, v)), Run(0), Run(0), Return(0), Call(0, AddItem(k, w)), Run(0), Run(0), Run(0), Return(0)]
  }

  /** Running thread 0 alone: what the label does to slot 0 and to the thread. */
  lemma ZeroStep(n: nat, labels: seq<Label>, l: Label, s: State)
    requires n > 0 && ValidRun(n, {0}, labels) && After(n, {0}, labels) == s && Enabled(s, l)
    ensures ValidRun(n, {0}, labels + [l]) && After(n, {0}, labels + [l]) == Apply(s, l)
    ensures History(n, {0}, labels + [l]) == History(n, {0}, labels) + EventsOf(s, l)
  {
    Snoc(n, {0}, labels, l);
  }

  lemma EmptyRun(n: nat, threads: set<Tid>)
    requires n > 0
    ensures ValidRun(n, threads, []) && After(n, threads, []) == Init(n, threads) && History(n, threads, []) == []
  {
  }

  lemma ZeroFirstQuarter(n: nat, v: int, k: int, w: int)
    requires n > 0
    ensures var ls, s0 := ZeroSchedule(v, k, w), Init(n, {0});
      && ValidRun(n, {0}, ls[..2]) && After(n, {0}, ls[..2]) == Apply(Apply(s0, ls[0]), ls[1])
      && History(n, {0}, ls[..2]) == [Inv(0, SetItem(0, v))] && Enabled(s0, ls[0]) && Enabled(Apply(s0, ls[0]), ls[1])
  {
    var ls, s0 := ZeroSchedule(v, k, w), Init(n, {0});
    assert ls[..0] == [] && Start(0, n) == 0;
    EmptyRun(n, {0});
    Prefixes(ls);
    hide ValidRun, After, History, Start, IntegerHash;
    var s1 := Apply(s0, ls[0]);     ZeroStep(n, ls[..0], ls[0], s0);
    ZeroStep(n, ls[..1], ls[1], s1);
  }

  lemma ZeroFirstHalf(n: nat, v: int, k: int, w: int)
    requires n > 0
    ensures ValidRun(n, {0}, ZeroSchedule(v, k, w)[..4])
    ensures After(n, {0}, ZeroSchedule(v, k, w)[..4]) == Init(n, {0}).(slots := Init(n, {0}).slots[0 := Slot(0, v)])
    ensures History(n, {0}, ZeroSchedule(v, k, w)[..4]) == [Inv(0, SetItem(0, v)), Res(0, 0)]
  {
    var ls, s0 := ZeroSchedule(v, k, w), Init(n, {0});
    assert Start(0, n) == 0;
    ZeroFirstQuarter(n, v, k, w);
    Prefixes(ls);
    hide ValidRun, After, History, Start, IntegerHash;
    var s2 := Apply(Apply(s0, ls[0]), ls[1]);
    var s3 := Apply(s2, ls[2]);     ZeroStep(n, ls[..2], ls[2], s2);
    ZeroStep(n, ls[..3], ls[3], s3);
  }

  lemma ZeroRun(n: nat, v: int, k: int, w: int)
    requires n > 0 && v != 0 && k != 0 && Start(k, n) == 0
    ensures ValidRun(n, {0}, ZeroSchedule(v, k, w))
    ensures History(n, {0}, ZeroSchedule(v, k, w))
      == [Inv(0, SetItem(0, v)), Res(0, 0), Inv(0, AddItem(k, w)), Res(0, 0)]
  {
    hide ValidRun, After, History, Start, IntegerHash;
    var ls := ZeroSchedule(v, k, w);
    ZeroFirstHalf(n, v, k, w);
    var s4 := After(n, {0}, ls[..4]);
    Prefixes(ls);
    var s5 := Apply(s4, ls[4]);     ZeroStep(n, ls[..4], ls[4], s4);
    var s6 := Apply(s5, ls[5]);     ZeroStep(n, ls[..5], ls[5], s5);
    var s7 := Apply(s6, ls[6]);     ZeroStep(n, ls[..6], ls[6], s6);
    var s8 := Apply(s7, ls[7]);     ZeroStep(n, ls[..7], ls[7], s7);
    ZeroStep(n, ls[..8], ls[8], s8);
    assert ls[..9] == ls;
  }

  lemma Prefixes(ls: seq<Label>)
    ensures forall i :: 0 <= i < |ls| ==> ls[..i] + [ls[i]] == ls[..i + 1]
  {
  }

  /** Key 0 marks a free slot, so callers must not use it: the value stored under it is later taken for the value
      of whichever key claims the slot, and the add of that absent key reports that it was present. */
  lemma ZeroKeyBreaks(n: nat, v: int, k: int, w: int)
    requires n > 0 && v != 0 && k != 0 && Start(k, n) == 0
    ensures ValidRun(n, {0}, ZeroSchedule(v, k, w))
    ensures !exists lin :: Linearizes(lin, History(n, {0}, ZeroSchedule(v, k, w)))
  {
    hide Start, IntegerHash;
    ZeroRun(n, v, k, w);
    hide Linearizes, ValidRun, History;
    forall lin ensures !Linearizes(lin, History(n, {0}, ZeroSchedule(v, k, w))) {
      ZeroHasNoOrder(lin, v, k, w);
    }
  }

  /** The set had returned when the add was called, and neither touches the other's key. */
  lemma ZeroHasNoOrder(lin: seq<LinEntry>, v: int, k: int, w: int)
    requires k != 0
    ensures !Linearizes(lin, [Inv(0, SetItem(0, v)), Res(0, 0), Inv(0, AddItem(k, w)), Res(0, 0)])
  {
    var h := [Inv(0, SetItem(0, v)), Res(0, 0), Inv(0, AddItem(k, w)), Res(0, 0)];
    assert Answers(h, 2, 3);
    var added := LinEntry(2, AddItem(k, w), 0);
    if q :| 0 <= q < |lin| && lin[q] == added && Linearizes(lin, h) {
      NoKey(lin[..q], k);
    }
  }

  lemma {:induction false} NoKey(lin: seq<LinEntry>, k: int)
    requires forall p :: 0 <= p < |lin| ==> lin[p].op.key != k
    ensures Find(Replay(lin), k) == 0
  {
    if lin != [] { NoKey(lin[..|lin| - 1], k); }
  }

  lemma SameSlot()
    ensures Start(ARRAY_SIZE, ARRAY_SIZE) == 0
  {
    assert IntegerHash(16384) == 2037137408;
  }

  /** At the table size of the source, key 16384 is such a key. */
  lemma ZeroKeyBreaksHere(n: nat, v: int, w: int)
    requires n == ARRAY_SIZE && v != 0
    ensures ValidRun(n, {0}, ZeroSchedule(v, n, w))
    ensures !exists lin :: Linearizes(lin, History(n, {0}, ZeroSchedule(v, n, w)))
  {
    hide Start, ValidRun, History, Linearizes;
    SameSlot();
    ZeroKeyBreaks(n, v, n, w);
  }

  predicate UsesOnly(labels: seq<Label>, keys: iset<int>) {
    forall i :: 0 <= i < |labels| && labels[i].Call? ==> labels[i].op.key in keys
  }

  /** Every run that uses these keys only is linearizable. */
  ghost predicate SafeKeys(n: nat, keys: iset<int>)
    requires n > 0
  {
    forall threads, labels :: ValidRun(n, threads, labels) && UsesOnly(labels, keys) ==>
      exists lin :: Linearizes(lin, History(n, threads, labels))
  }

  /** A set of keys, one of them not 0 and starting at key 0's slot, is safe to use if and only if 0 is not in it. */
  lemma SafeWithoutZero(n: nat, keys: iset<int>, k: int)
    requires n > 0 && k in keys && k != 0 && Start(k, n) == 0
    ensures SafeKeys(n, keys) <==> 0 !in keys
  {
    hide Start, IntegerHash, Linearizes, ValidRun, History;
    if 0 in keys {
      var labels := ZeroSchedule(1, k, 1);
      ZeroKeyBreaks(n, 1, k, 1);
      assert UsesOnly(labels, keys);
    } else {
      forall threads, labels | ValidRun(n, threads, labels) && UsesOnly(labels, keys)
        ensures exists lin :: Linearizes(lin, History(n, threads, labels))
      {
        Linearizable(n, threads, labels);
      }
    }
  }

  // ---------------------------------------------------------------- the mask

  /** For a table of 2^k slots the hash table's first slot is the hash masked with 2^k - 1. */
  lemma StartIsMask(key: int, k: nat)
    ensures Start(key, Bits.Pow2(k)) == Bits.And(IntegerHash(key), Bits.Pow2(k) - 1)
  {
    Bits.MaskIsMod(IntegerHash(key), k);
  }

  /** And stepping with idx++ and the mask is going round. */
  lemma NextIsMask(idx: nat, k: nat)
    requires idx < Bits.Pow2(k)
    ensures Next(idx, Bits.Pow2(k)) == Bits.And(idx + 1, Bits.Pow2(k) - 1)
  {
    Bits.MaskIsMod(idx + 1, k);
    Bits.ModUnique(idx + 1, Bits.Pow2(k), if idx + 1 == Bits.Pow2(k) then 1 else 0, Next(idx, Bits.Pow2(k)));
  }
}
